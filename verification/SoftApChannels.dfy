/**
 The channel list of a soft access point in Docs/WiFi/reference/wlan_hdd_hostapd.c: the enabled channels
 of the band, less the indoor channels where the FCC forbids them, edited in place.

 Channel entries are one byte wide.  The tables regChannels and rfChannels and the constant
 IW_MAX_FREQUENCIES are parameters.
 */
module SoftApChannels {
  import opened Words

  predicate Indoor(c: byte) {
    35 < c < 49
  }

  /** The channel numbers of the enabled table entries from one index to before another. */
  function Enabled(enabled: seq<bool>, rf: seq<byte>, from: nat, to: nat): (r: seq<byte>)
    requires from <= to <= |enabled| == |rf|
    ensures |r| <= to - from
  {
    if from == to then [] else Enabled(enabled, rf, from, to - 1) + if enabled[to - 1] then [rf[to - 1]] else []
  }

  /** The enabled table entries from one index to before another. */
  function EnabledEntries(enabled: seq<bool>, from: nat, to: nat): set<nat>
    requires to <= |enabled|
  {
    set j: nat | from <= j < to && enabled[j]
  }

  lemma OneMoreEntry(enabled: seq<bool>, from: nat, to: nat)
    requires from < to <= |enabled|
    ensures |EnabledEntries(enabled, from, to)| == |EnabledEntries(enabled, from, to - 1)| + if enabled[to - 1] then 1 else 0
  {
    var fewer := EnabledEntries(enabled, from, to - 1);
    assert EnabledEntries(enabled, from, to) == if enabled[to - 1] then fewer + {to - 1} else fewer;
  }

  /** The entry j is enabled, and k enabled entries stand before it. */
  predicate StandsAt(enabled: seq<bool>, from: nat, to: nat, j: nat, k: nat)
    requires to <= |enabled|
  {
    from <= j < to && enabled[j] && |EnabledEntries(enabled, from, j)| == k
  }

  ghost predicate Filled(enabled: seq<bool>, from: nat, to: nat, k: nat)
    requires to <= |enabled|
  {
    exists j: nat :: StandsAt(enabled, from, to, j, k)
  }

  /**
   What is listed: each enabled entry once, at the place given by how many enabled entries stand before it, and nothing else.
   */
  lemma {:induction false} EnabledMeans(enabled: seq<bool>, rf: seq<byte>, from: nat, to: nat)
    requires from <= to <= |enabled| == |rf|
    ensures |Enabled(enabled, rf, from, to)| == |EnabledEntries(enabled, from, to)|
    ensures forall j: nat, k: nat :: StandsAt(enabled, from, to, j, k) ==>
              k < |Enabled(enabled, rf, from, to)| && Enabled(enabled, rf, from, to)[k] == rf[j]
    ensures forall k: nat :: k < |Enabled(enabled, rf, from, to)| ==> Filled(enabled, from, to, k)
    decreases (to - from)
  {
    if from < to {
      EnabledMeans(enabled, rf, from, to - 1);
      OneMoreEntry(enabled, from, to);
      hide EnabledEntries;
      var list, shorter := Enabled(enabled, rf, from, to), Enabled(enabled, rf, from, to - 1);
      forall k: nat | 0 <= k < |list| ensures Filled(enabled, from, to, k) {
        if k < |shorter| {
          assert Filled(enabled, from, to - 1, k);
          var j: nat :| StandsAt(enabled, from, to - 1, j, k);
          assert StandsAt(enabled, from, to, j, k);
        } else {
          assert StandsAt(enabled, from, to, to - 1, k);
        }
      }
      forall j: nat, k: nat | StandsAt(enabled, from, to, j, k) ensures k < |list| && list[k] == rf[j] {
        if j < to - 1 {
          assert StandsAt(enabled, from, to - 1, j, k);
        }
      }
    } else {
      assert EnabledEntries(enabled, from, to) == {};
    }
  }

  function Outdoor(s: seq<byte>): (r: seq<byte>)
    ensures |r| <= |s|
  {
    if s == [] then [] else Outdoor(s[..|s| - 1]) + if Indoor(s[|s| - 1]) then [] else [s[|s| - 1]]
  }

  /** What Outdoor means: no indoor channel, every other as often as before, and in the same order. */
  lemma {:induction false} OutdoorMeans(s: seq<byte>, c: byte)
    ensures multiset(Outdoor(s))[c] == if 36 <= c <= 48 then 0 else multiset(s)[c]
  {
    if s == [] {
    } else {
      var init, last := s[..|s| - 1], s[|s| - 1];
      OutdoorMeans(init, c);
      assert s == init + [last];
      OneMoreCounts(init, last, c);
      if !Indoor(last) {
        OneMoreCounts(Outdoor(init), last, c);
      }
    }
  }

  lemma OneMoreCounts(s: seq<byte>, last: byte, c: byte)
    ensures multiset(s + [last])[c] == multiset(s)[c] + if last == c then 1 else 0
    ensures multiset(s + [])[c] == multiset(s)[c]
  {
    assert s + [] == s;
  }

  /** Each channel that is kept comes from further right by as many places as were removed before it. */
  lemma {:induction false} OutdoorKeepsOrder(s: seq<byte>, j: nat)
    requires j < |s| && !Indoor(s[j])
    ensures |Outdoor(s[..j])| < |Outdoor(s)| && Outdoor(s)[|Outdoor(s[..j])|] == s[j]
  {
    if j == |s| - 1 {
      assert s[..j] == s[..|s| - 1];
    } else {
      assert s[..|s| - 1][..j] == s[..j];
      OutdoorKeepsOrder(s[..|s| - 1], j);
    }
  }

  /** The n entries from index i on have taken the values of their right neighbours; the others have stayed. */
  predicate ShiftedLeft(now: seq<byte>, after: seq<byte>, i: nat, n: nat) {
    && |after| == |now| && i + n < |now|
    && (forall k :: 0 <= k < i ==> after[k] == now[k])
    && (forall k :: i <= k < i + n ==> after[k] == now[k + 1])
    && (forall k :: i + n <= k < |now| ==> after[k] == now[k])
  }

  /** vos_mem_move to the left by one */
  method MoveLeft(channels: array<byte>, i: nat, n: nat)
    requires i + 1 + n <= channels.Length
    modifies channels
    ensures ShiftedLeft(old(channels[..]), channels[..], i, n)
  {
    forall k | i <= k < i + n {
      channels[k] := channels[k + 1];
    }
  }

  lemma OutdoorStep(s: seq<byte>, j: nat)
    requires j < |s|
    ensures Outdoor(s[..j + 1]) == Outdoor(s[..j]) + if Indoor(s[j]) then [] else [s[j]]
  {
    assert s[..j + 1][..j] == s[..j];
  }

  /** The first j channels of all have been looked at; i of them are kept, and the others follow. */
  predicate Edited(channels: seq<byte>, all: seq<byte>, j: nat, i: nat) {
    && j <= |all| && i == |Outdoor(all[..j])| && i + |all| - j <= |channels|
    && channels[..i] == Outdoor(all[..j]) && channels[i..i + |all| - j] == all[j..]
  }

  lemma EditedStart(channels: seq<byte>, count: nat)
    requires count <= |channels|
    ensures Edited(channels, channels[..count], 0, 0)
  {
  }

  lemma EditedStep(now: seq<byte>, after: seq<byte>, all: seq<byte>, j: nat, i: nat, n: nat)
    requires Edited(now, all, j, i) && j < |all| && n >= |all| - j - 1
    requires if Indoor(now[i]) then ShiftedLeft(now, after, i, n) else after == now
    ensures Edited(after, all, j + 1, if Indoor(now[i]) then i else i + 1)
  {
    hide Outdoor, Indoor, ShiftedLeft;
    var rest := now[i..i + |all| - j];
    assert now[i] == rest[0] == all[j];
    OutdoorStep(all, j);
    assert rest[1..] == all[j + 1..];
    if Indoor(all[j]) {
      MovedUp(now, after, i, n, |all| - j);
      assert Outdoor(all[..j]) + [] == Outdoor(all[..j]);
    } else {
      assert after[..i + 1] == after[..i] + [after[i]];
      assert after[i + 1..i + |all| - j] == rest[1..];
    }
  }

  lemma MovedUp(now: seq<byte>, after: seq<byte>, i: nat, n: nat, left: nat)
    requires ShiftedLeft(now, after, i, n) && 0 < left <= n + 1 && i + left <= |now|
    ensures |after| == |now| && after[..i] == now[..i] && after[i..i + left - 1] == now[i..i + left][1..]
  {
  }

  lemma TailStays(now: seq<byte>, after: seq<byte>, i: nat, n: nat, from: nat)
    requires ShiftedLeft(now, after, i, n) && i + n <= from <= |now|
    ensures after[from..] == now[from..]
  {
  }

  lemma EditedEnd(channels: seq<byte>, all: seq<byte>, i: nat)
    requires Edited(channels, all, |all|, i)
    ensures channels[..i] == Outdoor(all)
  {
    assert all[..|all|] == all;
  }

  /** The index in 8 bits */
  function Inc8(i: byte): byte {
    (i + 1) % 0x100
  }

  function Dec8(i: byte): byte {
    (i - 1) % 0x100
  }

  lemma Wraps(i: byte)
    ensures Inc8(Dec8(i)) == i && (i < 255 ==> Inc8(i) == i + 1)
  {
  }

  /**
   The FCC loop: the index is 8 bits wide and steps back through 255 when the first channel goes; each move
   copies two bytes more than the channels behind the one removed.
   */
  method RemoveIndoor(channels: array<byte>, count: nat) returns (num: nat)
    requires count <= 255 && count + 2 <= channels.Length
    modifies channels
    ensures num <= count && channels[..num] == Outdoor(old(channels[..count]))
    ensures forall k :: count < k < channels.Length ==> channels[k] == old(channels[k])
  {
    hide Edited, Outdoor, ShiftedLeft, Inc8, Dec8;
    ghost var all := channels[..count];
    ghost var j := 0;
    ghost var tail := channels[count + 1..];
    var temp := count;
    num := count;
    var i: byte := 0;
    EditedStart(channels[..], count);
    assert channels[..][..count] == all;
    while i < temp
      invariant i <= j <= count && temp == num == i + (count - j) && Edited(channels[..], all, j, i)
      invariant channels[..][count + 1..] == tail
      decreases count - j
    {
      ghost var now, at, n := channels[..], i, temp - (i - 1);
      if channels[i] > 35 && channels[i] < 49 {
        MoveLeft(channels, i, temp - (i - 1));
        TailStays(now, channels[..], i, n, count + 1);
        num := num - 1;
        temp := temp - 1;
        i := Dec8(i);
      }
      EditedStep(now, channels[..], all, j, at, n);
      Wraps(at);
      i := Inc8(i);
      j := j + 1;
    }
    EditedEnd(channels[..], all, i);
    assert channels[..][..num] == channels[..num];
    assert forall k :: count < k < channels.Length ==> channels[k] == channels[..][count + 1..][k - count - 1];
  }

  datatype Band = All | Only24 | Only5

  /** Where the bands begin and end in the channel tables; RF_CHAN_165 is the last entry. */
  datatype Bounds = Bounds(chan1: nat, chan14: nat, chan36: nat, chan165: nat)

  predicate ValidBounds(b: Bounds, n: nat) {
    b.chan1 <= b.chan14 < b.chan36 <= b.chan165 < n && b.chan165 < 255
  }

  function First(band: Band, b: Bounds): nat {
    if band == Only5 then b.chan36 else b.chan1
  }

  function Last(band: Band, b: Bounds): nat {
    if band == Only24 then b.chan14 else b.chan165
  }

  /** The first loop of `__iw_softap_get_channel_list`, with an 8-bit index */
  method Collect(enabled: seq<bool>, rf: seq<byte>, bandStartChannel: nat, bandEndChannel: nat, channels: array<byte>)
    returns (count: nat)
    requires bandStartChannel <= bandEndChannel < |enabled| == |rf| && bandEndChannel < 255 && |rf| <= channels.Length
    modifies channels
    ensures count <= bandEndChannel + 1 - bandStartChannel
    ensures channels[..count] == Enabled(enabled, rf, bandStartChannel, bandEndChannel + 1)
  {
    count := 0;
    var i: byte := bandStartChannel;
    while i <= bandEndChannel
      invariant bandStartChannel <= i <= bandEndChannel + 1 && count <= i - bandStartChannel
      invariant channels[..count] == Enabled(enabled, rf, bandStartChannel, i)
    {
      ghost var before := channels[..count];
      if enabled[i] {
        channels[count] := rf[i];
        count := count + 1;
        assert channels[..count] == before + [rf[i]];
      }
      i := i + 1;
    }
  }

  /** `__iw_softap_get_channel_list`: Some number of channels, or None for -EIO. */
  method GetChannelList(enabled: seq<bool>, rf: seq<byte>, bounds: Bounds, band: Option<Band>, fcc: Option<bool>, strict: bool,
                        maxFrequencies: nat, channels: array<byte>)
    returns (num: Option<nat>)
    requires |enabled| == |rf| && ValidBounds(bounds, |rf|) && |rf| + 2 <= channels.Length
    modifies channels
    ensures num.Some? <==> band.Some? && fcc.Some?
    ensures num.Some? ==>
              var all := Enabled(enabled, rf, First(band.value, bounds), Last(band.value, bounds) + 1);
              var kept := if fcc.value && strict then Outdoor(all) else all;
              num.value == Min(|kept|, maxFrequencies) && channels[..num.value] == kept[..num.value]
  {
    hide Enabled, Outdoor;
    if band.None? {
      return None;
    }
    var bandStartChannel, bandEndChannel := bounds.chan1, bounds.chan165;
    if band.value == Only24 {
      bandEndChannel := bounds.chan14;
    } else if band.value == Only5 {
      bandStartChannel := bounds.chan36;
    }
    var count := Collect(enabled, rf, bandStartChannel, bandEndChannel, channels);
    if fcc.None? {
      return None;
    }
    if fcc.value && strict {
      count := RemoveIndoor(channels, count);
    }
    if count > maxFrequencies {
      count := maxFrequencies;
    }
    return Some(count);
  }
}
