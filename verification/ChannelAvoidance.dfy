/**
 Channel avoidance in Docs/WiFi/reference/wlan_hdd_hostapd.c: the firmware names frequency ranges to
 avoid, the driver makes a list of the channels inside them and marks those channels unsafe.

 The frequency table rfChannels is not part of this model: any table of frequencies and channels will do.
 */
module ChannelAvoidance {
  import opened Words

  /** The channel numbers of the table safeChannels: 2.4 GHz, and 5 GHz in the table's order. */
  const BAND_1: seq<u16> := [1, 2, 3, 4, 5, 6, 7, 8, 9, 10, 11, 12, 13, 14]
  const BAND_240: seq<u16> := [240, 244, 248, 252]
  const BAND_208: seq<u16> := [208, 212, 216]
  const BAND_36: seq<u16> := [36, 40, 44, 48, 52, 56, 60, 64]
  const BAND_100: seq<u16> := [100, 104, 108, 112, 116, 120, 124, 128, 132, 136, 140]
  const BAND_149: seq<u16> := [149, 153, 157, 161, 165]

  const SAFE_CHANNELS: seq<u16> := BAND_1 + BAND_240 + BAND_208 + BAND_36 + BAND_100 + BAND_149

  datatype RfChannel = RfChannel(targetFreq: u16, channelNum: u16)

  datatype FreqRange = FreqRange(startFreq: u16, endFreq: u16)

  /** From the first channel to before the last. */
  datatype Span = Span(from: nat, to: nat)

  predicate Distinct(s: seq<u16>) {
    forall i, j :: 0 <= i < j < |s| ==> s[i] != s[j]
  }

  /** Ascending, between two bounds. */
  predicate Ascends(s: seq<u16>, lo: nat, hi: nat) {
    (forall i :: 0 <= i < |s| ==> lo <= s[i] <= hi) && forall i, j :: 0 <= i < j < |s| ==> s[i] < s[j]
  }

  lemma DistinctConcat(a: seq<u16>, b: seq<u16>, lo: nat, hi: nat)
    requires Distinct(a) && Ascends(b, lo, hi) && forall v :: v in a ==> v < lo || v > hi
    ensures Distinct(a + b)
  {
    forall i, j | 0 <= i < j < |a + b| ensures (a + b)[i] != (a + b)[j] {
      if i < |a| <= j {
        assert a[i] in a;
      }
    }
  }

  lemma SixBands(a: seq<u16>, b: seq<u16>, c: seq<u16>, d: seq<u16>, e: seq<u16>, f: seq<u16>)
    requires Ascends(a, 1, 14) && Ascends(b, 240, 252) && Ascends(c, 208, 216)
    requires Ascends(d, 36, 64) && Ascends(e, 100, 140) && Ascends(f, 149, 165)
    ensures Distinct(a + b + c + d + e + f)
  {
    DistinctConcat(a, b, 240, 252);
    DistinctConcat(a + b, c, 208, 216);
    DistinctConcat(a + b + c, d, 36, 64);
    DistinctConcat(a + b + c + d, e, 100, 140);
    DistinctConcat(a + b + c + d + e, f, 149, 165);
  }

  lemma Band1()
    ensures Ascends(BAND_1, 1, 14)
  {
  }

  lemma BandsFrom208()
    ensures Ascends(BAND_240, 240, 252) && Ascends(BAND_208, 208, 216)
  {
  }

  lemma Band36()
    ensures Ascends(BAND_36, 36, 64)
  {
  }

  lemma Band100()
    ensures Ascends(BAND_100, 100, 140)
  {
  }

  lemma Band149()
    ensures Ascends(BAND_149, 149, 165)
  {
  }

  lemma SafeChannelsAreDistinct()
    ensures Distinct(SAFE_CHANNELS) && |SAFE_CHANNELS| == 45
  {
    Band1();
    BandsFrom208();
    Band36();
    Band100();
    Band149();
    hide Ascends, Distinct;
    SixBands(BAND_1, BAND_240, BAND_208, BAND_36, BAND_100, BAND_149);
  }

  /** The 16-bit channel loop ends unless a channel has the number 65535, which no channel has. */
  predicate EndingLoops(rf: seq<RfChannel>) {
    forall i :: 0 <= i < |rf| ==> rf[i].channelNum < 0xffff
  }

  /** The channel of a frequency, 0 for an unknown one. */
  function FreqToChn(rf: seq<RfChannel>, freq: u16): (chn: u16)
    ensures EndingLoops(rf) ==> chn < 0xffff
  {
    if rf == [] then 0 else if rf[0].targetFreq == freq then rf[0].channelNum else FreqToChn(rf[1..], freq)
  }

  /** The channel in the first entry with this frequency, or 0 if there is none. */
  lemma {:induction false} FreqToChnMeans(rf: seq<RfChannel>, freq: u16)
    ensures (forall i :: 0 <= i < |rf| ==> rf[i].targetFreq != freq) ==> FreqToChn(rf, freq) == 0
    ensures forall i :: 0 <= i < |rf| && rf[i].targetFreq == freq && (forall j :: 0 <= j < i ==> rf[j].targetFreq != freq) ==>
              FreqToChn(rf, freq) == rf[i].channelNum
  {
    if rf != [] && rf[0].targetFreq != freq {
      FreqToChnMeans(rf[1..], freq);
      assert FreqToChn(rf, freq) == FreqToChn(rf[1..], freq);
      hide FreqToChn;
      forall i | 0 <= i < |rf| && rf[i].targetFreq == freq && (forall j :: 0 <= j < i ==> rf[j].targetFreq != freq)
        ensures FreqToChn(rf, freq) == rf[i].channelNum
      {
        assert rf[1..][i - 1] == rf[i];
        assert forall j :: 0 <= j < i - 1 ==> rf[1..][j] == rf[j + 1];
      }
    }
  }

  function SpanOf(rf: seq<RfChannel>, r: FreqRange): Span {
    Span(FreqToChn(rf, r.startFreq), FreqToChn(rf, r.endFreq) + 1)
  }

  function SpansOf(rf: seq<RfChannel>, ranges: seq<FreqRange>): (s: seq<Span>)
    ensures |s| == |ranges| && forall i :: 0 <= i < |s| ==> s[i] == SpanOf(rf, ranges[i])
  {
    if ranges == [] then [] else SpansOf(rf, ranges[..|ranges| - 1]) + [SpanOf(rf, ranges[|ranges| - 1])]
  }

  predicate In(spans: seq<Span>, v: int) {
    exists k :: 0 <= k < |spans| && spans[k].from <= v < spans[k].to
  }

  /** A channel is to be avoided if it lies between the channels of the two frequencies of some range, both included. */
  lemma InMeans(rf: seq<RfChannel>, ranges: seq<FreqRange>, v: int)
    ensures In(SpansOf(rf, ranges), v) <==>
              exists r :: r in ranges && FreqToChn(rf, r.startFreq) <= v <= FreqToChn(rf, r.endFreq)
  {
    var spans := SpansOf(rf, ranges);
    if In(spans, v) {
      var k :| 0 <= k < |spans| && spans[k].from <= v < spans[k].to;
      assert ranges[k] in ranges && spans[k] == SpanOf(rf, ranges[k]);
    }
    if r :| r in ranges && FreqToChn(rf, r.startFreq) <= v <= FreqToChn(rf, r.endFreq) {
      var k :| 0 <= k < |ranges| && ranges[k] == r;
      assert spans[k] == SpanOf(rf, r);
    }
  }

  lemma InOneMore(spans: seq<Span>, s: Span, v: int)
    ensures In(spans + [s], v) <==> In(spans, v) || s.from <= v < s.to
  {
    if s.from <= v < s.to {
      assert (spans + [s])[|spans|] == s;
    }
    if In(spans, v) {
      var k :| 0 <= k < |spans| && spans[k].from <= v < spans[k].to;
      assert (spans + [s])[k] == spans[k];
    }
  }

  /** The list holds the table's channels inside the spans, each as often as the table does. */
  ghost predicate Lists(list: seq<u16>, table: seq<u16>, spans: seq<Span>) {
    forall v: u16 :: multiset(list)[v] == if In(spans, v) then multiset(table)[v] else 0
  }

  lemma ListsFits(list: seq<u16>, table: seq<u16>, spans: seq<Span>)
    requires Lists(list, table, spans)
    ensures |list| <= |table|
  {
    assert multiset(list) <= multiset(table);
    assert multiset(table) == multiset(list) + (multiset(table) - multiset(list));
  }

  /** What the list says when no channel is in the table twice. */
  lemma ListsOfDistinct(list: seq<u16>, table: seq<u16>, spans: seq<Span>)
    requires Distinct(table) && Lists(list, table, spans)
    ensures Distinct(list) && |list| <= |table|
    ensures forall v :: v in list <==> v in table && In(spans, v)
  {
    ListsFits(list, table, spans);
    forall v ensures v in list <==> v in table && In(spans, v) {
      assert v in list <==> v in multiset(list);
      assert v in table <==> v in multiset(table);
    }
    forall i, j | 0 <= i < j < |list| ensures list[i] != list[j] {
      AtMostOnce(table, list[i]);
      if list[i] == list[j] {
        Twice(list, i, j);
      }
    }
  }

  lemma AtMostOnce(s: seq<u16>, v: u16)
    requires Distinct(s)
    ensures multiset(s)[v] <= 1
  {
    if s != [] {
      var init := s[..|s| - 1];
      assert s == init + [s[|s| - 1]];
      AtMostOnce(init, v);
      assert v == s[|s| - 1] ==> v !in multiset(init);
    }
  }

  lemma Twice(s: seq<u16>, i: nat, j: nat)
    requires i < j < |s| && s[i] == s[j]
    ensures multiset(s)[s[i]] >= 2
  {
    assert s == s[..j] + [s[j]] + s[j + 1..];
    assert s[i] in s[..j];
    assert s[i] in multiset(s[..j]);
  }

  // ----- the driver -----

  /** `hdd_hostapd_freq_to_chn` */
  method HostapdFreqToChn(rf: seq<RfChannel>, freq: u16) returns (chn: u16)
    ensures chn == FreqToChn(rf, freq)
  {
    for i := 0 to |rf|
      invariant FreqToChn(rf, freq) == FreqToChn(rf[i..], freq)
    {
      if rf[i].targetFreq == freq {
        return rf[i].channelNum;
      }
      assert rf[i..][1..] == rf[i + 1..];
    }
    return 0;
  }

  /** The duplicate check of `hdd_hostapd_ch_avoid_cb` */
  method IsListed(list: array<u16>, count: nat, channel: u16) returns (found: bool)
    requires count <= list.Length
    ensures found <==> channel in list[..count]
  {
    var dupCheck := 0;
    while dupCheck < count
      invariant dupCheck <= count && channel !in list[..dupCheck]
    {
      if list[dupCheck] == channel {
        break;
      }
      assert list[..dupCheck + 1] == list[..dupCheck] + [list[dupCheck]];
      dupCheck := dupCheck + 1;
    }
    return dupCheck < count;
  }

  /** now is before, with channel as often as it occurs among the first ii of the table. */
  ghost predicate Matched(before: seq<u16>, now: seq<u16>, table: seq<u16>, channel: u16, ii: nat) {
    ii <= |table| && multiset(now) == multiset(before)[channel := multiset(table[..ii])[channel]]
  }

  lemma OneMoreMatch(before: seq<u16>, now: seq<u16>, table: seq<u16>, channel: u16, ii: nat)
    requires ii < |table| && Matched(before, now, table, channel, ii)
    ensures table[ii] == channel ==> Matched(before, now + [channel], table, channel, ii + 1)
    ensures table[ii] != channel ==> Matched(before, now, table, channel, ii + 1)
  {
    assert table[..ii + 1] == table[..ii] + [table[ii]];
  }

  lemma NoneMatchedYet(before: seq<u16>, table: seq<u16>, channel: u16)
    requires channel !in before
    ensures Matched(before, before, table, channel, 0)
  {
  }

  method Put(list: array<u16>, n: nat, channel: u16)
    requires n < list.Length
    modifies list
    ensures list[..n + 1] == old(list[..n]) + [channel]
  {
    list[n] := channel;
  }

  /** The innermost loop of `hdd_hostapd_ch_avoid_cb`, for a channel not listed: it does not stop at the first match. */
  method AddMatches(table: seq<u16>, list: array<u16>, count: nat, channel: u16, ghost spans: seq<Span>) returns (n: nat)
    requires list.Length == |table| && count <= list.Length && Lists(list[..count], table, spans) && channel !in list[..count]
    modifies list
    ensures n <= list.Length && Matched(old(list[..count]), list[..n], table, channel, |table|)
  {
    hide Lists, Matched;
    ghost var before := list[..count];
    NoneMatchedYet(before, table, channel);
    n := count;
    for ii := 0 to |table|
      invariant n <= list.Length && Matched(before, list[..n], table, channel, ii)
    {
      OneMoreMatch(before, list[..n], table, channel, ii);
      if channel == table[ii] {
        RoomForAnother(before, table, spans, list[..n], channel, ii);
        Put(list, n, channel);
        n := n + 1;
      }
    }
  }

  /** One turn of the channel loop of `hdd_hostapd_ch_avoid_cb` */
  method AddChannel(table: seq<u16>, list: array<u16>, count: nat, channel: u16, ghost spans: seq<Span>) returns (n: nat)
    requires list.Length == |table| && count <= list.Length && Lists(list[..count], table, spans)
    modifies list
    ensures n <= list.Length && Lists(list[..n], table, spans + [Span(channel, channel + 1)])
  {
    n := count;
    var found := IsListed(list, count, channel);
    if !found {
      n := AddMatches(table, list, count, channel, spans);
    }
    AddedLists(old(list[..count]), table, spans, list[..n], channel);
  }

  lemma RoomFor(now: seq<u16>, table: seq<u16>, channel: u16)
    requires multiset(now) + multiset{channel} <= multiset(table)
    ensures |now| < |table|
  {
    var rest := multiset(table) - (multiset(now) + multiset{channel});
    assert multiset(table) == multiset(now) + multiset{channel} + rest;
    assert |multiset(table)| == |multiset(now)| + 1 + |rest|;
  }

  lemma RoomForAnother(before: seq<u16>, table: seq<u16>, spans: seq<Span>, now: seq<u16>, channel: u16, ii: nat)
    requires Lists(before, table, spans) && ii < |table| && table[ii] == channel
    requires Matched(before, now, table, channel, ii)
    ensures |now| < |table|
  {
    assert table == table[..ii] + [table[ii]] + table[ii + 1..];
    forall v: u16 ensures (multiset(now) + multiset{channel})[v] <= multiset(table)[v] {
      assert multiset(before)[v] == if In(spans, v) then multiset(table)[v] else 0;
    }
    RoomFor(now, table, channel);
  }

  lemma AddedLists(before: seq<u16>, table: seq<u16>, spans: seq<Span>, after: seq<u16>, channel: u16)
    requires Lists(before, table, spans)
    requires (channel in before && after == before) || Matched(before, after, table, channel, |table|)
    ensures Lists(after, table, spans + [Span(channel, channel + 1)])
  {
    assert table[..|table|] == table;
    forall v: u16 ensures multiset(after)[v] == if In(spans + [Span(channel, channel + 1)], v) then multiset(table)[v] else 0 {
      InOneMore(spans, Span(channel, channel + 1), v);
      if channel in before {
        assert channel in multiset(before);
      }
    }
  }

  lemma SameSpans(list: seq<u16>, table: seq<u16>, a: seq<Span>, b: seq<Span>)
    requires Lists(list, table, a) && forall v :: In(a, v) <==> In(b, v)
    ensures Lists(list, table, b)
  {
  }

  lemma EmptySpan(list: seq<u16>, table: seq<u16>, spans: seq<Span>, from: nat, end: nat)
    requires Lists(list, table, spans) && end <= from
    ensures Lists(list, table, spans + [Span(from, end)])
  {
    forall v ensures In(spans, v) <==> In(spans + [Span(from, end)], v) {
      InOneMore(spans, Span(from, end), v);
    }
    SameSpans(list, table, spans, spans + [Span(from, end)]);
  }

  lemma LongerSpan(list: seq<u16>, table: seq<u16>, spans: seq<Span>, from: nat, to: nat)
    requires Lists(list, table, spans + [Span(from, to)] + [Span(to, to + 1)]) && from <= to
    ensures Lists(list, table, spans + [Span(from, to + 1)])
  {
    var a, b := spans + [Span(from, to)] + [Span(to, to + 1)], spans + [Span(from, to + 1)];
    forall v ensures In(a, v) <==> In(b, v) {
      InOneMore(spans, Span(from, to), v);
      InOneMore(spans + [Span(from, to)], Span(to, to + 1), v);
      InOneMore(spans, Span(from, to + 1), v);
    }
    SameSpans(list, table, a, b);
  }

  /** The channel loop of `hdd_hostapd_ch_avoid_cb` for one range; a start behind the end adds nothing. */
  method AddRange(table: seq<u16>, list: array<u16>, count: nat, start: u16, end: u16, ghost spans: seq<Span>) returns (n: nat)
    requires list.Length == |table| && count <= list.Length && Lists(list[..count], table, spans) && end < 0xffff
    modifies list
    ensures n <= list.Length && Lists(list[..n], table, spans + [Span(start, end + 1)])
  {
    hide Lists;
    n := count;
    var channelLoop: u16 := start;
    EmptySpan(list[..n], table, spans, start, start);
    if end < start {
      EmptySpan(list[..n], table, spans, start, end + 1);
    }
    while channelLoop < end + 1
      invariant start <= channelLoop && (start <= end ==> channelLoop <= end + 1) && n <= list.Length
      invariant Lists(list[..n], table, spans + [Span(start, channelLoop)])
      invariant start > end ==> Lists(list[..n], table, spans + [Span(start, end + 1)])
    {
      n := AddChannel(table, list, n, channelLoop, spans + [Span(start, channelLoop)]);
      LongerSpan(list[..n], table, spans, start, channelLoop);
      channelLoop := channelLoop + 1;
    }
  }

  function FirstIndex(table: seq<u16>, v: u16): (i: nat)
    ensures i <= |table| && (forall k :: 0 <= k < i ==> table[k] != v) && (i < |table| ==> table[i] == v)
  {
    if table == [] || table[0] == v then 0 else 1 + FirstIndex(table[1..], v)
  }

  /** The driver's context, with the table safeChannels. */
  class HddContext {
    const numbers: seq<u16>
    const isSafe: array<bool>
    const unsafeChannelList: array<u16>
    var unsafeChannelCount: nat

    ghost predicate Valid() {
      isSafe.Length == unsafeChannelList.Length == |numbers|
    }

    constructor (numbers: seq<u16>)
      ensures Valid() && this.numbers == numbers && fresh(isSafe) && fresh(unsafeChannelList)
      ensures unsafeChannelCount == 0 && forall j :: 0 <= j < |numbers| ==> isSafe[j]
    {
      this.numbers := numbers;
      isSafe := new bool[|numbers|](_ => true);
      unsafeChannelList := new u16[|numbers|](_ => 0);
      unsafeChannelCount := 0;
    }

    /** The inner loop of `hdd_hostapd_update_unsafe_channel_list`: it stops at the first match. */
    method MarkUnsafe(channel: u16)
      requires Valid()
      modifies isSafe
      ensures forall j :: 0 <= j < |numbers| ==> isSafe[j] == (old(isSafe[j]) && j != FirstIndex(numbers, channel))
    {
      var j := 0;
      while j < |numbers|
        invariant j <= FirstIndex(numbers, channel) && j <= |numbers|
        invariant forall k :: 0 <= k < |numbers| ==> isSafe[k] == old(isSafe[k])
      {
        if numbers[j] == channel {
          isSafe[j] := false;
          break;
        }
        j := j + 1;
      }
    }

    /** `hdd_hostapd_update_unsafe_channel_list` */
    method UpdateUnsafeChannelList(list: seq<u16>, count: u16)
      requires Valid() && Min(count, |numbers|) <= |list|
      modifies this, isSafe, unsafeChannelList
      ensures unsafeChannelCount == Min(count, |numbers|)
      ensures unsafeChannelList[..unsafeChannelCount] == list[..unsafeChannelCount]
      ensures forall k :: unsafeChannelCount <= k < |numbers| ==> unsafeChannelList[k] == 0
      ensures forall j :: 0 <= j < |numbers| ==>
                (isSafe[j] <==> !(numbers[j] in list[..unsafeChannelCount] && j == FirstIndex(numbers, numbers[j])))
    {
      var n := if count > |numbers| then |numbers| else count;
      forall k | 0 <= k < |numbers| {
        unsafeChannelList[k] := if k < n then list[k] else 0;
      }
      unsafeChannelCount := n;
      forall j | 0 <= j < |numbers| {
        isSafe[j] := true;
      }
      for i := 0 to n
        invariant unsafeChannelCount == n
        invariant forall k :: 0 <= k < |numbers| ==> unsafeChannelList[k] == if k < n then list[k] else 0
        invariant forall j :: 0 <= j < |numbers| ==>
                    (isSafe[j] <==> !(numbers[j] in list[..i] && j == FirstIndex(numbers, numbers[j])))
      {
        assert list[..i + 1] == list[..i] + [list[i]];
        MarkUnsafe(unsafeChannelList[i]);
      }
    }

    /**
     `hdd_hostapd_ch_avoid_cb`, up to the update of the local cache.  The range counter is 8 bits wide.  With
     no channel twice in the table, the list is free of duplicates, and unsafe are exactly the channels between
     the ends of some range.
     */
    method ChAvoidCb(rf: seq<RfChannel>, ranges: seq<FreqRange>)
      requires Valid() && |ranges| <= 255 && |numbers| < 0x1_0000 && EndingLoops(rf)
      modifies this, isSafe, unsafeChannelList
      ensures unsafeChannelCount <= |numbers| && Lists(unsafeChannelList[..unsafeChannelCount], numbers, SpansOf(rf, ranges))
      ensures Distinct(numbers) ==>
                && Distinct(unsafeChannelList[..unsafeChannelCount])
                && forall j :: 0 <= j < |numbers| ==> (isSafe[j] <==> !In(SpansOf(rf, ranges), numbers[j]))
    {
      hide Lists, In, Distinct;
      var list := new u16[|numbers|](_ => 0);
      var count: nat := 0;
      NothingListed(numbers);
      assert list[..0] == [] && SpansOf(rf, ranges[..0]) == [];
      for rangeLoop := 0 to |ranges|
        invariant count <= list.Length && Lists(list[..count], numbers, SpansOf(rf, ranges[..rangeLoop]))
      {
        var startChannel := HostapdFreqToChn(rf, ranges[rangeLoop].startFreq);
        var endChannel := HostapdFreqToChn(rf, ranges[rangeLoop].endFreq);
        count := AddRange(numbers, list, count, startChannel, endChannel, SpansOf(rf, ranges[..rangeLoop]));
        assert ranges[..rangeLoop + 1][..rangeLoop] == ranges[..rangeLoop];
      }
      assert ranges[..|ranges|] == ranges;
      UpdateUnsafeChannelList(list[..], count);
      assert list[..][..count] == list[..count];
      if Distinct(numbers) {
        ListsOfDistinct(list[..count], numbers, SpansOf(rf, ranges));
        FirstOfDistinct(numbers);
      }
    }
  }

  lemma NothingListed(table: seq<u16>)
    ensures Lists([], table, [])
  {
  }

  lemma FirstOfDistinct(table: seq<u16>)
    requires Distinct(table)
    ensures forall j :: 0 <= j < |table| ==> j == FirstIndex(table, table[j])
  {
  }
}
