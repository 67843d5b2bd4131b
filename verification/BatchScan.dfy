/**
 The batch-scan response queue of Docs/WiFi/reference/wlan_hdd_main.c: records of access points are
 queued as they come from the firmware and drained as text into whatever buffer user space offers.
 A drain stops at the first record that does not fit and leaves it for the next drain.

 Header constants that are not shown: the record buffer is taken to hold the longest record (162
 characters and the NUL), and sme_ChnToFreq is any function to int.
 */
module BatchScan {
  import opened Numerals
  import opened Words

  const SIR_MAX_SSID_SIZE := 32
  const LONGEST := 162

  type Bssid = b: seq<byte> | |b| == 6 witness [0, 0, 0, 0, 0, 0]

  /** What is known of an access point; ssid is what stands before the first NUL, and the last record of a response is marked. */
  datatype ApRecord = ApRecord(bssid: Bssid, ssid: string, freq: i32, rssi: i32, age: u32, batchId: u32, isLast: bool)

  // ----- the text of one record -----

  const END_OF_SCAN := "####\n"
  const END_OF_RESULT := "----\n"

  function HexDigit(n: nat): char
    requires n < 16
  {
    if n < 10 then '0' + n as char else 'a' + (n - 10) as char
  }

  function Hex(b: byte): (s: string)
    ensures |s| <= 2
  {
    if b < 16 then [HexDigit(b)] else [HexDigit(b / 16), HexDigit(b % 16)]
  }

  function BssidText(b: Bssid): (s: string)
    ensures |s| <= 36
  {
    "bssid=" + Colons(b) + "\n"
  }

  /** 0x%x:0x%x and so on */
  function Colons(b: seq<byte>): (s: string)
    ensures |s| <= 5 * |b| && (b != [] ==> |s| < 5 * |b|)
  {
    if b == [] then [] else if |b| == 1 then "0x" + Hex(b[0]) else "0x" + Hex(b[0]) + ":" + Colons(b[1..])
  }

  function NumberText(name: string, n: i32): (s: string)
    ensures |s| <= |name| + 13
  {
    I32Digits(n);
    name + "=" + SignedDecimal(n) + "\n"
  }

  function SsidText(ssid: string): (s: string)
    ensures |s| == |ssid| + 6
  {
    "ssid=" + ssid + "\n"
  }

  const NAME_FREQ := "freq"
  const NAME_LEVEL := "level"
  const NAME_AGE := "age"
  const NO_DISTANCE := "dist=-1\nerror=-1\n====\n"

  /** One record behind a record of batch prev: the marker of a finished scan, the fields, the end markers. */
  function Text(r: ApRecord, prev: u32): (s: string) {
    (if r.batchId != prev then END_OF_SCAN else []) + Fields(r)
  }

  function Fields(r: ApRecord): string {
    BssidText(r.bssid)
    + (SsidText(r.ssid)
       + (NumberText(NAME_FREQ, r.freq)
          + (NumberText(NAME_LEVEL, r.rssi)
             + (NumberText(NAME_AGE, AsSigned32(r.age)) + (NO_DISTANCE + if r.isLast then END_OF_SCAN + END_OF_RESULT else [])))))
  }

  /** The driver's counters of a record's length are 8 bits wide; they never wrap. */
  lemma TextIsShort(r: ApRecord, prev: u32)
    requires |r.ssid| <= SIR_MAX_SSID_SIZE
    ensures 0 < |Text(r, prev)| <= LONGEST < 256
  {
    assert |NO_DISTANCE| == 22;
    assert |END_OF_SCAN| == 5 && |END_OF_RESULT| == 5;
    assert |NAME_FREQ| == 4 && |NAME_LEVEL| == 5 && |NAME_AGE| == 3;
  }

  // ----- what a sequence of records reads as -----

  function PrevAfter(prev: u32, rs: seq<ApRecord>): u32
    decreases |rs|
  {
    if rs == [] then prev else PrevAfter(Mark(rs[0]), rs[1..])
  }

  function Mark(r: ApRecord): u32 {
    if r.isLast then 0 else r.batchId
  }

  function Texts(prev: u32, rs: seq<ApRecord>): string
    decreases |rs|
  {
    if rs == [] then [] else Text(rs[0], prev) + Texts(Mark(rs[0]), rs[1..])
  }

  lemma {:induction false} TextsConcat(prev: u32, a: seq<ApRecord>, b: seq<ApRecord>)
    ensures Texts(prev, a + b) == Texts(prev, a) + Texts(PrevAfter(prev, a), b)
    ensures PrevAfter(prev, a + b) == PrevAfter(PrevAfter(prev, a), b)
    decreases |a|
  {
    hide Text;
    if a == [] {
      assert a + b == b;
    } else {
      assert (a + b)[1..] == a[1..] + b;
      TextsConcat(Mark(a[0]), a[1..], b);
    }
  }

  predicate Stored(queue: seq<ApRecord>) {
    forall r :: r in queue ==> |r.ssid| <= SIR_MAX_SSID_SIZE
  }

  /** How many records at the head of the queue fit into a buffer with room left: each needs its text and a NUL. */
  function Taken(queue: seq<ApRecord>, prev: u32, left: int): (k: nat)
    ensures k <= |queue|
    decreases |queue|
  {
    if queue == [] || |Text(queue[0], prev)| >= left then 0
    else 1 + Taken(queue[1..], Mark(queue[0]), left - |Text(queue[0], prev)| - 1)
  }

  /** That many fit, their text and a NUL for each, and one more does not. */
  lemma {:induction false} TakenIsMost(queue: seq<ApRecord>, prev: u32, left: nat)
    ensures var k := Taken(queue, prev, left);
            && |Texts(prev, queue[..k])| + k <= left
            && (k < |queue| ==> |Texts(prev, queue[..k + 1])| + k + 1 > left)
    decreases |queue|
  {
    hide Text;
    if queue != [] {
      var n := |Text(queue[0], prev)|;
      TextsFrom(queue, prev, 1);
      assert queue[1..][..0] == [];
      if n < left {
        var k := Taken(queue[1..], Mark(queue[0]), left - n - 1);
        TakenIsMost(queue[1..], Mark(queue[0]), left - n - 1);
        TextsFrom(queue, prev, k + 1);
        if k + 1 < |queue| {
          TextsFrom(queue, prev, k + 2);
        }
      }
    }
  }

  lemma TextsFrom(queue: seq<ApRecord>, prev: u32, k: nat)
    requires 0 < k <= |queue|
    ensures Texts(prev, queue[..k]) == Text(queue[0], prev) + Texts(Mark(queue[0]), queue[1..][..k - 1])
  {
    hide Text;
    assert queue[..k][1..] == queue[1..][..k - 1];
  }

  /** The buffer shows s, from index at on, with or without a NUL behind it. */
  ghost predicate Shows(dest: array<char>, at: nat, s: string)
    reads dest
  {
    at + |s| <= dest.Length && forall k :: 0 <= k < |s| ==> dest[at + k] == s[k]
  }

  /** s and the terminating NUL stand in the buffer from index at on. */
  ghost predicate Holds(dest: array<char>, at: nat, s: string)
    reads dest
  {
    at + |s| < dest.Length && Shows(dest, at, s) && dest[at + |s|] == '\0'
  }

  lemma HoldsShows(dest: array<char>, at: nat, s: string)
    ensures Holds(dest, at, s) ==> Shows(dest, at, s)
    ensures at <= dest.Length ==> Shows(dest, at, [])
  {
  }

  lemma ShowsPrefix(dest: array<char>, at: nat, s: string, t: string)
    requires Shows(dest, at, s + t)
    ensures Shows(dest, at, s)
  {
    forall k | 0 <= k < |s| ensures dest[at + k] == s[k] {
      assert (s + t)[k] == s[k];
    }
  }

  /** strlcpy of s behind the text shown, with room for all of it */
  method CopyBehind(dest: array<char>, ghost start: nat, ghost shown: string, at: nat, s: string)
    requires Shows(dest, start, shown) && at == start + |shown| && at + |s| < dest.Length
    modifies dest
    ensures Holds(dest, start, shown + s)
    ensures forall i :: 0 <= i < dest.Length && !(at <= i <= at + |s|) ==> dest[i] == old(dest[i])
  {
    forall k | 0 <= k < |s| {
      dest[at + k] := s[k];
    }
    dest[at + |s|] := '\0';
    forall k | 0 <= k < |shown + s| ensures dest[start + k] == (shown + s)[k] {
      if k >= |shown| {
        assert dest[at + (k - |shown|)] == s[k - |shown|];
      }
    }
  }

  /** One more record taken from the queue. */
  lemma OneMoreText(queue: seq<ApRecord>, prev: u32, k: nat)
    requires k < |queue|
    ensures Texts(prev, queue[..k + 1]) == Texts(prev, queue[..k]) + Text(queue[k], PrevAfter(prev, queue[..k]))
    ensures PrevAfter(prev, queue[..k + 1]) == Mark(queue[k])
    ensures queue[k..][1..] == queue[k + 1..]
  {
    hide Text;
    assert queue[..k + 1] == queue[..k] + [queue[k]];
    TextsConcat(prev, queue[..k], [queue[k]]);
    assert [queue[k]][1..] == [];
    var now := PrevAfter(prev, queue[..k]);
    assert Texts(now, [queue[k]]) == Text(queue[k], now) + Texts(Mark(queue[k]), []);
  }

  lemma OneMoreTaken(queue: seq<ApRecord>, prev: u32, left: int)
    requires queue != []
    ensures Taken(queue, prev, left) == if |Text(queue[0], prev)| >= left then 0
                                        else 1 + Taken(queue[1..], Mark(queue[0]), left - |Text(queue[0], prev)| - 1)
  {
  }

  lemma NothingTaken(queue: seq<ApRecord>, prev: u32, left: int)
    ensures Texts(prev, queue[..0]) == [] && PrevAfter(prev, queue[..0]) == prev && queue[0..] == queue
    ensures queue == [] ==> Taken(queue, prev, left) == 0
  {
  }

  /**
   After k of the queued records: what is left of the queue and of the room.  A negative room stays as it is
   and takes every record.
   */
  ghost predicate Sofar(queued: seq<ApRecord>, prev0: u32, left0: int, k: nat, text: string, queue: seq<ApRecord>,
                        prev: u32, left: int)
  {
    && k <= |queued| && queue == queued[k..] && prev == PrevAfter(prev0, queued[..k]) && text == Texts(prev0, queued[..k])
    && if left0 < 0 then left == left0
       else left == left0 - |text| - k && left >= 0 && Taken(queued, prev0, left0) == k + Taken(queue, prev, left)
  }

  lemma SofarStart(queued: seq<ApRecord>, prev: u32, left: int)
    ensures Sofar(queued, prev, left, 0, [], queued, prev, left)
  {
    NothingTaken(queued, prev, left);
  }

  lemma SofarStep(queued: seq<ApRecord>, prev0: u32, left0: int, k: nat, text: string, queue: seq<ApRecord>, prev: u32, left: int)
    requires Sofar(queued, prev0, left0, k, text, queue, prev, left) && queue != []
    requires left0 >= 0 ==> |Text(queue[0], prev)| < left
    ensures Sofar(queued, prev0, left0, k + 1, text + Text(queue[0], prev), queue[1..], Mark(queue[0]),
                  if left0 < 0 then left0 else left - |Text(queue[0], prev)| - 1)
  {
    hide Text;
    OneMoreText(queued, prev0, k);
    OneMoreTaken(queue, prev, left);
  }

  /** Where the loop ends: the queue is empty, or its head does not fit. */
  lemma SofarEnd(queued: seq<ApRecord>, prev0: u32, left0: int, k: nat, text: string, queue: seq<ApRecord>, prev: u32, left: int)
    requires Sofar(queued, prev0, left0, k, text, queue, prev, left)
    requires queue == [] || |Text(queue[0], prev)| >= left
    ensures left0 >= 0 ==> k == Taken(queued, prev0, left0) && left == left0 - |text| - k && left >= 0
    ensures k <= |queued| && queue == queued[k..] && prev == PrevAfter(prev0, queued[..k]) && text == Texts(prev0, queued[..k])
  {
    hide Text;
    if queue != [] {
      OneMoreTaken(queue, prev, left);
    }
  }

  const MORE := "%%"

  class Adapter {
    var queue: seq<ApRecord>
    var prevBatchId: u32
    var isTruncated: bool
    ghost var faults: nat    // records for which there was no memory

    constructor ()
      ensures queue == [] && prevBatchId == 0 && faults == 0
    {
      queue, prevBatchId, isTruncated, faults := [], 0, false, 0;
    }

    /**
     `hdd_populate_batch_scan_rsp_queue`.  The length of the ssid is taken in 8 bits before it is checked, so
     a name of 256 characters or more may be accepted cut.
     */
    method Populate(ap: ApRecord) returns (queued: bool)
      requires Stored(queue)
      modifies this`queue, this`faults
      ensures Stored(queue) && old(faults) <= faults
      ensures !queued ==> |ap.ssid| % 256 > 32 || faults > old(faults)
      ensures queue == if queued then old(queue) + [ap.(ssid := ap.ssid[..|ap.ssid| % 256])] else old(queue)
      ensures queued ==> |ap.ssid| % 256 <= SIR_MAX_SSID_SIZE
      ensures queued && |ap.ssid| < 256 ==> queue == old(queue) + [ap]
    {
      var enoughMemory: bool := *;
      if !enoughMemory {
        faults := faults + 1;
        return false;
      }
      var ssidLen := |ap.ssid| % 256;
      if SIR_MAX_SSID_SIZE < ssidLen {
        return false;
      }
      var node := ap.(ssid := ap.ssid[..ssidLen]);
      assert |ap.ssid| < 256 ==> node.ssid == ap.ssid;
      queue := queue + [node];
      return true;
    }

    /**
     `hdd_format_batch_scan_rsp`, which goes on behind the text shown from index start on.  A record that does
     not fit is announced by what snprintf makes of "%%%%", which is two characters.
     */
    method Format(dest: array<char>, at: int, curLen: u32, totLen: u32, r: ApRecord, ghost start: nat, ghost shown: string)
      returns (ret: nat)
      requires |r.ssid| <= SIR_MAX_SSID_SIZE
      requires curLen <= totLen ==>
                 at == start + |shown| && Shows(dest, start, shown) && at + (totLen - curLen) <= dest.Length
      modifies this`isTruncated, dest
      ensures curLen > totLen ==> ret == 0 && isTruncated == old(isTruncated)
      ensures curLen <= totLen ==>
                && (isTruncated <==> |Text(r, prevBatchId)| >= totLen - curLen)
                && (!isTruncated ==> ret == |Text(r, prevBatchId)| + 1 && Holds(dest, start, shown + Text(r, prevBatchId)))
                && (isTruncated && totLen - curLen >= 4 ==> ret == 2 && Holds(dest, start, shown + MORE))
                && (isTruncated && totLen - curLen < 4 ==>
                      ret == 0 && (old(Holds(dest, start, shown)) ==> Holds(dest, start, shown)))
      ensures forall i :: 0 <= i < dest.Length && (i < at || ret == 0 || at + totLen - curLen <= i) ==> dest[i] == old(dest[i])
    {
      hide Text, Holds, Shows;
      if curLen > totLen {
        return 0;
      }
      var remLen := totLen - curLen;
      var temp := Text(r, prevBatchId);
      TextIsShort(r, prevBatchId);
      var tempTotalLen := |temp| % 256;
      if tempTotalLen < remLen {
        ret := tempTotalLen + 1;
        CopyBehind(dest, start, shown, at, temp);
        isTruncated := false;
      } else {
        isTruncated := true;
        if remLen >= 4 {
          CopyBehind(dest, start, shown, at, MORE);
          ret := 2;
        } else {
          ret := 0;
        }
      }
    }

    /**
     `hdd_populate_user_batch_scan_rsp`: the records that fit, in order and each once, and the rest left in
     the queue.  Entered with more bytes used than there is room for, it empties the queue into nothing.
     */
    method PopulateUser(dest: array<char>, at: nat, curLen: u32, remLen: u32) returns (len: nat)
      requires Stored(queue) && at + Max(remLen - curLen, 0) <= dest.Length
      modifies this, dest
      ensures Stored(queue)
      ensures curLen <= remLen ==>
                var k := Taken(old(queue), old(prevBatchId), remLen - curLen);
                var text := Texts(old(prevBatchId), old(queue)[..k]);
                var left := remLen - curLen - |text| - k;
                && queue == old(queue)[k..] && prevBatchId == PrevAfter(old(prevBatchId), old(queue)[..k])
                && (isTruncated <==> queue != [])
                && left >= 0 && len == (if isTruncated then remLen else remLen - left)
                && (isTruncated && left >= 4 ==> Holds(dest, at, text + "%%"))
                && (!(isTruncated && left >= 4) && k > 0 ==> Holds(dest, at, text))
      ensures curLen > remLen ==>
                queue == [] && len == curLen && prevBatchId == PrevAfter(old(prevBatchId), old(queue))
      ensures forall i :: 0 <= i < dest.Length && !(at <= i < at + Max(remLen - curLen, 0)) ==> dest[i] == old(dest[i])
    {
      hide Text, Texts, PrevAfter, Taken, Sofar, Holds, Shows;
      ghost var queued, prev, left0 := queue, prevBatchId, remLen - curLen;
      ghost var k, text, left := 0, [], left0;
      len := curLen;
      isTruncated := false;
      var pDest: int := at;
      SofarStart(queued, prev, left0);
      HoldsShows(dest, at, []);
      while queue != []
        invariant Sofar(queued, prev, left0, k, text, queue, prevBatchId, left) && Stored(queue) && !isTruncated
        invariant left == remLen - len && (left0 >= 0 ==> left >= 0 && pDest == at + |text| && |text| + left <= left0)
        invariant left0 >= 0 ==> Shows(dest, at, text) && (k > 0 ==> Holds(dest, at, text)) && (k == 0 ==> text == [])
        invariant left0 < 0 ==> len == curLen
        invariant forall i :: 0 <= i < dest.Length && !(at <= i < at + Max(left0, 0)) ==> dest[i] == old(dest[i])
        decreases |queue|
      {
        var head := queue[0];
        var n := Format(dest, pDest, len, remLen, head, at, text);
        pDest := pDest + n - 1;
        if isTruncated {
          len := remLen;
          break;
        }
        SofarStep(queued, prev, left0, k, text, queue, prevBatchId, left);
        k, text := k + 1, text + Text(head, prevBatchId);
        left := if left0 < 0 then left0 else left - n;
        len := len + n;
        queue := queue[1..];
        prevBatchId := Mark(head);
        HoldsShows(dest, at, text);
      }
      SofarEnd(queued, prev, left0, k, text, queue, prevBatchId, left);
      assert queue == [] ==> queued[..k] == queued;
    }

    /**
     The first half of `hdd_return_batch_scan_rsp_to_user`, for a command buffer of which used bytes are taken.
     The room it passes on is what is left, but the drain takes the used bytes off once more: with more than half
     of the buffer used, the queue is emptied without a byte being written.
     */
    method ReturnCached(command: array<char>, used: u32) returns (len: Option<nat>)
      requires Stored(queue) && command.Length < 0x1_0000_0000
      modifies this, command
      ensures Stored(queue)
      ensures len.None? <==> command.Length <= used
      ensures len.None? ==> queue == old(queue)
      ensures len.Some? && 2 * used <= command.Length ==>
                var k := Taken(old(queue), old(prevBatchId), command.Length - 2 * used);
                queue == old(queue)[k..] && (k > 0 ==> Shows(command, used, Texts(old(prevBatchId), old(queue)[..k])))
      ensures len.Some? && 2 * used > command.Length ==> queue == [] && command[..] == old(command[..])
    {
      hide Texts, Taken, PrevAfter;
      if command.Length <= used {
        return None;
      }
      var n := PopulateUser(command, used, used, command.Length - used);
      len := Some(n);
      if 2 * used <= command.Length {
        ghost var k := Taken(old(queue), old(prevBatchId), command.Length - 2 * used);
        ghost var text := Texts(old(prevBatchId), old(queue)[..k]);
        if Holds(command, used, text + MORE) {
          ShowsPrefix(command, used, text, MORE);
        }
      }
    }
  }

  // ----- any number of drains -----

  datatype Event = Enqueue(record: ApRecord) | Drain(curLen: u32, remLen: u32)

  /** A record that has left the queue, and whether it was written into a buffer. */
  datatype Gone = Gone(record: ApRecord, written: bool)

  /** The queue with its history: what was put in, what has left it, and the text written. */
  datatype Channel = Channel(queue: seq<ApRecord>, prev: u32, given: seq<ApRecord>, gone: seq<Gone>, text: string)

  function Leaving(rs: seq<ApRecord>, written: bool): (r: seq<Gone>)
    ensures |r| == |rs| && forall i :: 0 <= i < |rs| ==> r[i] == Gone(rs[i], written)
  {
    seq(|rs|, i requires 0 <= i < |rs| => Gone(rs[i], written))
  }

  function Step(c: Channel, e: Event): Channel {
    match e
    case Enqueue(r) => c.(queue := c.queue + [r], given := c.given + [r])
    case Drain(curLen, remLen) =>
      if curLen > remLen then
        c.(queue := [], prev := PrevAfter(c.prev, c.queue), gone := c.gone + Leaving(c.queue, false))
      else
        var k := Taken(c.queue, c.prev, remLen - curLen);
        c.(queue := c.queue[k..], prev := PrevAfter(c.prev, c.queue[..k]), gone := c.gone + Leaving(c.queue[..k], true),
           text := c.text + Texts(c.prev, c.queue[..k]))
  }

  function Run(c: Channel, events: seq<Event>): Channel
    decreases |events|
  {
    if events == [] then c else Run(Step(c, events[0]), events[1..])
  }

  lemma RunNothing(c: Channel)
    ensures Run(c, []) == c
  {
  }

  lemma {:induction false} RunOneMore(c: Channel, events: seq<Event>, e: Event)
    ensures Run(c, events + [e]) == Step(Run(c, events), e)
    decreases |events|
  {
    hide Step;
    if events == [] {
      assert ([] + [e])[1..] == [];
      assert Run(Step(c, e), []) == Step(c, e);
    } else {
      assert (events + [e])[1..] == events[1..] + [e];
      RunOneMore(Step(c, events[0]), events[1..], e);
    }
  }

  function Records(gone: seq<Gone>): (r: seq<ApRecord>)
    ensures |r| == |gone| && forall i :: 0 <= i < |gone| ==> r[i] == gone[i].record
  {
    seq(|gone|, i requires 0 <= i < |gone| => gone[i].record)
  }

  /** The records that left unwritten, in order. */
  function Dropped(gone: seq<Gone>): seq<ApRecord> {
    if gone == [] then []
    else Dropped(gone[..|gone| - 1]) + if gone[|gone| - 1].written then [] else [gone[|gone| - 1].record]
  }

  /** The text of what was written, each record behind the one that left before it, written or not. */
  function TextOf(prev: u32, gone: seq<Gone>): string
    decreases |gone|
  {
    if gone == [] then []
    else (if gone[0].written then Text(gone[0].record, prev) else []) + TextOf(Mark(gone[0].record), gone[1..])
  }

  /** What drains without room take from the queue. */
  function Lost(c: Channel, events: seq<Event>): seq<ApRecord>
    decreases |events|
  {
    if events == [] then []
    else (if events[0].Drain? && events[0].curLen > events[0].remLen then c.queue else []) + Lost(Step(c, events[0]), events[1..])
  }

  /** Every record given is gone or queued, once and in order, and the text is that of the records written. */
  ghost predicate Accounted(c: Channel, prev0: u32) {
    && Records(c.gone) + c.queue == c.given && c.text == TextOf(prev0, c.gone)
    && c.prev == PrevAfter(prev0, Records(c.gone))
  }

  lemma {:induction false} TextOfConcat(prev: u32, a: seq<Gone>, b: seq<Gone>)
    ensures TextOf(prev, a + b) == TextOf(prev, a) + TextOf(PrevAfter(prev, Records(a)), b)
    decreases |a|
  {
    hide Text;
    if a == [] {
      assert a + b == b && Records(a) == [];
    } else {
      assert (a + b)[1..] == a[1..] + b;
      assert Records(a)[1..] == Records(a[1..]) && Records(a)[0] == a[0].record;
      TextOfConcat(Mark(a[0].record), a[1..], b);
    }
  }

  lemma {:induction false} TextOfLeaving(prev: u32, rs: seq<ApRecord>, written: bool)
    ensures TextOf(prev, Leaving(rs, written)) == if written then Texts(prev, rs) else []
    decreases |rs|
  {
    hide Text;
    if rs != [] {
      assert Leaving(rs, written)[1..] == Leaving(rs[1..], written);
      TextOfLeaving(Mark(rs[0]), rs[1..], written);
    }
  }

  lemma {:induction false} DroppedConcat(a: seq<Gone>, b: seq<Gone>)
    ensures Dropped(a + b) == Dropped(a) + Dropped(b)
  {
    if b == [] {
      assert a + b == a;
    } else {
      assert (a + b)[..|a + b| - 1] == a + b[..|b| - 1];
      DroppedConcat(a, b[..|b| - 1]);
    }
  }

  lemma {:induction false} DroppedOfLeaving(rs: seq<ApRecord>, written: bool)
    ensures Dropped(Leaving(rs, written)) == if written then [] else rs
  {
    if rs != [] {
      var n := |rs| - 1;
      assert Leaving(rs, written)[..n] == Leaving(rs[..n], written);
      DroppedOfLeaving(rs[..n], written);
      assert rs[..n] + [rs[n]] == rs;
    }
  }

  /** Some records leave for the head of the rest. */
  lemma MoveIsAccounted(c: Channel, prev0: u32, k: nat, written: bool)
    requires Accounted(c, prev0) && k <= |c.queue|
    ensures Accounted(c.(queue := c.queue[k..], prev := PrevAfter(c.prev, c.queue[..k]),
                         gone := c.gone + Leaving(c.queue[..k], written),
                         text := if written then c.text + Texts(c.prev, c.queue[..k]) else c.text), prev0)
  {
    hide Texts, PrevAfter, TextOf;
    var moved := Leaving(c.queue[..k], written);
    assert Records(c.gone + moved) == Records(c.gone) + c.queue[..k];
    assert Records(c.gone) + c.queue[..k] + c.queue[k..] == c.given;
    TextOfConcat(prev0, c.gone, moved);
    TextOfLeaving(c.prev, c.queue[..k], written);
    TextsConcat(prev0, Records(c.gone), c.queue[..k]);
    if !written {
      assert c.text + [] == c.text;
    }
  }

  lemma EnqueueAccounted(c: Channel, prev0: u32, r: ApRecord)
    requires Accounted(c, prev0)
    ensures Accounted(c.(queue := c.queue + [r], given := c.given + [r]), prev0)
  {
    hide TextOf, PrevAfter;
    assert Records(c.gone) + (c.queue + [r]) == c.given + [r];
  }

  lemma DroppedByMove(gone: seq<Gone>, moved: seq<ApRecord>, written: bool)
    ensures Dropped(gone + Leaving(moved, written)) == Dropped(gone) + if written then [] else moved
  {
    hide Dropped;
    DroppedConcat(gone, Leaving(moved, written));
    DroppedOfLeaving(moved, written);
  }

  lemma StepAccounted(c: Channel, prev0: u32, e: Event)
    requires Accounted(c, prev0)
    ensures Accounted(Step(c, e), prev0)
    ensures Dropped(Step(c, e).gone) == Dropped(c.gone) + if e.Drain? && e.curLen > e.remLen then c.queue else []
  {
    hide Texts, PrevAfter, Taken, TextOf, Dropped, Accounted, Leaving;
    match e
    case Enqueue(r) =>
      EnqueueAccounted(c, prev0, r);
      assert Dropped(c.gone) + [] == Dropped(c.gone);
    case Drain(curLen, remLen) =>
      if curLen > remLen {
        MoveIsAccounted(c, prev0, |c.queue|, false);
        assert c.queue[..|c.queue|] == c.queue && c.queue[|c.queue|..] == [];
        DroppedByMove(c.gone, c.queue, false);
      } else {
        var k := Taken(c.queue, c.prev, remLen - curLen);
        MoveIsAccounted(c, prev0, k, true);
        DroppedByMove(c.gone, c.queue[..k], true);
      }
  }

  /**
   Over any sequence of arrivals and drains: what has left the queue, followed by what is in it, is what was
   given, and the text is that of one walk over what was written.  The records that left without being written are
   exactly those in the queue when a drain was entered without room.
   */
  lemma {:induction false} DrainsAccountForAll(c: Channel, prev0: u32, events: seq<Event>)
    requires Accounted(c, prev0)
    ensures Accounted(Run(c, events), prev0)
    ensures Dropped(Run(c, events).gone) == Dropped(c.gone) + Lost(c, events)
    decreases |events|
  {
    hide Accounted, Step, Dropped;
    if events != [] {
      StepAccounted(c, prev0, events[0]);
      DrainsAccountForAll(Step(c, events[0]), prev0, events[1..]);
    }
  }

  /** Without such a drain the text is that of one uninterrupted listing, however the drains cut it. */
  lemma DrainsConserve(prev0: u32, events: seq<Event>)
    requires Lost(Channel([], prev0, [], [], []), events) == []
    ensures var r := Run(Channel([], prev0, [], [], []), events);
            && Records(r.gone) + r.queue == r.given && (forall g :: g in r.gone ==> g.written)
            && r.text == Texts(prev0, Records(r.gone))
  {
    hide Run, Lost, Texts, PrevAfter;
    var c := Channel([], prev0, [], [], []);
    assert Records([]) == [] && PrevAfter(prev0, []) == prev0 by {
      NothingTaken([], prev0, 0);
    }
    DrainsAccountForAll(c, prev0, events);
    var r := Run(c, events);
    NoneDropped(r.gone);
    assert r.gone == Leaving(Records(r.gone), true);
    TextOfLeaving(prev0, Records(r.gone), true);
  }

  lemma {:induction false} NoneDropped(gone: seq<Gone>)
    requires Dropped(gone) == []
    ensures forall g :: g in gone ==> g.written
  {
    if gone != [] {
      var n := |gone| - 1;
      assert gone[n].written;
      NoneDropped(gone[..n]);
      assert gone == gone[..n] + [gone[n]];
    }
  }

  /** What one drain writes of a queue. */
  function Piece(queue: seq<ApRecord>, prev: u32, curLen: u32, remLen: u32): string {
    if curLen > remLen then [] else Texts(prev, queue[..Taken(queue, prev, remLen - curLen)])
  }

  function Joined(pieces: seq<string>): string {
    if pieces == [] then [] else Joined(pieces[..|pieces| - 1]) + pieces[|pieces| - 1]
  }

  /** A buffer begins with the piece, which ends there or in front of the sign for more. */
  predicate BeginsWith(buffer: seq<char>, piece: string) {
    piece + ['\0'] <= buffer || piece + MORE + ['\0'] <= buffer
  }

  lemma PieceOfStep(c: Channel, curLen: u32, remLen: u32)
    ensures Step(c, Drain(curLen, remLen)).text == c.text + Piece(c.queue, c.prev, curLen, remLen)
  {
    hide Texts, Taken, PrevAfter;
    assert c.text + [] == c.text;
  }

  lemma HeldBegins(dest: array<char>, piece: string)
    requires Holds(dest, 0, piece) || Holds(dest, 0, piece + MORE)
    ensures BeginsWith(dest[..], piece)
  {
    var s := if Holds(dest, 0, piece) then piece else piece + MORE;
    assert dest[..][..|s|] == s;
  }

  /** One drain into a buffer of its own, as large as the room it is told of. */
  method DrainInto(adapter: Adapter, curLen: u32, remLen: u32) returns (buffer: array<char>, ghost piece: string)
    requires Stored(adapter.queue)
    modifies adapter
    ensures Stored(adapter.queue) && fresh(buffer) && piece == Piece(old(adapter.queue), old(adapter.prevBatchId), curLen, remLen)
    ensures forall c: Channel :: c.queue == old(adapter.queue) && c.prev == old(adapter.prevBatchId) ==>
              var s := Step(c, Drain(curLen, remLen)); adapter.queue == s.queue && adapter.prevBatchId == s.prev
    ensures piece != [] ==> BeginsWith(buffer[..], piece)
  {
    hide Taken, Texts, PrevAfter, Stored, Holds, BeginsWith;
    ghost var queue, prev := adapter.queue, adapter.prevBatchId;
    buffer := new char[Max(remLen - curLen, 0)](_ => ' ');
    var len := adapter.PopulateUser(buffer, 0, curLen, remLen);
    piece := Piece(queue, prev, curLen, remLen);
    if piece != [] {
      SomethingTaken(queue, prev, curLen, remLen);
      HeldBegins(buffer, piece);
    }
  }

  lemma SomethingTaken(queue: seq<ApRecord>, prev: u32, curLen: u32, remLen: u32)
    requires Piece(queue, prev, curLen, remLen) != []
    ensures Taken(queue, prev, remLen - curLen) > 0
  {
  }

  /**
   The driver's own methods, called for any sequence of arrivals and drains, do what the steps say; an arrival
   that is turned away is left out.  The text of the run is what the buffers of its drains begin with, one behind the other.
   */
  method Serve(adapter: Adapter, events: seq<Event>)
    returns (ghost done: seq<Event>, ghost buffers: seq<seq<char>>, ghost pieces: seq<string>)
    requires Stored(adapter.queue)
    modifies adapter
    ensures var r := Run(Channel(old(adapter.queue), old(adapter.prevBatchId), old(adapter.queue), [], []), done);
            adapter.queue == r.queue && adapter.prevBatchId == r.prev && r.text == Joined(pieces)
    ensures |pieces| == |buffers| && forall i :: 0 <= i < |pieces| && pieces[i] != [] ==> BeginsWith(buffers[i], pieces[i])
    ensures Stored(adapter.queue) && |done| <= |events|
  {
    hide Taken, Texts, PrevAfter, Stored, Run, BeginsWith, Step, Piece;
    ghost var start := Channel(adapter.queue, adapter.prevBatchId, adapter.queue, [], []);
    done, buffers, pieces := [], [], [];
    RunNothing(start);
    for i := 0 to |events|
      invariant Stored(adapter.queue) && |done| <= i
      invariant var r := Run(start, done); adapter.queue == r.queue && adapter.prevBatchId == r.prev && r.text == Joined(pieces)
      invariant |pieces| == |buffers| && forall j :: 0 <= j < |pieces| && pieces[j] != [] ==> BeginsWith(buffers[j], pieces[j])
    {
      ghost var now := Run(start, done);
      match events[i] {
        case Enqueue(ap) =>
          var queued := adapter.Populate(ap);
          if queued {
            ghost var e := Enqueue(ap.(ssid := ap.ssid[..|ap.ssid| % 256]));
            RunOneMore(start, done, e);
            EnqueueStep(now, e.record);
            done := done + [e];
          }
        case Drain(curLen, remLen) =>
          var buffer, piece := DrainInto(adapter, curLen, remLen);
          RunOneMore(start, done, events[i]);
          PieceOfStep(now, curLen, remLen);
          OneMoreJoined(pieces, piece);
          done, buffers, pieces := done + [events[i]], buffers + [buffer[..]], pieces + [piece];
      }
    }
  }

  lemma EnqueueStep(c: Channel, r: ApRecord)
    ensures var s := Step(c, Enqueue(r)); s.queue == c.queue + [r] && s.prev == c.prev && s.text == c.text
  {
  }

  lemma OneMoreJoined(pieces: seq<string>, piece: string)
    ensures Joined(pieces + [piece]) == Joined(pieces) + piece
  {
    assert (pieces + [piece])[..|pieces|] == pieces;
  }

  /** A buffer with room for the longest record always takes one. */
  lemma RoomForOne(queue: seq<ApRecord>, prev: u32, left: int)
    requires Stored(queue) && queue != [] && left > LONGEST
    ensures Taken(queue, prev, left) > 0
  {
    TextIsShort(queue[0], prev);
  }
}
