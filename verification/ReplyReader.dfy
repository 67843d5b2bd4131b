/**
 `read_reply` (packages/diag-logtool/src/diag_logtool.c): a reply is picked out of a byte stream
 that arrives in arbitrary pieces.

 Time enters through the reads: each element of the event list is what one read reports, and the
 time budget is spent when the list is.
 */
module ReplyReader {
  import opened Words
  import opened HdlcFraming

  const ACC_SIZE := 0x10_0000
  const KEEP := 4096

  datatype ReadEvent = Data(bytes: seq<byte>) | Quiet | Failure

  datatype Outcome = Reply(message: seq<byte>) | TimedOut | Failed

  // ----- what a scan of the accumulated bytes finds -----

  predicate Matches(code: byte, b: byte) {
    if code == 0 then b != 0x10 && b != 0x11 && b != 0x79 && b != 0x92 else b == code
  }

  /** Index of the first message start with a matching code; atStart says whether s itself begins a message. */
  function FirstStart(s: seq<byte>, code: byte, atStart: bool): (i: nat)
    ensures i <= |s|
    ensures i < |s| ==> Matches(code, s[i]) && if i == 0 then atStart else s[i - 1] == FLAG
  {
    if s == [] then 0
    else if atStart && Matches(code, s[0]) then 0
    else 1 + FirstStart(s[1..], code, s[0] == FLAG)
  }

  /** The message from the first matching start through its delimiter, if both are there. */
  function Scan(s: seq<byte>, code: byte): Option<seq<byte>> {
    var i := FirstStart(s, code, true);
    if i == |s| then None
    else
      var rest := s[i + 1..];
      var j := FlagIndex(rest);
      if j == |rest| then None else Some([s[i]] + rest[..j + 1])
  }

  // ----- what the reads add -----

  /** The buffer when a read is due: all of it, or its tail when less than one read's room is left. */
  function Trimmed(acc: seq<byte>): seq<byte> {
    if |acc| > ACC_SIZE - BUFSZ then acc[Max(0, |acc| - KEEP)..] else acc
  }

  function Grow(acc: seq<byte>, bytes: seq<byte>): seq<byte> {
    Trimmed(acc) + bytes[..Min(|bytes|, Max(0, ACC_SIZE - |Trimmed(acc)|))]
  }

  /** The answer as a function of what the reads deliver. */
  function Answer(code: byte, acc: seq<byte>, events: seq<ReadEvent>): Outcome
    decreases |events|
  {
    var found := Scan(acc, code);
    if found.Some? then Reply(found.value)
    else if events == [] then TimedOut
    else match events[0]
      case Failure => Failed
      case Quiet => Answer(code, Trimmed(acc), events[1..])
      case Data(bytes) => Answer(code, Grow(acc, bytes), events[1..])
  }

  // ----- the program -----

  /** `read_reply`: the number of bytes put into out, 0 when the time is up, -1 when a read failed. */
  method ReadReply(code: byte, out: array<byte>, outsz: nat, events: seq<ReadEvent>) returns (r: int)
    requires outsz <= out.Length
    modifies out
    ensures match Answer(code, [], events)
            case Failed => r == -1
            case TimedOut => r == 0
            case Reply(message) => r == Min(|message|, outsz) && out[..r] == message[..r]
    ensures forall k :: Max(r, 0) <= k < out.Length ==> out[k] == old(out[k])
  {
    hide Answer, Scan, Trimmed, Grow;
    var acc := new byte[ACC_SIZE];
    var acclen, pending := 0, events;
    assert acc[..acclen] == [];
    while true
      invariant 0 <= acclen <= acc.Length == ACC_SIZE && fresh(acc)
      invariant Answer(code, acc[..acclen], pending) == Answer(code, [], events)
      invariant forall k :: 0 <= k < out.Length ==> out[k] == old(out[k])
      decreases |pending|
    {
      AnswerStep(code, acc[..acclen], pending);
      var start, end := FindReply(code, acc, acclen);
      if end > 0 {
        r := CopyOut(acc, start, end, out, outsz);
        return;
      }
      if pending == [] {
        return 0;
      }
      var event := pending[0];
      acclen := MakeRoom(acc, acclen);
      pending := pending[1..];
      match event {
        case Failure => return -1;
        case Quiet =>
        case Data(bytes) => acclen := Append(acc, acclen, bytes);
      }
    }
  }

  lemma AnswerStep(code: byte, acc: seq<byte>, events: seq<ReadEvent>)
    ensures Scan(acc, code).Some? ==> Answer(code, acc, events) == Reply(Scan(acc, code).value)
    ensures Scan(acc, code).None? ==>
              Answer(code, acc, events) ==
                if events == [] then TimedOut
                else match events[0]
                     case Failure => Failed
                     case Quiet => Answer(code, Trimmed(acc), events[1..])
                     case Data(bytes) => Answer(code, Grow(acc, bytes), events[1..])
    ensures events != [] && events[0].Data? ==>
              Grow(acc, events[0].bytes)
              == Trimmed(acc) + events[0].bytes[..Min(|events[0].bytes|, Max(0, ACC_SIZE - |Trimmed(acc)|))]
  {
  }

  /** A whole message: it begins with a wanted octet and ends with the only delimiter behind that. */
  predicate IsMessage(m: seq<byte>, code: byte) {
    |m| >= 2 && Wanted(code, m[0]) && m[|m| - 1] == 0x7e && 0x7e !in m[1..|m| - 1]
  }

  lemma ScanIsMessage(s: seq<byte>, code: byte)
    ensures Scan(s, code).Some? ==> IsMessage(Scan(s, code).value, code)
  {
    var i := FirstStart(s, code, true);
    if i < |s| {
      MatchesIsWanted(code, s[i]);
      var rest := s[i + 1..];
      var j := FlagIndex(rest);
      if j < |rest| {
        var m := [s[i]] + rest[..j + 1];
        assert m[1..|m| - 1] == rest[..j];
      }
    }
  }

  /** What an answer means: a whole message, or a failed read among the reads, or none of that and the time is up. */
  lemma {:induction false} AnswerMeans(code: byte, acc: seq<byte>, events: seq<ReadEvent>)
    ensures match Answer(code, acc, events)
            case Reply(m) => IsMessage(m, code)
            case Failed => Failure in events
            case TimedOut => Failure !in events
    decreases |events|
  {
    hide Scan, Trimmed, Grow;
    ScanIsMessage(acc, code);
    if Scan(acc, code).None? && events != [] {
      assert events == [events[0]] + events[1..];
      match events[0]
      case Failure =>
      case Quiet => AnswerMeans(code, Trimmed(acc), events[1..]);
      case Data(bytes) => AnswerMeans(code, Grow(acc, bytes), events[1..]);
    }
  }

  /** The two scanning loops; end is 0 when nothing complete was found. */
  method FindReply(code: byte, acc: array<byte>, acclen: nat) returns (start: nat, end: nat)
    requires acclen <= acc.Length
    ensures var found := Scan(acc[..acclen], code);
            if found.None? then end == 0 else start < end <= acclen && acc[start..end] == found.value
  {
    hide Scan;
    ghost var held := acc[..acclen];
    var i := FindStart(code, acc, acclen);
    if i == acclen {
      ScanMeans(held, code, i, acclen);
      return 0, 0;
    }
    var j := FindDelimiter(acc, i + 1, acclen);
    assert acc[i + 1..acclen] == held[i + 1..];
    ScanMeans(held, code, i, j);
    if j == acclen {
      return 0, 0;
    }
    MiddleOfPart(acc[..], acclen, i, j + 1);
    assert acc[..][..acclen] == held && acc[..][i..j + 1] == acc[i..j + 1];
    return i, j + 1;
  }

  lemma MiddleOfPart(s: seq<byte>, n: nat, i: nat, j: nat)
    requires i <= j <= n <= |s|
    ensures s[..n][i..j] == s[i..j]
  {
    assert s[..n][..j] == s[..j];
  }

  /** What the two loops find, in the words of the reference. */
  lemma ScanMeans(held: seq<byte>, code: byte, i: nat, j: nat)
    requires i <= |held| && i == FirstStart(held, code, true)
    requires i < |held| ==> j == i + 1 + FlagIndex(held[i + 1..])
    ensures i == |held| ==> Scan(held, code) == None
    ensures i < |held| && j == |held| ==> Scan(held, code) == None
    ensures i < j < |held| ==> Scan(held, code) == Some(held[i..j + 1])
  {
    hide FirstStart, FlagIndex;
    if i < j < |held| {
      assert held[i..j + 1] == [held[i]] + held[i + 1..][..j - i];
    }
  }

  /** The outer loop: the first matching message start, or acclen. */
  method FindStart(code: byte, acc: array<byte>, acclen: nat) returns (i: nat)
    requires acclen <= acc.Length
    ensures i == FirstStart(acc[..acclen], code, true)
  {
    ghost var held := acc[..acclen];
    i := 0;
    assert held[0..] == held;
    while i < acclen && !(Matches(code, acc[i]) && (i == 0 || acc[i - 1] == FLAG))
      invariant i <= acclen
      invariant FirstStart(held, code, true) == i + FirstStart(held[i..], code, i == 0 || held[i - 1] == FLAG)
    {
      NextStart(held, code, i, i == 0 || held[i - 1] == FLAG);
      i := i + 1;
    }
    StartHere(held, code, i);
  }

  lemma NextStart(held: seq<byte>, code: byte, i: nat, atStart: bool)
    requires i < |held| && !(atStart && Matches(code, held[i]))
    ensures FirstStart(held[i..], code, atStart) == 1 + FirstStart(held[i + 1..], code, held[i] == FLAG)
  {
    assert held[i..][1..] == held[i + 1..];
  }

  lemma StartHere(held: seq<byte>, code: byte, i: nat)
    requires i <= |held| && (i < |held| ==> Matches(code, held[i]))
    ensures FirstStart(held[i..], code, true) == 0
  {
  }

  /** The inner loop: the next delimiter, or acclen. */
  method FindDelimiter(acc: array<byte>, from: nat, acclen: nat) returns (j: nat)
    requires from <= acclen <= acc.Length
    ensures from <= j <= acclen && j == from + FlagIndex(acc[from..acclen])
  {
    j := from;
    while j < acclen && acc[j] != FLAG
      invariant from <= j <= acclen
      invariant FlagIndex(acc[from..acclen]) == j - from + FlagIndex(acc[j..acclen])
    {
      assert acc[j..acclen][1..] == acc[j + 1..acclen];
      j := j + 1;
    }
  }

  method CopyOut(acc: array<byte>, start: nat, end: nat, out: array<byte>, outsz: nat) returns (len: nat)
    requires start < end <= acc.Length && outsz <= out.Length && acc != out
    modifies out
    ensures len == Min(end - start, outsz) && out[..len] == acc[start..end][..len]
    ensures forall k :: len <= k < out.Length ==> out[k] == old(out[k])
  {
    len := end - start;
    if len > outsz {
      len := outsz;
    }
    forall k | 0 <= k < len {
      out[k] := acc[start + k];
    }
    forall k | 0 <= k < len ensures out[..len][k] == acc[start..end][..len][k] {
      assert acc[start..end][k] == acc[start + k];
    }
  }

  /** The move to the front that keeps a tail when the buffer is nearly full. */
  method MakeRoom(acc: array<byte>, acclen: nat) returns (kept: nat)
    requires acclen <= acc.Length == ACC_SIZE
    modifies acc
    ensures kept <= acc.Length && acc[..kept] == Trimmed(old(acc[..acclen]))
  {
    kept := acclen;
    if acclen > ACC_SIZE - BUFSZ {
      kept := KEEP;
      forall k | 0 <= k < KEEP {
        acc[k] := acc[acclen - KEEP + k];
      }
    }
  }

  method Append(acc: array<byte>, acclen: nat, bytes: seq<byte>) returns (len: nat)
    requires acclen <= acc.Length
    modifies acc
    ensures len == acclen + Min(|bytes|, acc.Length - acclen)
    ensures acc[..len] == old(acc[..acclen]) + bytes[..len - acclen]
  {
    var n := Min(|bytes|, acc.Length - acclen);
    forall k | 0 <= k < n {
      acc[acclen + k] := bytes[k];
    }
    len := acclen + n;
  }

  // ----- independence of the pieces -----

  /** What the reads deliver up to the first failing one. */
  function Delivered(events: seq<ReadEvent>): seq<byte> {
    if events == [] || events[0].Failure? then []
    else (if events[0].Data? then events[0].bytes else []) + Delivered(events[1..])
  }

  predicate Fails(events: seq<ReadEvent>) {
    exists k :: 0 <= k < |events| && events[k].Failure?
  }

  lemma {:induction false} FirstStartExtends(s: seq<byte>, more: seq<byte>, code: byte, atStart: bool)
    requires FirstStart(s, code, atStart) < |s|
    ensures FirstStart(s + more, code, atStart) == FirstStart(s, code, atStart)
    decreases |s|
  {
    if !(atStart && Matches(code, s[0])) {
      assert (s + more)[1..] == s[1..] + more;
      FirstStartExtends(s[1..], more, code, s[0] == FLAG);
    }
  }

  /** A reply once complete stays the reply, whatever arrives behind it. */
  lemma ScanExtends(s: seq<byte>, more: seq<byte>, code: byte)
    requires Scan(s, code).Some?
    ensures Scan(s + more, code) == Scan(s, code)
  {
    hide FirstStart, FlagIndex, Matches;
    FirstStartExtends(s, more, code, true);
    var i := FirstStart(s, code, true);
    var rest := s[i + 1..];
    var j := FlagIndex(rest);
    assert (s + more)[i + 1..] == rest + more;
    assert (rest + more)[..j] == rest[..j];
    FlagIndexAt(rest + more, j);
    assert (rest + more)[..j + 1] == rest[..j + 1];
  }

  /**
   The answer depends on the delivered bytes only, not on how the reads cut them, as long as they
   stay below the size at which the buffer is trimmed.
   */
  lemma {:induction false} AnswerIgnoresPieces(code: byte, acc: seq<byte>, events: seq<ReadEvent>)
    requires |acc + Delivered(events)| <= ACC_SIZE - BUFSZ
    ensures Answer(code, acc, events) ==
              match Scan(acc + Delivered(events), code)
              case Some(message) => Reply(message)
              case None => if Fails(events) then Failed else TimedOut
    decreases |events|
  {
    if Scan(acc, code).Some? {
      ScanExtends(acc, Delivered(events), code);
    } else if events == [] || events[0].Failure? {
      assert acc + [] == acc;
    } else {
      var next := if events[0].Data? then Grow(acc, events[0].bytes) else acc;
      assert next + Delivered(events[1..]) == acc + Delivered(events);
      AnswerIgnoresPieces(code, next, events[1..]);
      FailsTail(events);
    }
  }

  lemma FailsTail(events: seq<ReadEvent>)
    requires events != [] && !events[0].Failure?
    ensures Fails(events) == Fails(events[1..])
  {
    if Fails(events) {
      var k :| 0 <= k < |events| && events[k].Failure?;
      assert events[1..][k - 1].Failure?;
    }
    if Fails(events[1..]) {
      var k :| 0 <= k < |events[1..]| && events[1..][k].Failure?;
      assert events[k + 1].Failure?;
    }
  }

  /** Inside a message, away from its first byte, nothing starts. */
  lemma {:induction false} NoStart(s: seq<byte>, code: byte)
    requires FLAG !in s
    ensures FirstStart(s, code, false) == |s|
    decreases |s|
  {
    if s != [] {
      NoStart(s[1..], code);
    }
  }

  lemma {:induction false} SkipTail(s: seq<byte>, rest: seq<byte>, code: byte)
    requires FLAG !in s
    ensures FirstStart(s + [FLAG] + rest, code, false) == |s| + 1 + FirstStart(rest, code, true)
    decreases |s|
  {
    var all := s + [FLAG] + rest;
    if s == [] {
      assert all[1..] == rest;
    } else {
      assert all[1..] == s[1..] + [FLAG] + rest;
      SkipTail(s[1..], rest, code);
    }
  }

  /** A message whose first byte does not match is passed over whole. */
  lemma SkipBody(body: seq<byte>, rest: seq<byte>, code: byte)
    requires body != [] && FLAG !in body && !Matches(code, body[0])
    ensures Scan(body + [FLAG] + rest, code) == Scan(rest, code)
  {
    SkipBodyStart(body, rest, code);
    ScanBehind(body + [FLAG], rest, code);
  }

  lemma ScanBehind(before: seq<byte>, rest: seq<byte>, code: byte)
    requires FirstStart(before + rest, code, true) == |before| + FirstStart(rest, code, true)
    ensures Scan(before + rest, code) == Scan(rest, code)
  {
    var i := FirstStart(rest, code, true);
    if i < |rest| {
      assert (before + rest)[|before| + i + 1..] == rest[i + 1..];
    }
  }

  lemma SkipBodyStart(body: seq<byte>, rest: seq<byte>, code: byte)
    requires body != [] && FLAG !in body && !Matches(code, body[0])
    ensures FirstStart(body + [FLAG] + rest, code, true) == |body| + 1 + FirstStart(rest, code, true)
  {
    assert (body + [FLAG] + rest)[1..] == body[1..] + [FLAG] + rest;
    SkipTail(body[1..], rest, code);
  }

  lemma TakeBody(body: seq<byte>, rest: seq<byte>, code: byte)
    requires body != [] && FLAG !in body && Matches(code, body[0])
    ensures Scan(body + [FLAG] + rest, code) == Some(body + [FLAG])
  {
    var all := body + [FLAG] + rest;
    assert all[1..] == body[1..] + [FLAG] + rest;
    assert all[1..][|body| - 1] == FLAG && all[1..][..|body| - 1] == body[1..];
    FlagIndexAt(all[1..], |body| - 1);
    assert [all[0]] + all[1..][..|body|] == body + [FLAG];
  }

  // ----- streams of frames -----

  /** A reply begins with its code; code 0 stands for anything but log, message and event traffic. */
  predicate Wanted(code: byte, first: byte) {
    (code == 0 && first !in {0x10, 0x11, 0x79, 0x92}) || (code != 0 && first == code)
  }

  lemma MatchesIsWanted(code: byte, b: byte)
    ensures Matches(code, b) <==> Wanted(code, b)
  {
  }

  /** The first frame whose first byte matches, with the length of the stream through its end. */
  function FirstFrame(payloads: seq<seq<byte>>, code: byte): Option<(seq<byte>, nat)> {
    if payloads == [] then None
    else
      var frame := Frame(payloads[0], false);
      if Wanted(code, frame[0]) then Some((frame, |frame|))
      else
        var later := FirstFrame(payloads[1..], code);
        if later.Some? then Some((later.value.0, |frame| + later.value.1)) else None
  }

  /**
   For any payloads, framed without leading flags and sent back to back, and for any part of that
   stream that has arrived, a scan finds the first frame with a matching first byte, and finds it
   exactly when that frame has arrived whole.
   */
  lemma {:induction false} ScanFindsFirstFrame(payloads: seq<seq<byte>>, code: byte, k: nat)
    requires k <= |Transmit(payloads, false)|
    ensures Scan(Transmit(payloads, false)[..k], code) ==
              var first := FirstFrame(payloads, code);
              if first.Some? && first.value.1 <= k then Some(first.value.0) else None
    decreases |payloads|
  {
    if payloads == [] {
      assert Transmit(payloads, false)[..k] == [];
    } else {
      var frame, rest := Frame(payloads[0], false), Transmit(payloads[1..], false);
      var body := frame[..|frame| - 1];
      FrameShape(payloads[0]);
      MatchesIsWanted(code, frame[0]);
      ScanOneFrame(body, rest, code, k);
      if |frame| <= k {
        ScanFindsFirstFrame(payloads[1..], code, k - |frame|);
      }
    }
  }

  lemma ScanOneFrame(body: seq<byte>, rest: seq<byte>, code: byte, k: nat)
    requires body != [] && FLAG !in body && k <= |body| + 1 + |rest|
    ensures Scan((body + [FLAG] + rest)[..k], code) ==
              if k <= |body| then None
              else if Matches(code, body[0]) then Some(body + [FLAG])
              else Scan(rest[..k - |body| - 1], code)
  {
    if k <= |body| {
      assert (body + [FLAG] + rest)[..k] == body[..k];
      PartOfBody(body[..k], code);
    } else {
      var part := rest[..k - |body| - 1];
      assert (body + [FLAG] + rest)[..k] == body + [FLAG] + part;
      if Matches(code, body[0]) {
        TakeBody(body, part, code);
      } else {
        SkipBody(body, part, code);
      }
    }
  }

  lemma PartOfBody(s: seq<byte>, code: byte)
    requires FLAG !in s
    ensures Scan(s, code) == None
  {
    if s != [] {
      NoStart(s[1..], code);
      assert FlagIndex(s[1..]) == |s[1..]|;
    }
  }

  /** `read_reply` on a stream of frames: the first frame with the wanted first byte, or the time runs out. */
  lemma ReplyIsFirstFrame(payloads: seq<seq<byte>>, code: byte, events: seq<ReadEvent>)
    requires Delivered(events) <= Transmit(payloads, false) && !Fails(events)
    requires |Delivered(events)| <= ACC_SIZE - BUFSZ
    ensures var first := FirstFrame(payloads, code);
            Answer(code, [], events) ==
              if first.Some? && first.value.1 <= |Delivered(events)| then Reply(first.value.0) else TimedOut
  {
    var got := Delivered(events);
    assert [] + got == got && Transmit(payloads, false)[..|got|] == got;
    AnswerIgnoresPieces(code, [], events);
    ScanFindsFirstFrame(payloads, code, |got|);
  }

  // ----- past the size at which the buffer is trimmed -----

  const THRESHOLD := ACC_SIZE - BUFSZ

  /** What `read_reply` promises of a stream of frames. */
  ghost predicate FindsFirstFrame(payloads: seq<seq<byte>>, code: byte, events: seq<ReadEvent>) {
    var first := FirstFrame(payloads, code);
    Answer(code, [], events) ==
      if first.Some? && first.value.1 <= |Delivered(events)| then Reply(first.value.0) else TimedOut
  }

  ghost predicate IsStream(payloads: seq<seq<byte>>, events: seq<ReadEvent>, n: nat) {
    Delivered(events) <= Transmit(payloads, false) && !Fails(events) && |Delivered(events)| == n
  }

  /** The promise is kept for all streams of n bytes, however they are cut, exactly up to the threshold. */
  lemma PromiseHoldsUpToThreshold(n: nat)
    ensures (forall payloads, code, events :: IsStream(payloads, events, n) ==> FindsFirstFrame(payloads, code, events))
       <==> n <= THRESHOLD
  {
    if n <= THRESHOLD {
      forall payloads, code, events | IsStream(payloads, events, n) ensures FindsFirstFrame(payloads, code, events) {
        ReplyIsFirstFrame(payloads, code, events);
      }
    } else {
      var payloads, events := TrimmingForgesReply(n);
      assert IsStream(payloads, events, n) && !FindsFirstFrame(payloads, 1, events);
    }
  }

  /** A payload hdlc_frame can frame, whose first byte is not 1 but all others are. */
  function Decoy(): (p: seq<byte>)
    ensures |p| == 4006 <= BUFSZ - 3 && p[0] == 2 && forall i :: 1 <= i < |p| ==> p[i] == 1
  {
    [2] + seq(4005, _ => 1)
  }

  function Copies(p: seq<byte>, k: nat): (r: seq<seq<byte>>)
    ensures |r| == k && forall i :: 0 <= i < k ==> r[i] == p
  {
    seq(k, _ => p)
  }

  lemma {:induction false} TransmitCopies(p: seq<byte>, k: nat, more: nat)
    ensures Transmit(Copies(p, k + more), false) == Transmit(Copies(p, k), false) + Transmit(Copies(p, more), false)
  {
    hide Frame;
    if k == 0 {
      assert Copies(p, 0 + more) == Copies(p, more);
    } else {
      hide Transmit, Copies;
      CopiesTail(p, k);
      CopiesTail(p, k + more);
      TransmitCopies(p, k - 1, more);
      Associative(Frame(p, false), Transmit(Copies(p, k - 1), false), Transmit(Copies(p, more), false));
    }
  }

  lemma Associative(a: seq<byte>, b: seq<byte>, c: seq<byte>)
    ensures a + (b + c) == (a + b) + c
  {
  }

  lemma CopiesTail(p: seq<byte>, k: nat)
    requires k > 0
    ensures Copies(p, k)[1..] == Copies(p, k - 1)
    ensures Transmit(Copies(p, k), false) == Frame(p, false) + Transmit(Copies(p, k - 1), false)
  {
    hide Frame;
    assert Copies(p, k)[1..] == Copies(p, k - 1);
  }

  lemma {:induction false} TransmitLength(p: seq<byte>, k: nat)
    ensures |Transmit(Copies(p, k), false)| == k * |Frame(p, false)|
  {
    hide Frame;
    if k > 0 {
      CopiesTail(p, k);
      TransmitLength(p, k - 1);
      assert k * |Frame(p, false)| == (k - 1) * |Frame(p, false)| + |Frame(p, false)|;
    }
  }

  lemma Enough(n: nat, f: nat)
    requires f > 0
    ensures (260 + n) * f >= n
  {
  }

  lemma FrameStarts(p: seq<byte>)
    requires p != [] && p[0] < ESCAPE
    ensures Frame(p, false) != [] && Frame(p, false)[0] == p[0]
  {
    hide Trailer;
    var raw := p + Trailer(p);
    assert raw == [p[0]] + raw[1..];
    PlainStuff([p[0]]);
    hide Stuff;
    StuffConcat([p[0]], raw[1..]);
  }

  lemma {:induction false} NoFrameMatches(p: seq<byte>, k: nat, code: byte)
    requires p != [] && p[0] < ESCAPE && p[0] != code && code != 0
    ensures FirstFrame(Copies(p, k), code) == None
  {
    hide Frame;
    if k > 0 {
      CopiesTail(p, k);
      FrameStarts(p);
      NoFrameMatches(p, k - 1, code);
    }
  }

  /**
   For every length past the threshold, a stream of ordinary frames none of which begins with the wanted byte, in
   three reads, for which `read_reply` returns the end of a frame that was cut.
   */
  lemma TrimmingForgesReply(n: nat) returns (payloads: seq<seq<byte>>, events: seq<ReadEvent>)
    requires n > THRESHOLD
    ensures IsStream(payloads, events, n) && FirstFrame(payloads, 1) == None && Answer(1, [], events).Reply?
    ensures forall p :: p in payloads ==> 0 < |p| <= BUFSZ - 3
    ensures !FindsFirstFrame(payloads, 1, events)
  {
    hide Frame, Transmit, FirstFrame, Answer, Scan, Trimmed, Delivered, Fails;
    var p := Decoy();
    payloads := Copies(p, 260 + n);
    var stream := Transmit(payloads, false);
    DecoyFrame();
    TransmitLength(p, 260 + n);
    Enough(n, |Frame(p, false)|);
    var first, rest := stream[..THRESHOLD + 1], stream[THRESHOLD + 1..n];
    events := [Data(first), Quiet, Data(rest)];
    DeliveredInThree(first, rest);
    assert first + rest == stream[..n];
    NoFrameMatches(p, 260 + n, 1);
    ScanFindsFirstFrame(payloads, 1, THRESHOLD + 1);
    ForgedAfterTrim(n, stream, first);
    AnswerAfterTrim(first, events);
  }

  /** The frame of the decoy: its payload unchanged, two to four octets of CRC, and the flag. */
  lemma DecoyFrame()
    ensures var f := Frame(Decoy(), false);
            && 4009 <= |f| <= 4011 && f[|f| - 1] == FLAG && FLAG !in f[..|f| - 1]
            && f[..4006] == Decoy()
  {
    var p := Decoy();
    assert |p| == 4006 && forall i :: 0 <= i < |p| ==> p[i] < ESCAPE;
    hide Decoy, Frame;
    FrameShape(p);
    PlainFrame(p);
  }

  lemma PlainFrame(p: seq<byte>)
    requires forall i :: 0 <= i < |p| ==> p[i] < ESCAPE
    ensures Frame(p, false)[..|p|] == p && |p| + 3 <= |Frame(p, false)| <= |p| + 5
  {
    hide Stuff, Trailer;
    StuffConcat(p, Trailer(p));
    PlainStuff(p);
    assert Frame(p, false) == [] + (p + Stuff(Trailer(p))) + [FLAG];
    hide Frame;
    FrontOf(p, Stuff(Trailer(p)), Frame(p, false));
  }

  lemma FrontOf(p: seq<byte>, t: seq<byte>, f: seq<byte>)
    requires f == [] + (p + t) + [FLAG]
    ensures f[..|p|] == p && |f| == |p| + |t| + 1
  {
  }

  lemma {:induction false} PlainStuff(s: seq<byte>)
    requires forall i :: 0 <= i < |s| ==> s[i] < ESCAPE
    ensures Stuff(s) == s
  {
    if s != [] {
      PlainStuff(s[..|s| - 1]);
    }
  }

  lemma DeliveredInThree(first: seq<byte>, rest: seq<byte>)
    ensures Delivered([Data(first), Quiet, Data(rest)]) == first + rest && !Fails([Data(first), Quiet, Data(rest)])
  {
    var events := [Data(first), Quiet, Data(rest)];
    assert events[1..] == [Quiet, Data(rest)] && events[1..][1..] == [Data(rest)] && events[1..][1..][1..] == [];
    assert Delivered([Data(rest)]) == rest + Delivered([]);
  }

  /** What the trimming keeps of the first read starts inside a frame, with a byte that looks like a reply. */
  lemma ForgedAfterTrim(n: nat, stream: seq<byte>, first: seq<byte>)
    requires n > THRESHOLD && stream == Transmit(Copies(Decoy(), 260 + n), false)
    requires |stream| > THRESHOLD && first == stream[..THRESHOLD + 1]
    ensures Scan(Trimmed(first), 1).Some?
  {
    hide Frame, Transmit, Copies, Scan, Trimmed;
    var p, f := Decoy(), Frame(Decoy(), false);
    DecoyFrame();
    TransmitCopies(p, 259, 1 + n);
    CopiesTail(p, 1 + n);
    TransmitLength(p, 259);
    TransmitLength(p, n);
    var front, behind := Transmit(Copies(p, 259), false), Transmit(Copies(p, n), false);
    var body := f[..|f| - 1];
    assert f == body + [FLAG];
    LongEnough(n, |f|);
    assert forall i :: 1 <= i < 4006 ==> body[i] == f[..4006][i] == 1;
    CutInside(front, body, behind, first);
  }

  lemma LongEnough(n: nat, f: nat)
    requires n > THRESHOLD && f > 0
    ensures n * f > KEEP
  {
    assert n * f >= n;
  }

  lemma CutInside(front: seq<byte>, body: seq<byte>, behind: seq<byte>, first: seq<byte>)
    requires 4008 <= |body| <= 4010 && FLAG !in body && |front| == 259 * (|body| + 1) && |behind| > KEEP
    requires first == (front + (body + [FLAG] + behind))[..THRESHOLD + 1]
    requires forall i :: 1 <= i < 4006 ==> body[i] == 1
    ensures Scan(Trimmed(first), 1).Some?
  {
    hide Scan;
    var s := THRESHOLD + 1 - KEEP - |front|;
    var tail := behind[..THRESHOLD + 1 - |front| - |body| - 1];
    assert first == front + (body + [FLAG] + tail);
    assert Trimmed(first) == body[s..] + [FLAG] + tail;
    assert body[s..][0] == 1;
    TakeBody(body[s..], tail, 1);
  }

  lemma NothingYet(first: seq<byte>)
    requires |first| <= ACC_SIZE
    ensures Scan([], 1) == None && Grow([], first) == first
  {
    assert Trimmed([]) == [] && [] + first == first;
  }

  lemma AnswerAfterTrim(first: seq<byte>, events: seq<ReadEvent>)
    requires |first| == THRESHOLD + 1 && |events| == 3 && events[0] == Data(first) && events[1] == Quiet
    requires Scan(first, 1) == None && Scan(Trimmed(first), 1).Some?
    ensures Answer(1, [], events).Reply?
  {
    NothingYet(first);
    hide Scan, Grow, Trimmed, Answer;
    AnswerStep(1, [], events);
    assert events[1..][0] == Quiet;
    AnswerStep(1, first, events[1..]);
    AnswerStep(1, Trimmed(first), events[1..][1..]);
  }
}
