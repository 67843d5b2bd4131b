/**
 The framing of `hdlc_frame` (packages/diag-logtool/src/diag_logtool.c): payload, inverted CRC,
 octet stuffing, closing flag.

 The program only sends.  The receiver here is written from section 4.2 of RFC 1662: frames end at
 a flag, empty frames are skipped, a control escape is dropped and the octet behind it is
 exclusive-ored with 0x20, and an escape in front of a flag aborts the frame.
 */
module HdlcFraming {
  import opened Words
  import opened Crc16

  const FLAG: byte := 0x7e
  const ESCAPE: byte := 0x7d
  const BUFSZ := 4096
  /** 0xffff. */
  const SEED: Word16 := [true, true, true, true, true, true, true, true, true, true, true, true, true, true, true, true]

  /** b ^ 0x20. */
  function Toggle(b: byte): (t: byte)
    ensures t != b
  {
    if b % 64 >= 32 then b - 32 else b + 32
  }

  lemma ToggleTwice(b: byte)
    ensures Toggle(Toggle(b)) == b
  {
  }

  function StuffByte(b: byte): (r: seq<byte>)
    ensures 1 <= |r| <= 2
  {
    if b == FLAG || b == ESCAPE then [ESCAPE, Toggle(b)] else [b]
  }

  function Stuff(s: seq<byte>): (r: seq<byte>)
    ensures |s| <= |r| <= 2 * |s|
  {
    if s == [] then [] else Stuff(s[..|s| - 1]) + StuffByte(s[|s| - 1])
  }

  /** The two CRC octets as sent: inverted, low octet first. */
  function Trailer(payload: seq<byte>): (r: seq<byte>)
    ensures |r| == 2
  {
    var crc := Xor(Crc(SEED, Bits(payload)), SEED);
    [ByteOf(crc[8..]), ByteOf(crc[..8])]
  }

  function Enclose(body: seq<byte>, lead: bool): seq<byte> {
    (if lead then [FLAG] else []) + Stuff(body) + [FLAG]
  }

  function Frame(payload: seq<byte>, lead: bool): seq<byte> {
    Enclose(payload + Trailer(payload), lead)
  }

  // ----- the sender -----

  /**
   `hdlc_frame`.  The caller's buffer holds outsz octets; -1 stands for a payload length the raw
   buffer cannot take, or for a frame that does not fit.
   */
  method HdlcFrame(input: array<byte>, n: int, out: array<byte>, outsz: int, lead: bool) returns (len: int)
    requires n <= input.Length && outsz <= out.Length && input != out
    modifies out
    ensures len == if 0 <= n <= BUFSZ - 3 && |Frame(old(input[..n]), lead)| <= outsz
                   then |Frame(old(input[..n]), lead)| else -1
    ensures len != -1 ==> out[..len] == Frame(old(input[..n]), lead) && Carries(out[..len], old(input[..n]), lead)
    ensures forall k :: 0 <= len <= k < out.Length ==> out[k] == old(out[k])
    ensures forall k :: Max(outsz, 0) <= k < out.Length ==> out[k] == old(out[k])
  {
    FrameCarries(input[..Min(Max(n, 0), input.Length)], lead);
    hide Frame, Enclose, Carries, Trailer;
    if n < 0 || n > BUFSZ - 3 {
      return -1;
    }
    var raw := RawFrame(input, n);
    len := EmitFrame(raw, n + 2, out, outsz, lead);
  }

  /** Flag, stuffed octets, flag. */
  method EmitFrame(raw: array<byte>, rl: nat, out: array<byte>, outsz: int, lead: bool) returns (len: int)
    requires rl <= raw.Length && outsz <= out.Length && raw != out
    modifies out
    ensures len == if |Enclose(old(raw[..rl]), lead)| <= outsz then |Enclose(old(raw[..rl]), lead)| else -1
    ensures len != -1 ==> out[..len] == Enclose(old(raw[..rl]), lead)
    ensures forall k :: 0 <= len <= k < out.Length ==> out[k] == old(out[k])
    ensures forall k :: Max(outsz, 0) <= k < out.Length ==> out[k] == old(out[k])
  {
    hide Stuff, FLAG;
    ghost var stuffed := Stuff(raw[..rl]);
    ghost var head := if lead then [FLAG] else [];
    var o := 0;
    if lead {
      if o >= outsz {
        return -1;
      }
      out[o] := FLAG;
      o := o + 1;
    }
    if outsz < 0 {
      return -1;
    }
    o := StuffInto(raw, rl, out, o, outsz);
    if o < 0 || o >= outsz {
      return -1;
    }
    out[o] := FLAG;
    o := o + 1;
    Assemble(out[..o], head, stuffed);
    return o;
  }

  lemma Assemble(out: seq<byte>, head: seq<byte>, body: seq<byte>)
    requires |out| == |head| + |body| + 1 && out[|out| - 1] == FLAG
    requires forall k :: 0 <= k < |head| ==> out[k] == head[k]
    requires forall k :: |head| <= k < |out| - 1 ==> out[k] == body[k - |head|]
    ensures out == head + body + [FLAG]
  {
  }

  /** Payload and inverted CRC, low octet first, in a buffer of their own. */
  method RawFrame(input: array<byte>, n: nat) returns (raw: array<byte>)
    requires n <= input.Length && n <= BUFSZ - 3
    ensures fresh(raw) && raw.Length == BUFSZ && raw[..n + 2] == input[..n] + Trailer(input[..n])
  {
    raw := new byte[BUFSZ];
    forall i | 0 <= i < n {
      raw[i] := input[i];
    }
    var crc := ComputeCrc(SEED, input, n);
    crc := Xor(crc, SEED);
    raw[n] := ByteOf(crc[8..]);
    raw[n + 1] := ByteOf(crc[..8]);
  }

  /** The escaping loop of `hdlc_frame`, from index start of the output on; -1 when the room runs out. */
  method StuffInto(raw: array<byte>, rl: nat, out: array<byte>, start: nat, outsz: nat) returns (o: int)
    requires rl <= raw.Length && start <= outsz <= out.Length && raw != out
    modifies out
    ensures o == if start + |Stuff(raw[..rl])| <= outsz then start + |Stuff(raw[..rl])| else -1
    ensures forall k :: start <= k < o ==> out[k] == Stuff(raw[..rl])[k - start]
    ensures forall k :: 0 <= k < start || outsz <= k < out.Length ==> out[k] == old(out[k])
    ensures forall k :: start <= o <= k < out.Length ==> out[k] == old(out[k])
  {
    ghost var body := raw[..rl];
    ghost var stuffed: seq<byte> := [];
    assert Stuff(body[..0]) == [];
    hide Stuff, StuffByte, ShowsAt;
    NothingShown(out[..], start);
    o := start;
    for i := 0 to rl
      invariant raw[..rl] == body && stuffed == Stuff(body[..i])
      invariant start <= o <= outsz && o == start + |stuffed|
      invariant ShowsAt(out[..], start, stuffed)
      invariant forall k :: 0 <= k < start || o <= k < out.Length ==> out[k] == old(out[k])
    {
      StuffNext(body, i);
      var next := PutStuffed(raw[i], out, start, stuffed, o, outsz);
      if next == -1 {
        return -1;
      }
      stuffed := stuffed + StuffByte(raw[i]);
      o := next;
    }
    assert body[..rl] == body;
    ShowsMeans(out[..], start, stuffed);
  }

  /** s stands in the buffer from index start on. */
  ghost predicate ShowsAt(out: seq<byte>, start: nat, s: seq<byte>) {
    start + |s| <= |out| && forall k :: start <= k < start + |s| ==> out[k] == s[k - start]
  }

  lemma NothingShown(out: seq<byte>, start: nat)
    requires start <= |out|
    ensures ShowsAt(out, start, [])
  {
  }

  lemma ShowsMeans(out: seq<byte>, start: nat, s: seq<byte>)
    requires ShowsAt(out, start, s)
    ensures start + |s| <= |out| && forall k :: start <= k < start + |s| ==> out[k] == s[k - start]
  {
  }

  /** One octet, escaped where it must be, behind those that stand in the buffer. */
  method PutStuffed(b: byte, out: array<byte>, ghost start: nat, ghost stuffed: seq<byte>, o: nat, outsz: nat) returns (next: int)
    requires o == start + |stuffed| <= outsz <= out.Length && ShowsAt(out[..], start, stuffed)
    modifies out
    ensures next == if o + |StuffByte(b)| <= outsz then o + |StuffByte(b)| else -1
    ensures forall k :: 0 <= k < out.Length && !(o <= k < next) ==> out[k] == old(out[k])
    ensures next != -1 ==> ShowsAt(out[..], start, stuffed + StuffByte(b))
  {
    if b == FLAG || b == ESCAPE {
      if o + 2 > outsz {
        return -1;
      }
      out[o] := ESCAPE;
      out[o + 1] := Toggle(b);
      return o + 2;
    } else {
      if o + 1 > outsz {
        return -1;
      }
      out[o] := b;
      return o + 1;
    }
  }

  lemma StuffNext(s: seq<byte>, i: nat)
    requires i < |s|
    ensures Stuff(s[..i + 1]) == Stuff(s[..i]) + StuffByte(s[i])
    ensures |Stuff(s[..i + 1])| <= |Stuff(s)|
  {
    assert s[..i + 1][..i] == s[..i];
    assert s == s[..i + 1] + s[i + 1..];
    StuffConcat(s[..i + 1], s[i + 1..]);
  }

  lemma {:induction false} StuffConcat(a: seq<byte>, b: seq<byte>)
    ensures Stuff(a + b) == Stuff(a) + Stuff(b)
    decreases |b|
  {
    if b == [] {
      assert a + b == a;
    } else {
      hide StuffByte;
      var init, last := b[..|b| - 1], b[|b| - 1];
      assert (a + b)[..|a + b| - 1] == a + init;
      assert (a + b)[|a + b| - 1] == last;
      StuffConcat(a, init);
      assert Stuff(a) + Stuff(init) + StuffByte(last) == Stuff(a) + (Stuff(init) + StuffByte(last));
    }
  }

  // ----- the receiver of RFC 1662, section 4.2 -----

  /** Transparency undone; None when an escape has nothing to protect or a flag stands inside. */
  function Unstuff(s: seq<byte>): Option<seq<byte>> {
    if s == [] then Some([])
    else if s[0] == 0x7e then None
    else if s[0] == 0x7d then
      if |s| < 2 || s[1] == 0x7e then None
      else
        var rest := Unstuff(s[2..]);
        if rest.Some? then Some([if (s[1] / 32) % 2 == 1 then s[1] - 32 else s[1] + 32] + rest.value) else None
    else
      var rest := Unstuff(s[1..]);
      if rest.Some? then Some([s[0]] + rest.value) else None
  }

  /** The two octets behind a payload are the complement of its CRC from sixteen ones, the low octet first. */
  predicate Checks(payload: seq<byte>, low: byte, high: byte) {
    low + 256 * high == 0xffff - ValueOf(Crc(Ones(), Bits(payload)))
  }

  function Ones(): (w: Word16)
    ensures forall i :: 0 <= i < 16 ==> w[i]
  {
    seq(16, _ => true)
  }

  /** What stands between two flags, accepted as a payload if its CRC is right. */
  function Accept(s: seq<byte>): Option<seq<byte>> {
    var raw := Unstuff(s);
    if raw.Some? && |raw.value| >= 2
       && Checks(raw.value[..|raw.value| - 2], raw.value[|raw.value| - 2], raw.value[|raw.value| - 1])
    then Some(raw.value[..|raw.value| - 2])
    else None
  }

  /** The trailer of the sender is what the receiver checks for, and nothing else is. */
  lemma TrailerChecks(payload: seq<byte>, low: byte, high: byte)
    ensures Checks(payload, low, high) <==> [low, high] == Trailer(payload)
    ensures Checks(payload, Trailer(payload)[0], Trailer(payload)[1])
  {
    assert Ones() == SEED;
    var c := Crc(SEED, Bits(payload));
    hide Crc, Bits, Ones, SEED, ByteOf;
    var inverse := Xor(c, Ones());
    TrailerValue(c, inverse);
    OnePair(low, high, ByteOf(inverse[8..]), ByteOf(inverse[..8]));
  }

  lemma OnePair(a: byte, b: byte, c: byte, d: byte)
    ensures a + 256 * b == c + 256 * d <==> [a, b] == [c, d]
  {
    if [a, b] == [c, d] {
      assert a == [a, b][0] == [c, d][0] == c && b == [a, b][1] == [c, d][1] == d;
    }
  }

  lemma TrailerValue(c: Word16, inverse: Word16)
    requires inverse == Xor(c, Ones())
    ensures ByteOf(inverse[8..]) + 256 * ByteOf(inverse[..8]) == 0xffff - ValueOf(c)
  {
    assert PowerOfTwo(8) == 256;
    assert PowerOfTwo(16) == 256 * PowerOfTwo(8) == 0x1_0000;
    ValueOfInverse(c, Ones());
    assert inverse == inverse[..8] + inverse[8..];
    ValueOfConcat(inverse[..8], inverse[8..]);
  }

  /**
   What a frame is to anybody who knows RFC 1662 and the CRC: between flags, with none inside, un-stuffing gives the payload
   and the two octets of its checksum.
   */
  ghost predicate Carries(frame: seq<byte>, payload: seq<byte>, lead: bool) {
    var from := if lead then 1 else 0;
    && |frame| >= from + 3 && (lead ==> frame[0] == 0x7e) && frame[|frame| - 1] == 0x7e
    && 0x7e !in frame[from..|frame| - 1]
    && var raw := Unstuff(frame[from..|frame| - 1]);
    && raw.Some? && |raw.value| == |payload| + 2 && raw.value[..|payload|] == payload
    && Checks(payload, raw.value[|payload|], raw.value[|payload| + 1])
  }

  function FlagIndex(s: seq<byte>): (i: nat)
    ensures i <= |s| && FLAG !in s[..i] && (i < |s| ==> s[i] == FLAG)
  {
    if s == [] || s[0] == FLAG then 0 else 1 + FlagIndex(s[1..])
  }

  /** Every payload a receiver takes from an octet stream, in order. */
  function Receive(stream: seq<byte>): seq<seq<byte>>
    decreases |stream|
  {
    var i := FlagIndex(stream);
    if i == |stream| then []
    else
      var payload := Accept(stream[..i]);
      (if payload.Some? then [payload.value] else []) + Receive(stream[i + 1..])
  }

  // ----- sender against receiver -----

  lemma {:induction false} StuffHasNoFlag(s: seq<byte>)
    ensures FLAG !in Stuff(s)
  {
    if s != [] {
      StuffHasNoFlag(s[..|s| - 1]);
    }
  }

  lemma {:induction false} UnstuffStuff(s: seq<byte>)
    ensures Unstuff(Stuff(s)) == Some(s)
    decreases |s|
  {
    if s != [] {
      assert s == [s[0]] + s[1..];
      StuffConcat([s[0]], s[1..]);
      UnstuffStuff(s[1..]);
      StuffOne(s[0]);
      UnstuffFirst(s[0], Stuff(s[1..]), s[1..]);
    }
  }

  lemma StuffOne(b: byte)
    ensures Stuff([b]) == StuffByte(b)
  {
    assert Stuff([b][..0]) == [];
  }

  lemma UnstuffFirst(b: byte, rest: seq<byte>, tail: seq<byte>)
    requires Unstuff(rest) == Some(tail)
    ensures Unstuff(StuffByte(b) + rest) == Some([b] + tail)
  {
    var s := StuffByte(b) + rest;
    if b == FLAG || b == ESCAPE {
      assert s[0] == 0x7d && s[1] == Toggle(b) && s[2..] == rest;
    } else {
      assert s[0] == b && s[1..] == rest;
    }
  }

  /** Between the flags a receiver finds exactly the payload and its CRC, and no flag of its own. */
  lemma FrameDecodes(payload: seq<byte>, lead: bool)
    ensures var f := Frame(payload, lead);
            var from := if lead then 1 else 0;
            && |f| >= from + 3
            && f[|f| - 1] == FLAG && FLAG !in f[from..|f| - 1]
            && Unstuff(f[from..|f| - 1]) == Some(payload + Trailer(payload))
            && Accept(f[from..|f| - 1]) == Some(payload)
  {
    var raw := payload + Trailer(payload);
    var f := Frame(payload, lead);
    assert f[if lead then 1 else 0..|f| - 1] == Stuff(raw);
    StuffHasNoFlag(raw);
    UnstuffStuff(raw);
    assert raw[..|raw| - 2] == payload && raw[|raw| - 2..] == Trailer(payload);
    TrailerChecks(payload, raw[|raw| - 2], raw[|raw| - 1]);
  }

  lemma FrameShape(payload: seq<byte>)
    ensures var f := Frame(payload, false);
            |f| >= 3 && f[|f| - 1] == FLAG && FLAG !in f[..|f| - 1] && f == f[..|f| - 1] + [FLAG]
  {
    hide Trailer;
    var raw := payload + Trailer(payload);
    assert Frame(payload, false) == [] + Stuff(raw) + [FLAG];
    StuffHasNoFlag(raw);
    assert Frame(payload, false)[..|Stuff(raw)|] == Stuff(raw);
    hide Stuff, Frame;
  }

  lemma FrameCarries(payload: seq<byte>, lead: bool)
    ensures Carries(Frame(payload, lead), payload, lead)
  {
    FrameDecodes(payload, lead);
    TrailerChecks(payload, Trailer(payload)[0], Trailer(payload)[1]);
    hide Trailer, Checks, Unstuff, Stuff;
  }

  lemma FrameLength(payload: seq<byte>, lead: bool)
    ensures var extra := if lead then 1 else 0;
            |payload| + 3 + extra <= |Frame(payload, lead)| <= 2 * (|payload| + 2) + 1 + extra
  {
  }

  function Transmit(payloads: seq<seq<byte>>, lead: bool): seq<byte> {
    if payloads == [] then [] else Frame(payloads[0], lead) + Transmit(payloads[1..], lead)
  }

  /** A stream of frames is received as the payloads that were sent, with or without leading flags. */
  lemma {:induction false} ReceiveTransmit(payloads: seq<seq<byte>>, lead: bool)
    ensures Receive(Transmit(payloads, lead)) == payloads
    decreases |payloads|
  {
    if payloads != [] {
      ReceiveTransmit(payloads[1..], lead);
      ReceiveFramed(payloads[0], lead, Transmit(payloads[1..], lead));
    }
  }

  lemma ReceiveFramed(payload: seq<byte>, lead: bool, rest: seq<byte>)
    ensures Receive(Frame(payload, lead) + rest) == [payload] + Receive(rest)
  {
    ReceiveFrame(payload, rest);
    SkipLead(Stuff(payload + Trailer(payload)), lead, rest);
  }

  lemma SkipLead(body: seq<byte>, lead: bool, rest: seq<byte>)
    ensures Receive((if lead then [FLAG] else []) + body + [FLAG] + rest) == Receive(body + [FLAG] + rest)
  {
    if lead {
      assert [FLAG] + body + [FLAG] + rest == [FLAG] + (body + [FLAG] + rest);
      SkipEmptyFrame(body + [FLAG] + rest);
    } else {
      assert [] + body + [FLAG] + rest == body + [FLAG] + rest;
    }
  }

  lemma ReceiveFrame(payload: seq<byte>, rest: seq<byte>)
    ensures Receive(Stuff(payload + Trailer(payload)) + [FLAG] + rest) == [payload] + Receive(rest)
  {
    FrameDecodes(payload, false);
    var stuffed := Stuff(payload + Trailer(payload));
    assert Frame(payload, false)[0..|Frame(payload, false)| - 1] == stuffed;
    var s := stuffed + [FLAG] + rest;
    assert s[..|stuffed|] == stuffed && s[|stuffed| + 1..] == rest;
    FlagIndexAt(s, |stuffed|);
  }

  lemma {:induction false} FlagIndexAt(s: seq<byte>, k: nat)
    requires k < |s| && s[k] == FLAG && FLAG !in s[..k]
    ensures FlagIndex(s) == k
    decreases k
  {
    if k > 0 {
      assert s[0] == s[..k][0];
      assert s[1..][..k - 1] == s[..k][1..];
      FlagIndexAt(s[1..], k - 1);
    }
  }

  lemma SkipEmptyFrame(rest: seq<byte>)
    ensures Receive([FLAG] + rest) == Receive(rest)
  {
    var s := [FLAG] + rest;
    assert FlagIndex(s) == 0 && s[..0] == [] && s[1..] == rest;
  }

  /** A payload altered within sixteen consecutive bits is never accepted with the CRC of the original. */
  lemma AlteredPayloadIsRejected(sent: seq<byte>, got: seq<byte>, start: nat)
    requires |sent| == |got| && sent != got
    requires forall k :: 0 <= k < 8 * |sent| && Bits(sent)[k] != Bits(got)[k] ==> start <= k < start + 16
    ensures Accept(Stuff(got + Trailer(sent))) == None
  {
    UnstuffStuff(got + Trailer(sent));
    var raw := got + Trailer(sent);
    assert raw[..|raw| - 2] == got && raw[|raw| - 2..] == Trailer(sent);
    TrailerChecks(got, raw[|raw| - 2], raw[|raw| - 1]);
    ByteBurstIsDetected(SEED, sent, got, start);
    if Trailer(sent) == Trailer(got) {
      TrailerInjective(sent, got);
    }
  }

  lemma TrailerInjective(a: seq<byte>, b: seq<byte>)
    requires Trailer(a) == Trailer(b)
    ensures Crc(SEED, Bits(a)) == Crc(SEED, Bits(b))
  {
    var p, q := Crc(SEED, Bits(a)), Crc(SEED, Bits(b));
    var x, y := Xor(p, SEED), Xor(q, SEED);
    hide Crc, Bits, ByteOf;
    assert Trailer(a)[0] == Trailer(b)[0] && Trailer(a)[1] == Trailer(b)[1];
    SameByte(x[8..], y[8..]);
    SameByte(x[..8], y[..8]);
    SameMask(p, q, SEED);
  }

  lemma SameByte(x: Poly, y: Poly)
    requires |x| == |y| == 8 && ByteOf(x) == ByteOf(y)
    ensures x == y
  {
    BitsOfValue(x);
    BitsOfValue(y);
  }

  lemma SameMask(p: Word16, q: Word16, mask: Word16)
    requires Xor(p, mask)[8..] == Xor(q, mask)[8..] && Xor(p, mask)[..8] == Xor(q, mask)[..8]
    ensures p == q
  {
    forall i | 0 <= i < 16 ensures p[i] == q[i] {
      if i < 8 {
        assert Xor(p, mask)[..8][i] == Xor(q, mask)[..8][i];
      } else {
        assert Xor(p, mask)[8..][i - 8] == Xor(q, mask)[8..][i - 8];
      }
    }
  }
}
