/**
 The CRC of `crc16_ccitt` (packages/diag-logtool/src/diag_logtool.c): most significant bit
 first, generator x^16 + x^12 + x^5 + 1.

 A machine word is its bits, most significant first.  The same sequences are read as polynomials
 over GF(2), highest power first, and the register of the program is shown to be the remainder
 of a polynomial division; linearity, composition and the detection of bursts follow from that.
 */
module Crc16 {
  import opened Words

  type Poly = seq<bool>
  type Word16 = w: seq<bool> | |w| == 16 witness [false, false, false, false, false, false, false, false,
                                                  false, false, false, false, false, false, false, false]

  /** 0x1021. */
  const GENERATOR: Word16 :=
    [false, false, false, true, false, false, false, false, false, false, true, false, false, false, false, true]

  // ----- polynomials -----

  function Zeros(k: nat): (z: Poly)
    ensures |z| == k && forall i :: 0 <= i < k ==> !z[i]
  {
    seq(k, _ => false)
  }

  function Xor(a: Poly, b: Poly): (r: Poly)
    requires |a| == |b|
    ensures |r| == |a| && forall i :: 0 <= i < |r| ==> r[i] == (a[i] != b[i])
  {
    seq(|a|, i requires 0 <= i < |a| => a[i] != b[i])
  }

  /** The generator, or zero: what one quotient coefficient contributes. */
  function Factor(bit: bool): (r: Poly)
    ensures |r| == 17
  {
    if bit then [true] + GENERATOR else Zeros(17)
  }

  /** The product of q with x^16 + GENERATOR, schoolbook, from the top coefficient of q down. */
  function TimesGenerator(q: Poly): (r: Poly)
    ensures |r| == |q| + 16
  {
    if q == [] then Zeros(16)
    else
      var k := |q| - 1;
      Xor(TimesGenerator(q[..k]) + [false], Zeros(k) + Factor(q[k]))
  }

  /** The message times x^16, with the seed added to its sixteen leading coefficients. */
  function Dividend(seed: Word16, m: Poly): (r: Poly)
    ensures |r| == |m| + 16
  {
    Xor(seed + Zeros(|m|), m + Zeros(16))
  }

  /** dividend = quotient * generator + remainder, with a remainder of degree below sixteen. */
  ghost predicate IsDivision(seed: Word16, m: Poly, quotient: Poly, remainder: Word16) {
    && |quotient| == |m|
    && Dividend(seed, m) == Xor(TimesGenerator(quotient), Zeros(|m|) + remainder)
  }

  // ----- the bits of a byte string -----

  function PowerOfTwo(k: nat): (p: nat)
    ensures p > 0
  {
    if k == 0 then 1 else 2 * PowerOfTwo(k - 1)
  }

  /** The k low bits of n, most significant first. */
  function BitsOf(n: nat, k: nat): (r: Poly)
    ensures |r| == k
  {
    if k == 0 then [] else BitsOf(n / 2, k - 1) + [n % 2 == 1]
  }

  function ValueOf(r: Poly): (n: nat)
    ensures n < PowerOfTwo(|r|)
  {
    if r == [] then 0 else 2 * ValueOf(r[..|r| - 1]) + if r[|r| - 1] then 1 else 0
  }

  lemma {:induction false} BitsOfValue(r: Poly)
    ensures BitsOf(ValueOf(r), |r|) == r
  {
    if r != [] {
      BitsOfValue(r[..|r| - 1]);
      assert r == r[..|r| - 1] + [r[|r| - 1]];
    }
  }

  lemma {:induction false} ValueOfBits(n: nat, k: nat)
    requires n < PowerOfTwo(k)
    ensures ValueOf(BitsOf(n, k)) == n
  {
    if k > 0 {
      ValueOfBits(n / 2, k - 1);
      assert BitsOf(n, k)[..k - 1] == BitsOf(n / 2, k - 1);
    }
  }

  function ByteBits(b: byte): (r: Poly)
    ensures |r| == 8
  {
    BitsOf(b, 8)
  }

  lemma {:induction false} BitOf(n: nat, k: nat, i: nat)
    requires i < k
    ensures BitsOf(n, k)[i] == ((n / PowerOfTwo(k - 1 - i)) % 2 == 1)
    decreases k
  {
    if i < k - 1 {
      BitOf(n / 2, k - 1, i);
      DivideTwice(n, PowerOfTwo(k - 2 - i));
    }
  }

  lemma DivideTwice(n: nat, p: nat)
    requires p > 0
    ensures (n / 2) / p == n / (2 * p)
  {
    var q, r := (n / 2) / p, (n / 2) % p;
    assert n / 2 == p * q + r;
    assert n == (2 * p) * q + (2 * r + n % 2);
    Quotient(n, 2 * p, q, 2 * r + n % 2);
  }

  lemma Quotient(n: nat, d: nat, q: nat, r: nat)
    requires r < d && n == d * q + r
    ensures n / d == q
  {
    var x, y := n / d, n % d;
    assert d * (x - q) == r - y;
    Multiple(d, x - q);
  }

  lemma Multiple(d: nat, m: int)
    ensures m >= 1 ==> d * m >= d
    ensures m <= -1 ==> d * m <= 0 - d
  {
    assert d * m == d + d * (m - 1) == d * (m + 1) - d;
  }

  /** The bits of a message are those of its bytes in order, the most significant of each byte first. */
  lemma {:induction false} BitOfMessage(s: seq<byte>, k: nat, i: nat)
    requires k < |s| && i < 8
    ensures Bits(s)[8 * k + i] == HasBit(s[k], i)
    decreases |s|
  {
    hide HasBit, Bits;
    BitsStep(s, 8 * k + i);
    if k < |s| - 1 {
      BitOfMessage(s[..|s| - 1], k, i);
    } else {
      BitOfByte(s[k], i);
    }
  }

  /** Bit i of a byte, the most significant being bit 0. */
  predicate HasBit(b: byte, i: nat)
    requires i < 8
  {
    (b / PowerOfTwo(7 - i)) % 2 == 1
  }

  lemma BitOfByte(b: byte, i: nat)
    requires i < 8
    ensures ByteBits(b)[i] == HasBit(b, i)
  {
    hide BitsOf;
    BitOf(b, 8, i);
  }

  lemma BitsStep(s: seq<byte>, j: nat)
    requires s != [] && j < 8 * |s|
    ensures var n := |s| - 1;
            Bits(s)[j] == if j < 8 * n then Bits(s[..n])[j] else ByteBits(s[n])[j - 8 * n]
  {
    hide ByteBits;
  }

  lemma {:induction false} ValueOfConcat(a: Poly, b: Poly)
    ensures ValueOf(a + b) == ValueOf(a) * PowerOfTwo(|b|) + ValueOf(b)
    decreases |b|
  {
    if b == [] {
      assert a + b == a;
    } else {
      var init, last := b[..|b| - 1], b[|b| - 1];
      assert (a + b)[..|a + b| - 1] == a + init && (a + b)[|a + b| - 1] == last;
      ValueOfConcat(a, init);
      Doubled(ValueOf(a), PowerOfTwo(|init|), ValueOf(init));
    }
  }

  lemma Doubled(a: nat, p: nat, b: nat)
    ensures 2 * (a * p + b) == a * (2 * p) + 2 * b
  {
  }

  /** Inverting every bit of a word takes its value from the greatest of that width. */
  lemma {:induction false} ValueOfInverse(c: Poly, ones: Poly)
    requires |c| == |ones| && forall i :: 0 <= i < |ones| ==> ones[i]
    ensures ValueOf(Xor(c, ones)) == PowerOfTwo(|c|) - 1 - ValueOf(c)
    decreases |c|
  {
    if c != [] {
      var k := |c| - 1;
      ValueOfInverse(c[..k], ones[..k]);
      assert Xor(c, ones)[..k] == Xor(c[..k], ones[..k]);
    }
  }

  function ByteOf(r: Poly): byte
    requires |r| == 8
  {
    assert PowerOfTwo(8) == 256;
    ValueOf(r)
  }

  function Bits(s: seq<byte>): (r: Poly)
    ensures |r| == 8 * |s|
  {
    if s == [] then [] else Bits(s[..|s| - 1]) + ByteBits(s[|s| - 1])
  }

  // ----- the register -----

  /** One round of the inner loop. */
  function Shift(c: Word16): Word16 {
    if c[0] then Xor(c[1..] + [false], GENERATOR) else c[1..] + [false]
  }

  function Shifts(c: Word16, k: nat): Word16
    decreases k
  {
    if k == 0 then c else Shifts(Shift(c), k - 1)
  }

  /** The CRC register after a message, one message bit at a time. */
  function Crc(c: Word16, m: Poly): Word16
    decreases |m|
  {
    if m == [] then c else Crc(Shift(Xor(c, [m[0]] + Zeros(15))), m[1..])
  }

  /** `crc16_ccitt`: both loops, over the first n bytes of the buffer. */
  method ComputeCrc(seed: Word16, p: array<byte>, n: nat) returns (crc: Word16)
    requires n <= p.Length
    ensures crc == Crc(seed, Bits(p[..n]))
  {
    hide Crc, Bits, ByteBits, Shifts, GENERATOR;
    crc := seed;
    NoByte(seed, p[..0]);
    for i := 0 to n
      invariant crc == Crc(seed, Bits(p[..i]))
    {
      OneMoreByte(seed, p[..i], p[i]);
      crc := Xor(crc, ByteBits(p[i]) + Zeros(8));
      ghost var mixed := crc;
      for b := 0 to 8
        invariant Shifts(crc, 8 - b) == Shifts(mixed, 8)
      {
        OneShift(crc, 8 - b);
        crc := if crc[0] then Xor(crc[1..] + [false], GENERATOR) else crc[1..] + [false];
      }
      NoShift(crc);
      assert p[..i + 1] == p[..i] + [p[i]];
    }
  }

  lemma NoByte(seed: Word16, s: seq<byte>)
    requires s == []
    ensures Crc(seed, Bits(s)) == seed
  {
  }

  lemma NoShift(c: Word16)
    ensures Shifts(c, 0) == c
  {
  }

  lemma OneShift(c: Word16, k: nat)
    requires k > 0
    ensures Shifts(c, k) == Shifts(if c[0] then Xor(c[1..] + [false], GENERATOR) else c[1..] + [false], k - 1)
  {
    hide Xor, GENERATOR;
  }

  lemma OneMoreByte(seed: Word16, s: seq<byte>, b: byte)
    ensures Crc(seed, Bits(s + [b])) == Shifts(Xor(Crc(seed, Bits(s)), ByteBits(b) + Zeros(8)), 8)
  {
    hide Crc, Shifts, Xor, ByteBits;
    assert (s + [b])[..|s|] == s;
    ByteAtOnce(Crc(seed, Bits(s)), ByteBits(b));
    CrcComposes(seed, Bits(s), ByteBits(b));
  }

  /** Mixing up to sixteen message bits in first and shifting afterwards is the same as bit by bit. */
  lemma {:induction false} ByteAtOnce(c: Word16, m: Poly)
    requires |m| <= 16
    ensures Shifts(Xor(c, m + Zeros(16 - |m|)), |m|) == Crc(c, m)
    decreases |m|
  {
    hide Shift, GENERATOR;
    if m == [] {
      assert Xor(c, m + Zeros(16)) == c;
    } else {
      var w := m + Zeros(16 - |m|);
      ShiftFirstBit(c, w);
      assert w[1..] + [false] == m[1..] + Zeros(17 - |m|);
      ByteAtOnce(Shift(Xor(c, [m[0]] + Zeros(15))), m[1..]);
    }
  }

  /** One column of a shift. */
  lemma ShiftAt(c: Word16, i: nat)
    requires i < 16
    ensures Shift(c)[i] == ((i < 15 && c[i + 1]) != (c[0] && GENERATOR[i]))
  {
    hide GENERATOR;
  }

  /** Only the leading bit of what is mixed in steers the next shift. */
  lemma ShiftFirstBit(c: Word16, w: Word16)
    ensures Shift(Xor(c, w)) == Xor(Shift(Xor(c, [w[0]] + Zeros(15))), w[1..] + [false])
  {
    var a, b := Xor(c, w), Xor(c, [w[0]] + Zeros(15));
    assert a[0] == b[0];
    forall i | 0 <= i < 16 ensures Shift(a)[i] == (Shift(b)[i] != (w[1..] + [false])[i]) {
      hide Shift, GENERATOR;
      ShiftAt(a, i);
      ShiftAt(b, i);
      assert i < 15 ==> b[i + 1] == c[i + 1];
    }
    hide Shift, GENERATOR;
    assert Shift(a) == Xor(Shift(b), w[1..] + [false]);
  }

  /** A register whose shift ends in zero had a leading zero, and was only moved. */
  lemma ShiftedOut(x: Word16)
    requires !Shift(x)[15]
    ensures !x[0] && forall i :: 0 < i < 16 ==> x[i] == Shift(x)[i - 1]
  {
    ShiftAt(x, 15);
    assert GENERATOR[15];
    forall i | 0 < i < 16 ensures x[i] == Shift(x)[i - 1] {
      hide Shift, GENERATOR;
      ShiftAt(x, i - 1);
    }
  }

  /** A CRC can be resumed: the register after two messages is the second one's from the first one's. */
  lemma {:induction false} CrcComposes(c: Word16, m: Poly, n: Poly)
    ensures Crc(c, m + n) == Crc(Crc(c, m), n)
    decreases |m|
  {
    if m == [] {
      assert m + n == n;
    } else {
      assert (m + n)[1..] == m[1..] + n;
      CrcComposes(Shift(Xor(c, [m[0]] + Zeros(15))), m[1..], n);
    }
  }

  lemma ShiftLinear(a: Word16, b: Word16)
    ensures Shift(Xor(a, b)) == Xor(Shift(a), Shift(b))
  {
  }

  /** The register is linear in seed and message together. */
  lemma {:induction false} CrcLinear(c: Word16, d: Word16, m: Poly, n: Poly)
    requires |m| == |n|
    ensures Crc(Xor(c, d), Xor(m, n)) == Xor(Crc(c, m), Crc(d, n))
    decreases |m|
  {
    if m != [] {
      var a, b := Xor(c, [m[0]] + Zeros(15)), Xor(d, [n[0]] + Zeros(15));
      assert Xor(Xor(c, d), [Xor(m, n)[0]] + Zeros(15)) == Xor(a, b);
      ShiftLinear(a, b);
      assert Xor(m, n)[1..] == Xor(m[1..], n[1..]);
      CrcLinear(Shift(a), Shift(b), m[1..], n[1..]);
    }
  }

  // ----- the register is the remainder -----

  /** Dividing one more coefficient: the quotient gains the bit that leaves the register. */
  lemma {:induction false} CrcIsRemainder(seed: Word16, m: Poly) returns (quotient: Poly)
    ensures IsDivision(seed, m, quotient, Crc(seed, m))
    decreases |m|
  {
    if m == [] {
      quotient := [];
      assert Dividend(seed, m) == Xor(TimesGenerator([]), Zeros(0) + seed);
    } else {
      var k := |m| - 1;
      var init, bit := m[..k], m[k];
      var q := CrcIsRemainder(seed, init);
      var r := Crc(seed, init);
      CrcComposes(seed, init, [bit]);
      assert m == init + [bit];
      assert Crc(r, [bit]) == Shift(Xor(r, [bit] + Zeros(15)));
      quotient := q + [r[0] != bit];
      DivisionStep(seed, init, bit, q, r);
    }
  }

  lemma DivisionStep(seed: Word16, m: Poly, bit: bool, q: Poly, r: Word16)
    requires IsDivision(seed, m, q, r)
    ensures IsDivision(seed, m + [bit], q + [r[0] != bit], Shift(Xor(r, [bit] + Zeros(15))))
  {
    var r' := Shift(Xor(r, [bit] + Zeros(15)));
    RegisterStep(r, bit);
    DivisionColumns(seed, m, bit, q, r, r');
  }

  lemma DivisionColumns(seed: Word16, m: Poly, bit: bool, q: Poly, r: Word16, r': Word16)
    requires IsDivision(seed, m, q, r)
    requires Xor([false] + r', Factor(r[0] != bit)) == Xor(r + [false], [bit] + Zeros(16))
    ensures IsDivision(seed, m + [bit], q + [r[0] != bit], r')
  {
    var leaving, t := r[0] != bit, TimesGenerator(q);
    DividendStep(seed, m, bit);
    AddColumns(Dividend(seed, m), t, r, r', Factor(leaving), [bit] + Zeros(16), |m|);
    assert TimesGenerator(q + [leaving]) == Xor(t + [false], Zeros(|m|) + Factor(leaving)) by {
      assert (q + [leaving])[..|m|] == q;
    }
    OneMoreZero(|m|, r');
  }

  lemma OneMoreZero(k: nat, r: Poly)
    ensures Zeros(k + 1) + r == Zeros(k) + ([false] + r)
  {
  }

  lemma DividendStep(seed: Word16, m: Poly, bit: bool)
    ensures Dividend(seed, m + [bit]) == Xor(Dividend(seed, m) + [false], Zeros(|m|) + ([bit] + Zeros(16)))
  {
    var a, b := seed + Zeros(|m| + 1), m + [bit] + Zeros(16);
    assert a == seed + Zeros(|m|) + [false];
    assert Zeros(16) == [false] + Zeros(15);
    forall i | 0 <= i < |m| + 17
      ensures Dividend(seed, m + [bit])[i] == Xor(Dividend(seed, m) + [false], Zeros(|m|) + ([bit] + Zeros(16)))[i]
    {
      if i < |m| {
        assert b[i] == m[i];
      } else if i == |m| {
        assert b[i] == bit;
      } else {
        assert !b[i];
      }
    }
  }

  lemma RegisterStep(r: Word16, bit: bool)
    ensures Xor([false] + Shift(Xor(r, [bit] + Zeros(15))), Factor(r[0] != bit)) == Xor(r + [false], [bit] + Zeros(16))
  {
    var x := Xor(r, [bit] + Zeros(15));
    assert x == [r[0] != bit] + r[1..];
    assert Xor(r + [false], [bit] + Zeros(16)) == x + [false];
    if x[0] {
      assert Xor(Xor(x[1..] + [false], GENERATOR), GENERATOR) == x[1..] + [false];
      assert Xor([false] + Shift(x), [true] + GENERATOR) == [true] + Xor(Shift(x), GENERATOR);
    } else {
      assert Xor([false] + Shift(x), Zeros(17)) == [false] + Shift(x);
    }
  }

  /** The column sums of one division step. */
  lemma AddColumns(d: Poly, t: Poly, r: Poly, r': Poly, factor: Poly, top: Poly, k: nat)
    requires |d| == |t| == k + 16 && |r| == |r'| == 16 && |factor| == |top| == 17
    requires d == Xor(t, Zeros(k) + r)
    requires Xor([false] + r', factor) == Xor(r + [false], top)
    ensures Xor(d + [false], Zeros(k) + top) == Xor(Xor(t + [false], Zeros(k) + factor), Zeros(k) + ([false] + r'))
  {
    forall i | 0 <= i < k + 17
      ensures Xor(d + [false], Zeros(k) + top)[i]
           == Xor(Xor(t + [false], Zeros(k) + factor), Zeros(k) + ([false] + r'))[i]
    {
      if k <= i {
        var j := i - k;
        assert Xor([false] + r', factor)[j] == Xor(r + [false], top)[j];
        assert i < k + 16 ==> d[i] == (t[i] != (Zeros(k) + r)[i]);
      }
    }
  }

  lemma {:induction false} TimesGeneratorLinear(p: Poly, q: Poly)
    requires |p| == |q|
    ensures TimesGenerator(Xor(p, q)) == Xor(TimesGenerator(p), TimesGenerator(q))
    decreases |p|
  {
    if p == [] {
      assert Xor(Zeros(16), Zeros(16)) == Zeros(16);
    } else {
      var k := |p| - 1;
      TimesGeneratorLinear(p[..k], q[..k]);
      assert Xor(p, q)[..k] == Xor(p[..k], q[..k]);
      FactorLinear(p[k], q[k]);
      AddRows(TimesGenerator(p[..k]), TimesGenerator(q[..k]), Factor(p[k]), Factor(q[k]), k);
    }
  }

  lemma FactorLinear(a: bool, b: bool)
    ensures Factor(a != b) == Xor(Factor(a), Factor(b))
  {
  }

  lemma AddRows(p: Poly, q: Poly, f: Poly, g: Poly, k: nat)
    requires |p| == |q| == k + 16 && |f| == |g| == 17
    ensures Xor(Xor(p, q) + [false], Zeros(k) + Xor(f, g))
         == Xor(Xor(p + [false], Zeros(k) + f), Xor(q + [false], Zeros(k) + g))
  {
  }

  /** A multiple of the generator that fits in sixteen coefficients is zero. */
  lemma {:induction false} SmallMultipleIsZero(q: Poly, r: Word16)
    requires TimesGenerator(q) == Zeros(|q|) + r
    ensures q == Zeros(|q|) && r == Zeros(16)
    decreases |q|
  {
    if q == [] {
      assert r == Zeros(0) + r == Zeros(16);
    } else {
      var k := |q| - 1;
      var p := TimesGenerator(q[..k]);
      LeadingCoefficients(p, Factor(q[k]), r, k);
      SmallMultipleIsZero(q[..k], p[k..]);
      LastRow(q[k], r, k);
      assert q == q[..k] + [q[k]];
    }
  }

  lemma LeadingCoefficients(p: Poly, f: Poly, r: Word16, k: nat)
    requires |p| == k + 16 && |f| == 17
    requires Xor(p + [false], Zeros(k) + f) == Zeros(k + 1) + r
    ensures p == Zeros(k) + p[k..]
  {
    forall i | 0 <= i < k ensures !p[i] {
      assert Xor(p + [false], Zeros(k) + f)[i] == ((p + [false])[i] != (Zeros(k) + f)[i]);
    }
  }

  lemma LastRow(bit: bool, r: Word16, k: nat)
    requires Xor(Zeros(k) + Zeros(16) + [false], Zeros(k) + Factor(bit)) == Zeros(k + 1) + r
    ensures !bit && r == Zeros(16)
  {
    var row, sum := Zeros(k) + Zeros(16) + [false], Zeros(k + 1) + r;
    assert sum[k] == (row[k] != (Zeros(k) + Factor(bit))[k]);
    assert Factor(bit)[0] == bit;
    forall i | 0 <= i < 16 ensures !r[i] {
      assert r[i] == sum[k + 1 + i] == (row[k + 1 + i] != (Zeros(k) + Factor(bit))[k + 1 + i]);
    }
  }

  lemma GeneratorIs1021()
    ensures ValueOf(GENERATOR) == 0x1021
  {
    assert PowerOfTwo(12) == 4096;
    assert GENERATOR[..4] == [false, false, false, true] && GENERATOR[4..8] == Zeros(4);
    assert GENERATOR[8..12] == [false, false, true, false] && GENERATOR[12..] == [false, false, false, true];
    Nibbles(GENERATOR);
    Nibble(GENERATOR[..4]);
    Nibble(GENERATOR[4..8]);
    Nibble(GENERATOR[8..12]);
    Nibble(GENERATOR[12..]);
  }

  lemma Nibbles(w: Word16)
    ensures ValueOf(w) == 4096 * ValueOf(w[..4]) + 256 * ValueOf(w[4..8]) + 16 * ValueOf(w[8..12]) + ValueOf(w[12..])
  {
    assert PowerOfTwo(4) == 16;
    var a, b, c, d := w[..4], w[4..8], w[8..12], w[12..];
    assert w == a + b + c + d;
    hide ValueOf, PowerOfTwo;
    ValueOfConcat(a + b + c, d);
    ValueOfConcat(a + b, c);
    ValueOfConcat(a, b);
  }

  lemma Nibble(w: Poly)
    requires |w| == 4
    ensures ValueOf(w) == (if w[0] then 8 else 0) + (if w[1] then 4 else 0) + (if w[2] then 2 else 0) + (if w[3] then 1 else 0)
  {
    assert w[..3][..2] == w[..2] && w[..2][..1] == w[..1] && w[..1][..0] == [];
    assert ValueOf(w[..1]) == if w[0] then 1 else 0;
    assert ValueOf(w[..2]) == 2 * ValueOf(w[..1]) + if w[1] then 1 else 0;
    assert ValueOf(w[..3]) == 2 * ValueOf(w[..2]) + if w[2] then 1 else 0;
  }

  /** `crc16_ccitt` is the remainder modulo 0x1021: a division exists, and every division has this remainder. */
  lemma CrcIsTheRemainder(seed: Word16, m: Poly)
    ensures exists quotient :: IsDivision(seed, m, quotient, Crc(seed, m))
    ensures forall quotient, r: Word16 :: IsDivision(seed, m, quotient, r) ==> r == Crc(seed, m)
    ensures ValueOf(GENERATOR) == 0x1021
  {
    GeneratorIs1021();
    var q := CrcIsRemainder(seed, m);
    var c := Crc(seed, m);
    forall quotient, r: Word16 | IsDivision(seed, m, quotient, r) ensures r == c {
      TimesGeneratorLinear(q, quotient);
      var sum := Xor(q, quotient);
      var rest: Word16 := Xor(c, r);
      forall i | 0 <= i < |m| + 16 ensures TimesGenerator(sum)[i] == (Zeros(|m|) + rest)[i] {
        assert Dividend(seed, m)[i] == (TimesGenerator(q)[i] != (Zeros(|m|) + c)[i]);
        assert Dividend(seed, m)[i] == (TimesGenerator(quotient)[i] != (Zeros(|m|) + r)[i]);
      }
      SmallMultipleIsZero(sum, rest);
      assert forall i :: 0 <= i < 16 ==> c[i] == r[i] by {
        assert forall i :: 0 <= i < 16 ==> !rest[i];
      }
    }
  }

  // ----- what the register detects -----

  /** A register that up to sixteen message bits bring to zero holds exactly those bits. */
  lemma {:induction false} ClearedRegister(c: Word16, m: Poly)
    requires |m| <= 16 && Crc(c, m) == Zeros(16)
    ensures c == m + Zeros(16 - |m|)
    decreases |m|
  {
    hide Shift, GENERATOR;
    if m != [] {
      var x := Xor(c, [m[0]] + Zeros(15));
      ClearedRegister(Shift(x), m[1..]);
      ShiftedOut(x);
      forall i | 0 <= i < 16 ensures c[i] == (m + Zeros(16 - |m|))[i] {
        if i > 0 {
          assert c[i] == x[i] == (m[1..] + Zeros(17 - |m|))[i - 1];
        }
      }
    }
  }

  lemma {:induction false} TrailingZeros(c: Word16, k: nat)
    requires Crc(c, Zeros(k)) == Zeros(16)
    ensures c == Zeros(16)
    decreases k
  {
    hide Shift, GENERATOR;
    if k > 0 {
      assert Zeros(k)[1..] == Zeros(k - 1);
      var x := Xor(c, [false] + Zeros(15));
      assert x == c;
      TrailingZeros(Shift(x), k - 1);
      ShiftedOut(x);
    }
  }

  lemma {:induction false} LeadingZeros(k: nat)
    ensures Crc(Zeros(16), Zeros(k)) == Zeros(16)
    decreases k
  {
    if k > 0 {
      assert Zeros(k)[1..] == Zeros(k - 1);
      assert Xor(Zeros(16), [false] + Zeros(15)) == Zeros(16);
      assert Shift(Zeros(16)) == Zeros(16);
      LeadingZeros(k - 1);
    }
  }

  /** A message that leaves the zero register at zero is not a burst of at most sixteen bits. */
  lemma BurstLeavesRemainder(d: Poly, from: nat, to: nat)
    requires from <= to <= |d| && to - from <= 16
    requires d == Zeros(from) + (d[from..to] + Zeros(|d| - to))
    requires Crc(Zeros(16), d) == Zeros(16)
    ensures d[from..to] == Zeros(to - from)
  {
    var burst := d[from..to];
    CrcComposes(Zeros(16), Zeros(from), burst + Zeros(|d| - to));
    LeadingZeros(from);
    CrcComposes(Zeros(16), burst, Zeros(|d| - to));
    TrailingZeros(Crc(Zeros(16), burst), |d| - to);
    ClearedRegister(Zeros(16), burst);
    assert burst == (burst + Zeros(16 - |burst|))[..|burst|];
  }

  /**
   Two different messages of one length whose differences all lie within sixteen consecutive bits
   have different CRCs, whatever the seed.
   */
  lemma BurstIsDetected(seed: Word16, m: Poly, n: Poly, start: nat)
    requires |m| == |n| && m != n
    requires forall k :: 0 <= k < |m| && m[k] != n[k] ==> start <= k < start + 16
    ensures Crc(seed, m) != Crc(seed, n)
  {
    hide Crc, Zeros;
    if Crc(seed, m) == Crc(seed, n) {
      var from, to := Min(start, |m|), Min(start + 16, |m|);
      EqualCrcsSumToZero(seed, m, n);
      SumOutsideWindow(m, n, from, to);
      BurstLeavesRemainder(Xor(m, n), from, to);
      SameWhereSumIsZero(m, n, from, to);
    }
  }

  lemma EqualCrcsSumToZero(seed: Word16, m: Poly, n: Poly)
    requires |m| == |n| && Crc(seed, m) == Crc(seed, n)
    ensures Crc(Zeros(16), Xor(m, n)) == Zeros(16)
  {
    CrcLinear(seed, seed, m, n);
    SelfSum(seed);
    SelfSum(Crc(seed, m));
  }

  lemma SelfSum(a: Poly)
    ensures Xor(a, a) == Zeros(|a|)
  {
  }

  lemma SumOutsideWindow(m: Poly, n: Poly, from: nat, to: nat)
    requires |m| == |n| && from <= to <= |m|
    requires forall k :: 0 <= k < |m| && m[k] != n[k] ==> from <= k < to
    ensures Xor(m, n) == Zeros(from) + (Xor(m, n)[from..to] + Zeros(|m| - to))
  {
  }

  lemma SameWhereSumIsZero(m: Poly, n: Poly, from: nat, to: nat)
    requires |m| == |n| && from <= to <= |m|
    requires Xor(m, n)[from..to] == Zeros(to - from)
    requires forall k :: 0 <= k < |m| && m[k] != n[k] ==> from <= k < to
    ensures m == n
  {
    forall k | 0 <= k < |m| ensures m[k] == n[k] {
      if from <= k < to {
        assert Xor(m, n)[k] == Xor(m, n)[from..to][k - from];
      }
    }
  }

  /** The same for byte strings. */
  lemma ByteBurstIsDetected(seed: Word16, a: seq<byte>, b: seq<byte>, start: nat)
    requires |a| == |b| && a != b
    requires forall k :: 0 <= k < 8 * |a| && Bits(a)[k] != Bits(b)[k] ==> start <= k < start + 16
    ensures Crc(seed, Bits(a)) != Crc(seed, Bits(b))
  {
    if Bits(a) == Bits(b) {
      BitsInjective(a, b);
    }
    BurstIsDetected(seed, Bits(a), Bits(b), start);
  }

  lemma {:induction false} BitsInjective(a: seq<byte>, b: seq<byte>)
    requires |a| == |b| && Bits(a) == Bits(b)
    ensures a == b
    decreases |a|
  {
    if a != [] {
      var k := |a| - 1;
      assert Bits(a)[..8 * k] == Bits(a[..k]) && Bits(a)[8 * k..] == ByteBits(a[k]);
      assert Bits(b)[..8 * k] == Bits(b[..k]) && Bits(b)[8 * k..] == ByteBits(b[k]);
      BitsInjective(a[..k], b[..k]);
      assert PowerOfTwo(8) == 256;
      ValueOfBits(a[k], 8);
      ValueOfBits(b[k], 8);
      assert a == a[..k] + [a[k]] && b == b[..k] + [b[k]];
    }
  }
}
