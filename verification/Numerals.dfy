/** Numbers as printf's %d and %u write them, and as digits are read back. */
module Numerals {
  import opened Words

  predicate IsDigit(c: char) {
    '0' <= c <= '9'
  }

  function Value(d: string): nat
    requires forall i :: 0 <= i < |d| ==> IsDigit(d[i])
  {
    if d == [] then 0 else 10 * Value(d[..|d| - 1]) + DigitValue(d[|d| - 1])
  }

  function DigitValue(c: char): nat
    requires IsDigit(c)
  {
    (c - '0') as nat
  }

  function Digit(n: nat): (c: char)
    requires n < 10
    ensures IsDigit(c) && DigitValue(c) == n
  {
    '0' + n as char
  }

  function Decimal(n: nat): (d: string)
    ensures d != [] && forall i :: 0 <= i < |d| ==> IsDigit(d[i])
  {
    if n < 10 then [Digit(n)] else Decimal(n / 10) + [Digit(n % 10)]
  }

  function SignedDecimal(n: int): string {
    if n < 0 then ['-'] + Decimal(0 - n) else Decimal(n)
  }

  lemma {:induction false} ValueOfDecimal(n: nat)
    ensures Value(Decimal(n)) == n
  {
    if n >= 10 {
      ValueOfDecimal(n / 10);
      assert Decimal(n)[..|Decimal(n)| - 1] == Decimal(n / 10);
    } else {
      assert Decimal(n)[..0] == [];
    }
  }

  /** Digits as one reads them, from the left. */
  function ReadOn(n: nat, d: string): nat
    requires forall i :: 0 <= i < |d| ==> IsDigit(d[i])
    decreases |d|
  {
    if |d| == 0 then n else assert IsDigit(d[0]); ReadOn(10 * n + (d[0] - '0') as nat, d[1..])
  }

  lemma {:induction false} ReadOnLast(n: nat, d: string, c: char)
    requires (forall i :: 0 <= i < |d| ==> IsDigit(d[i])) && IsDigit(c)
    ensures ReadOn(n, d + [c]) == 10 * ReadOn(n, d) + (c - '0') as nat
    decreases |d|
  {
    if d == [] {
      assert (d + [c])[1..] == [];
    } else {
      assert (d + [c])[1..] == d[1..] + [c];
      ReadOnLast(10 * n + (d[0] - '0') as nat, d[1..], c);
    }
  }

  /** A printed number reads as itself, and has no leading zero. */
  lemma {:induction false} ReadOfDecimal(n: nat)
    ensures ReadOn(0, Decimal(n)) == n && (Decimal(n)[0] == '0' ==> n == 0)
  {
    if n >= 10 {
      ReadOfDecimal(n / 10);
      ReadOnLast(0, Decimal(n / 10), Digit(n % 10));
    } else {
      assert Decimal(n)[1..] == [];
    }
  }

  lemma {:induction false} ReadIsValue(d: string)
    requires forall i :: 0 <= i < |d| ==> IsDigit(d[i])
    ensures ReadOn(0, d) == Value(d)
  {
    if d != [] {
      var init, last := d[..|d| - 1], d[|d| - 1];
      ReadIsValue(init);
      assert d == init + [last];
      ReadOnLast(0, init, last);
    }
  }

  function PowerOfTen(k: nat): (p: nat)
    ensures p > 0
  {
    if k == 0 then 1 else 10 * PowerOfTen(k - 1)
  }

  lemma {:induction false} DecimalLength(n: nat, k: nat)
    requires k > 0 && n < PowerOfTen(k)
    ensures |Decimal(n)| <= k
  {
    if n >= 10 {
      assert k > 1 && n / 10 < PowerOfTen(k - 1);
      DecimalLength(n / 10, k - 1);
    }
  }

  lemma U64Digits(n: u64)
    ensures |Decimal(n)| <= 20
  {
    assert PowerOfTen(5) == 100000;
    assert PowerOfTen(10) == 100000 * PowerOfTen(5) == 10000000000;
    assert PowerOfTen(15) == 100000 * PowerOfTen(10) == 1000000000000000;
    assert PowerOfTen(20) == 100000 * PowerOfTen(15) == 100000000000000000000;
    DecimalLength(n, 20);
  }

  lemma I32Digits(n: i32)
    ensures |SignedDecimal(n)| <= 11
  {
    assert PowerOfTen(5) == 100000;
    assert PowerOfTen(10) == 100000 * PowerOfTen(5) == 10000000000;
    DecimalLength(if n < 0 then 0 - n else n, 10);
  }
}
