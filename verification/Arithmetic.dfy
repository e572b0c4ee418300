/**
 Powers and decimal numerals.
 */
module Arithmetic {

  function Pow(b: nat, n: nat): (r: nat)
    ensures b > 0 ==> r > 0
  {
    if n == 0 then 1 else b * Pow(b, n - 1)
  }

  lemma PowOne(b: nat)
    ensures Pow(b, 1) == b
  {
    assert Pow(b, 0) == 1;
  }

  lemma {:induction false} PowAdd(b: nat, m: nat, n: nat)
    ensures Pow(b, m + n) == Pow(b, m) * Pow(b, n)
  {
    if m > 0 {
      PowAdd(b, m - 1, n);
      Associative(b, Pow(b, m - 1), Pow(b, n));
    }
  }

  lemma {:induction false} PowProduct(a: nat, b: nat, n: nat)
    ensures Pow(a * b, n) == Pow(a, n) * Pow(b, n)
  {
    if n > 0 {
      PowProduct(a, b, n - 1);
      Shuffle(a, b, Pow(a, n - 1), Pow(b, n - 1));
    }
  }

  lemma {:induction false} PowMonotone(b: nat, m: nat, n: nat)
    requires b > 0 && m <= n
    ensures Pow(b, m) <= Pow(b, n)
  {
    if m < n {
      PowMonotone(b, m, n - 1);
      Multiply(1, b, Pow(b, n - 1));
    }
  }

  lemma Associative(x: int, y: int, z: int)
    ensures x * y * z == x * (y * z)
  {
  }

  lemma Shuffle(a: int, b: int, x: int, y: int)
    ensures a * b * (x * y) == a * x * (b * y)
  {
    calc {
      a * b * (x * y);
      { Associative(a, b, x * y); }
      a * (b * (x * y));
      { Associative(b, x, y); }
      a * (b * x * y);
      { Associative(x, b, y); }
      a * (x * (b * y));
      { Associative(a, x, b * y); }
      a * x * (b * y);
    }
  }

  lemma Multiply(x: int, y: int, k: nat)
    requires x <= y
    ensures x * k <= y * k
  {
  }

  predicate IsDigit(c: char) { '0' <= c <= '9' }

  predicate AllDigits(t: string) {
    forall k :: 0 <= k < |t| ==> IsDigit(t[k])
  }

  function Digit(c: char): (r: nat)
    requires IsDigit(c)
    ensures r <= 9
  {
    c as int - '0' as int
  }

  const DECIMALS := "0123456789"

  lemma DecimalDigits(c: char)
    ensures c in DECIMALS <==> '0' <= c <= '9'
  {
    assert forall k :: 0 <= k < 10 ==> DECIMALS[k] as int == '0' as int + k;
    if '0' <= c <= '9' {
      assert DECIMALS[c as int - '0' as int] == c;
    }
  }

  /** The digits are those ten, each with its place as its value. */
  lemma DigitValues(n: nat, c: char)
    ensures IsDigit(c) <==> c in DECIMALS
    ensures n < 10 ==> IsDigit(DECIMALS[n]) && Digit(DECIMALS[n]) == n
  {
    DecimalDigits(c);
  }

  /** The number that a string of decimal digits denotes. */
  function Decimal(t: string): nat
    requires AllDigits(t)
  {
    if t == "" then 0 else Decimal(t[..|t| - 1]) * 10 + Digit(t[|t| - 1])
  }

  lemma {:induction false} DecimalBound(t: string)
    requires AllDigits(t)
    ensures Decimal(t) < Pow(10, |t|)
  {
    if t != "" {
      DecimalBound(t[..|t| - 1]);
    }
  }

  lemma DecimalLast(t: string, c: char)
    requires AllDigits(t) && IsDigit(c)
    ensures AllDigits(t + [c]) && Decimal(t + [c]) == Decimal(t) * 10 + Digit(c)
  {
    assert (t + [c])[..|t|] == t;
  }

  lemma {:induction false} DecimalConcat(t: string, u: string)
    requires AllDigits(t) && AllDigits(u)
    ensures AllDigits(t + u) && Decimal(t + u) == Decimal(t) * Pow(10, |u|) + Decimal(u)
  {
    if u == "" {
      assert t + u == t;
    } else {
      hide Decimal;
      var n, c := |u| - 1, u[|u| - 1];
      DecimalConcat(t, u[..n]);
      assert t + u == (t + u[..n]) + [c] && u == u[..n] + [c];
      DecimalLast(t + u[..n], c);
      DecimalLast(u[..n], c);
      Distribute(Decimal(t), Pow(10, n), Decimal(u[..n]), Digit(c));
    }
  }

  lemma Distribute(d: int, p: int, e: int, c: int)
    ensures (d * p + e) * 10 + c == d * (10 * p) + (e * 10 + c)
  {
  }
}
