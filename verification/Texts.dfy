/**
 Texts within texts, and hexadecimal digits.
 */
module Texts {

  /** The text `t` stands at position `i`. */
  predicate At(s: string, i: nat, t: string) {
    i + |t| <= |s| && s[i..i + |t|] == t
  }

  lemma AtConcat(s: string, i: nat, a: string, b: string)
    requires At(s, i, a + b)
    ensures At(s, i, a) && At(s, i + |a|, b)
  {
    assert s[i..i + |a|] == s[i..i + |a + b|][..|a|];
    assert s[i + |a|..i + |a| + |b|] == s[i..i + |a + b|][|a|..];
  }

  lemma AtThree(s: string, i: nat, a: string, b: string, c: string)
    requires At(s, i, a + b + c)
    ensures At(s, i, a) && At(s, i + |a|, b) && At(s, i + |a| + |b|, c)
  {
    AtConcat(s, i, a + b, c);
    AtConcat(s, i, a, b);
  }

  lemma AtIndex(s: string, i: nat, t: string, k: nat)
    requires At(s, i, t) && k < |t|
    ensures i + k < |s| && s[i + k] == t[k]
  {
    assert s[i..i + |t|][k] == s[i + k];
  }

  lemma AtSlice(s: string, i: nat, t: string, a: nat, b: nat)
    requires At(s, i, t) && a <= b <= |t|
    ensures s[i + a..i + b] == t[a..b]
  {
    forall k | 0 <= k < b - a
      ensures s[i + a..i + b][k] == t[a..b][k]
    {
      AtIndex(s, i, t, a + k);
    }
  }

  /** The value of a hexadecimal digit, or -1. */
  function HexValue(c: char): (r: int)
    ensures -1 <= r < 16
  {
    if '0' <= c <= '9' then c as int - '0' as int
    else if 'A' <= c <= 'F' then c as int - 'A' as int + 10
    else if 'a' <= c <= 'f' then c as int - 'a' as int + 10
    else -1
  }

  /** An upper-case hexadecimal digit. */
  function HexDigit(n: nat): char
    requires n < 16
  {
    "0123456789ABCDEF"[n]
  }

  lemma HexDigitValue(n: nat)
    requires n < 16
    ensures HexValue(HexDigit(n)) == n
  {
  }

  // ----- Hexadecimal numerals -----

  const LOWER_HEX := "0123456789abcdef"
  const UPPER_HEX := "0123456789ABCDEF"

  /** Each digit has its place in the alphabet as its value, and there are no others. */
  lemma HexValues(n: nat, c: char)
    ensures n < 16 ==> HexValue(LOWER_HEX[n]) == n == HexValue(UPPER_HEX[n]) && HexDigit(n) == UPPER_HEX[n]
    ensures HexValue(c) >= 0 <==> c in LOWER_HEX || c in UPPER_HEX
  {
    HexAlphabets(c);
    if HexValue(c) >= 0 {
      var k := HexValue(c);
      assert LOWER_HEX[k] == c || UPPER_HEX[k] == c;
    }
  }

  lemma HexAlphabets(c: char)
    ensures c in LOWER_HEX || c in UPPER_HEX ==> HexValue(c) >= 0
  {
    assert forall k :: 0 <= k < 16 ==> HexValue(LOWER_HEX[k]) == k;
    assert forall k :: 0 <= k < 16 ==> HexValue(UPPER_HEX[k]) == k;
  }

  /** The place of a character in an alphabet, or the length of the alphabet. */
  function Place(alphabet: string, c: char): (k: nat)
    ensures k <= |alphabet|
    ensures k < |alphabet| ==> alphabet[k] == c
    ensures c in alphabet ==> k < |alphabet|
  {
    if alphabet == "" || alphabet[0] == c then 0 else 1 + Place(alphabet[1..], c)
  }

  predicate IsHexadecimal(t: string) {
    forall k :: 0 <= k < |t| ==> t[k] in LOWER_HEX || t[k] in UPPER_HEX
  }

  /** The number that a string of hexadecimal digits denotes, by the places of its digits in the alphabets. */
  function Hexadecimal(t: string): nat
    requires IsHexadecimal(t)
  {
    if t == "" then 0
    else
      var n := |t| - 1;
      Hexadecimal(t[..n]) * 16 + if t[n] in LOWER_HEX then Place(LOWER_HEX, t[n]) else Place(UPPER_HEX, t[n])
  }

  lemma HexadecimalLast(t: string, c: char)
    requires IsHexadecimal(t) && (c in LOWER_HEX || c in UPPER_HEX)
    ensures IsHexadecimal(t + [c]) && Hexadecimal(t + [c]) == Hexadecimal(t) * 16 + HexValue(c)
  {
    hide HexValue, HexDigit, LOWER_HEX, UPPER_HEX;
    assert (t + [c])[..|t|] == t;
    LowerPlace(c);
  }

  lemma TwoDigits(a: char, b: char)
    ensures HexValue(a) >= 0 && HexValue(b) >= 0 <==> IsHexadecimal([a, b])
    ensures IsHexadecimal([a, b]) ==> Hexadecimal([a, b]) == HexValue(a) * 16 + HexValue(b)
  {
    hide HexValue, HexDigit, LOWER_HEX, UPPER_HEX;
    HexValues(0, a);
    HexValues(0, b);
    if IsHexadecimal([a, b]) {
      assert [a, b][0] == a && [a, b][1] == b;
      HexadecimalLast("", a);
      HexadecimalLast([a], b);
      assert "" + [a] == [a] && [a] + [b] == [a, b];
    }
  }

  lemma LowerPlace(c: char)
    ensures c in LOWER_HEX ==> Place(LOWER_HEX, c) == HexValue(c)
    ensures c in UPPER_HEX ==> Place(UPPER_HEX, c) == HexValue(c)
  {
    hide Place;
    HexValues(Place(LOWER_HEX, c), c);
    HexValues(Place(UPPER_HEX, c), c);
  }
}
