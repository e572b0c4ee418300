/**
 The grammar of JSON texts (RFC 8259, sections 2 to 7) and the trees that they
 denote. The parser accepts exactly the texts of the grammar, and its events are
 those of the tree.
 */
module JsonGrammar {
  import opened Json
  import opened Arithmetic
  import opened Reader
  import opened Texts
  import opened PrintParse
  import opened Documents
  import E = Encodings
  import R = Reader
  import I = IterativeReader
  import GR = GenericReaders

  // ----- Numbers -----

  predicate IsInt(t: string) {
    t != "" && AllDigits(t) && (|t| > 1 ==> t[0] != '0')
  }

  predicate IsFrac(t: string) {
    t == "" || (|t| > 1 && t[0] == '.' && AllDigits(t[1..]))
  }

  predicate IsExp(t: string) {
    t == "" || (|t| > 1 && (t[0] == 'e' || t[0] == 'E') && SignLength(t) < |t| && AllDigits(t[SignLength(t)..]))
  }

  /** The length of the letter of an exponent and its sign. */
  function SignLength(t: string): nat
    requires |t| > 1
  {
    if t[1] == '+' || t[1] == '-' then 2 else 1
  }

  function MinusLength(t: string): nat {
    if t != "" && t[0] == '-' then 1 else 0
  }

  /** The integer part ends at `b` and the fraction at `c`. */
  predicate NumberParts(t: string, b: nat, c: nat) {
    MinusLength(t) <= b <= c <= |t| && IsInt(t[MinusLength(t)..b]) && IsFrac(t[b..c]) && IsExp(t[c..])
  }

  /** Section 6. */
  ghost predicate IsNumber(t: string) {
    exists b, c :: NumberParts(t, b, c)
  }

  /** An integer of 64 bits, signed or unsigned, is denoted exactly; anything else is a double. */
  function NumberValue(t: string): Value {
    var digits := t[MinusLength(t)..];
    if !AllDigits(digits) then Double(t)
    else
      var n := if MinusLength(t) == 1 then 0 - Decimal(digits) else Decimal(digits);
      if -0x8000_0000_0000_0000 <= n < 0x1_0000_0000_0000_0000 then Number(n) else Double(t)
  }

  /** The digits of the exponent that starts at `c`. */
  function ExpDigits(t: string, c: nat): (d: string)
    requires c < |t| && IsExp(t[c..])
    ensures AllDigits(d)
  {
    t[c..][SignLength(t[c..])..]
  }

  /** The fraction digits that enter the significand, from the integer part up to `b` and the fraction up to `c`. */
  function CountedDigits(t: string, b: nat, c: nat): nat
    requires NumberParts(t, b, c)
  {
    if b < c then Counted(t[MinusLength(t)..b], t[b..c][1..]) else 0
  }

  function LeadingZeros(t: string): nat {
    if t == "" || t[0] != '0' then 0 else 1 + LeadingZeros(t[1..])
  }

  /** After a zero, seventeen fraction digits count from the first other digit on; otherwise eighteen digits in all. */
  function Counted(whole: string, fraction: string): nat {
    var most := if whole == "0" then LeadingZeros(fraction) + 17 else if |whole| < 18 then 18 - |whole| else 0;
    if most < |fraction| then most else |fraction|
  }

  function Least(n: nat, most: int): nat {
    if most < 0 then 0 else if most < n then most else n
  }

  lemma {:induction false} DoubleFractionIs(t: string, digits: nat)
    requires AllDigits(t)
    ensures DoubleFraction(t, digits, true) == Least(|t|, 17 - digits)
    decreases |t|
  {
    if t != "" {
      DoubleFractionIs(t[1..], if digits < 17 then digits + 1 else digits);
    }
  }

  /** A significand that fits 53 bits has at most seventeen digits. */
  lemma FewDigits(significand: nat, digits: nat)
    requires Pow(10, digits) <= 10 * significand && significand <= 0x1F_FFFF_FFFF_FFFF
    ensures digits < 17
  {
    GR.TenTo17();
    if digits >= 17 {
      PowMonotone(10, 17, digits);
    }
  }

  lemma {:induction false} IntegerFractionIs(t: string, significand: nat, digits: nat)
    requires AllDigits(t) && Pow(10, digits) <= 10 * significand
    ensures IntegerFraction(t, significand, digits) == Least(|t|, 17 - digits)
    decreases |t|
  {
    if t != "" {
      if significand > 0x1F_FFFF_FFFF_FFFF {
        DoubleFractionIs(t, digits);
      } else {
        FewDigits(significand, digits);
        IntegerFractionIs(t[1..], significand * 10 + Digit(t[0]), digits + 1);
      }
    }
  }

  lemma {:induction false} ZeroFractionIs(t: string)
    requires AllDigits(t)
    ensures IntegerFraction(t, 0, 0) == Least(|t|, LeadingZeros(t) + 17)
    decreases |t|
  {
    if t != "" {
      if t[0] == '0' {
        ZeroFractionIs(t[1..]);
      } else {
        PowOne(10);
        IntegerFractionIs(t[1..], Digit(t[0]), 1);
      }
    }
  }

  lemma {:induction false} AtLeast(t: string)
    requires t != "" && AllDigits(t) && t[0] != '0'
    ensures Pow(10, |t| - 1) <= Decimal(t)
  {
    var n := |t| - 1;
    if n == 0 {
      DecimalLast("", t[0]);
      assert "" + [t[0]] == t;
    } else {
      AtLeast(t[..n]);
    }
  }

  /** The loops that read a fraction count exactly these digits of it. */
  lemma FractionDigitsAre(minus: bool, whole: string, fraction: string)
    requires IsInt(whole) && AllDigits(fraction)
    ensures FractionDigits(minus, whole, fraction) == Counted(whole, fraction)
  {
    hide Pow, Decimal, LeadingZeros, DoubleFraction, IntegerFraction;
    if IntegerEvent(minus, Decimal(whole)).None? {
      GR.ManyDigits(whole);
      DoubleFractionIs(fraction, 17);
    } else if whole[0] == '0' {
      assert whole == "0";
      GR.ZeroDecimal();
      ZeroFractionIs(fraction);
    } else {
      AtLeast(whole);
      IntegerFractionIs(fraction, Decimal(whole), |whole| - 1);
    }
  }

  predicate PartsInRange(t: string, b: nat, c: nat, opt: Options)
    requires NumberParts(t, b, c)
  {
    && (c < |t| && t[c..][1] != '-' ==> Decimal(ExpDigits(t, c)) <= 308 + CountedDigits(t, b, c))
    && (NumberValue(t).Double? ==> !opt.tooBig(t))
  }

  /**
   The range that section 6 leaves to the parser: a positive exponent is at most
   308 plus the fraction digits that count, and a double is not beyond the largest.
   */
  ghost predicate InRange(t: string, opt: Options) {
    exists b, c :: NumberParts(t, b, c) && PartsInRange(t, b, c, opt)
  }

  /** `p` is a parse of the number `t` at `i`. */
  ghost predicate ParsesNumber(p: Parsed, t: string, i: nat) {
    p.error.None? && p.pos == i + |t| && EventsOf(p.events, Accept(NumberValue(t)))
  }

  lemma {:induction false} DigitsUpTo(s: string, i: nat, j: nat)
    requires i <= j <= |s| && AllDigits(s[i..j]) && !IsDigit(Peek(s, j))
    ensures DigitsEnd(s, i) == j
    decreases j - i
  {
    if i < j {
      assert s[i] == s[i..j][0];
      assert s[i + 1..j] == s[i..j][1..];
      DigitsUpTo(s, i + 1, j);
    }
  }

  /** The integer digits, the fraction and the exponent of a number are found where they are. */
  lemma IntFound(t: string, b: nat, c: nat)
    requires NumberParts(t, b, c)
    ensures var a := MinusLength(t);
            a == WholeStart(t, 0) && IsDigit(Peek(t, a)) && WholeEnd(t, a) == b && !IsDigit(Peek(t, b))
  {
    hide Decimal, DigitsEnd;
    var a := MinusLength(t);
    assert t[a..b][0] == t[a];
    if b < c {
      assert t[b..c][0] == t[b];
    } else if c < |t| {
      assert t[c..][0] == t[c];
    }
    if t[a] != '0' {
      DigitsUpTo(t, a, b);
    }
  }

  lemma FracFound(t: string, b: nat, c: nat)
    requires NumberParts(t, b, c)
    ensures FractionEnd(t, b) == c && (Peek(t, b) == '.' ==> IsDigit(Peek(t, b + 1))) && !IsDigit(Peek(t, c))
    ensures Peek(t, b) == '.' <==> b < c
    ensures b < c ==> t[b..c][1..] == t[b + 1..c]
  {
    hide DigitsEnd, IsInt;
    if c < |t| {
      assert t[c..][0] == t[c];
    }
    if b < c {
      assert t[b..c][0] == t[b] && t[b..c][1] == t[b + 1] && t[b..c][1..] == t[b + 1..c];
      DigitsUpTo(t, b + 1, c);
    }
  }

  lemma ExpFound(t: string, b: nat, c: nat, scale: nat)
    requires NumberParts(t, b, c)
    ensures R.ParseExponent(t, c, 0, scale) ==
            if c < |t| && t[c..][1] != '-' && Decimal(ExpDigits(t, c)) > 308 + scale then Fail(NumberTooBig, 0) else Done(|t|, [])
  {
    hide DigitsEnd, Decimal, IsInt, IsFrac;
    var e := t[c..];
    if e != "" {
      assert e[0] == t[c] && e[1] == t[c + 1];
      var j := c + SignLength(e);
      assert e[SignLength(e)..] == t[j..] && t[j] == e[SignLength(e)];
      assert t[j..|t|] == t[j..];
      DigitsUpTo(t, j, |t|);
    }
  }

  lemma ScaleIs(t: string, b: nat, c: nat)
    requires NumberParts(t, b, c)
    ensures var a := MinusLength(t);
            AllDigits(t[a..b]) && a < b && Scale(t, a, b, a == 1) == CountedDigits(t, b, c)
  {
    hide DigitsEnd, Decimal, FractionDigits, Counted, IsExp;
    FracFound(t, b, c);
    if b < c {
      FractionDigitsAre(MinusLength(t) == 1, t[MinusLength(t)..b], t[b..c][1..]);
    }
  }

  /** The parser reads a number to its end if it is in range, and says that it is too big otherwise. */
  lemma NumberIsRead(t: string, b: nat, c: nat, opt: Options)
    requires NumberParts(t, b, c)
    ensures var p := ParseNumber(t, 0, opt);
            if PartsInRange(t, b, c, opt) then ParsesNumber(p, t, 0) else p == Fail(NumberTooBig, 0)
  {
    hide Decimal, DigitsEnd, WholeEnd, FractionEnd, Scale, R.ParseExponent, R.ParseNumber, IsInt, IsFrac, IsExp, Rereads,
         CountedDigits, ExpDigits, NumberResult;
    IntFound(t, b, c);
    FracFound(t, b, c);
    var a := MinusLength(t);
    ScaleIs(t, b, c);
    ExpFound(t, b, c, CountedDigits(t, b, c));
    NumberShape(t, 0, opt);
    assert t[0..|t|] == t && t[a..|t|] == t[a..];
    NumberMeans(t, b, c, opt);
  }

  /** The event of a number is that of the value it denotes, unless that is a double beyond the largest one. */
  lemma NumberMeans(t: string, b: nat, c: nat, opt: Options)
    requires NumberParts(t, b, c)
    ensures AllDigits(t[MinusLength(t)..b])
    ensures var e := NumberResult(MinusLength(t) == 1, t[MinusLength(t)..b], b == |t|, t, opt);
            && (e.None? <==> NumberValue(t).Double? && opt.tooBig(t))
            && (e.Some? ==> EventsOf([e.value], Accept(NumberValue(t))))
  {
    hide Decimal;
    PlainNumber(t, b, c);
  }

  /** Digits only, after the sign, are those of a number without fraction and exponent. */
  lemma PlainNumber(t: string, b: nat, c: nat)
    requires NumberParts(t, b, c)
    ensures if b == |t| then t[MinusLength(t)..b] == t[MinusLength(t)..] else !AllDigits(t[MinusLength(t)..])
  {
    hide IsInt, SignLength;
    if b < |t| {
      assert b < c ==> t[b..c][0] == t[b];
      assert b == c ==> t[c..][0] == t[c];
      assert t[MinusLength(t)..][b - MinusLength(t)] == t[b] && !IsDigit(t[b]);
    }
  }

  /** A number that the parser reads in a text. */
  lemma NumberIsGrammatical(s: string, i: nat, opt: Options)
    requires i <= |s| && R.ParseNumber(s, i, opt).error.None?
    ensures var p := R.ParseNumber(s, i, opt);
            var t := s[i..p.pos];
            IsNumber(t) && InRange(t, opt) && ParsesNumber(p, t, i)
  {
    hide Decimal, DigitsEnd, WholeEnd, FractionEnd, Scale, R.ParseExponent, R.ParseNumber, NumberParts, NumberResult, EventsOf,
         NumberValue, IsDigit, Peek;
    NumberSucceeds(s, i, opt);
    NumberShape(s, i, opt);
    var p := R.ParseNumber(s, i, opt);
    var t := s[i..p.pos];
    var j := WholeStart(s, i);
    var point := WholeEnd(s, j);
    var b, c := point - i, FractionEnd(s, point) - i;
    var scale := Scale(s, j, point, j == i + 1);
    PartsRead(s, i, p.pos, scale);
    NumberReadAlone(s, i, t, b, c, scale, opt);
    NumberMeans(t, b, c, opt);
    hide PartsInRange;
    NumberIsRead(t, b, c, opt);
    assert PartsInRange(t, b, c, opt);
  }

  /** The number is parsed alike without its context. */
  lemma NumberReadAlone(s: string, i: nat, t: string, b: nat, c: nat, scale: nat, opt: Options)
    requires At(s, i, t) && NumberParts(t, b, c) && IsDigit(Peek(s, WholeStart(s, i)))
    requires WholeEnd(s, WholeStart(s, i)) == i + b && FractionEnd(s, i + b) == i + c
    requires Peek(s, i + b) == '.' ==> IsDigit(Peek(s, i + b + 1))
    requires scale == Scale(s, WholeStart(s, i), i + b, WholeStart(s, i) == i + 1)
    requires R.ParseExponent(s, i + c, i, scale) == Done(i + |t|, [])
    ensures var a := MinusLength(t);
            && a < b && WholeStart(s, i) == i + a && t[a..b] == s[i + a..i + b]
            && R.ParseNumber(t, 0, opt) == (var e := NumberResult(a == 1, t[a..b], b == |t|, t, opt);
                                            if e.Some? then Done(|t|, [e.value]) else Fail(NumberTooBig, 0))
  {
    hide Decimal, DigitsEnd, Scale, R.ParseExponent, R.ParseNumber, IsFrac, IsExp, NumberResult, WholeEnd;
    var a := MinusLength(t);
    AtPeek(s, i, t, 0);
    IntFound(t, b, c);
    FracFound(t, b, c);
    ScaleSame(s, i, t, b, c);
    ExpSame(s, i, t, b, c, scale);
    NumberShape(t, 0, opt);
    assert t[0..|t|] == t;
  }

  lemma IntRead(s: string, j: nat)
    requires j <= |s| && IsDigit(Peek(s, j))
    ensures IsInt(s[j..WholeEnd(s, j)])
  {
    hide DigitsEnd, IsDigit;
  }

  lemma FracRead(s: string, point: nat)
    requires point <= |s| && (Peek(s, point) == '.' ==> IsDigit(Peek(s, point + 1)))
    ensures IsFrac(s[point..FractionEnd(s, point)])
  {
    var end := FractionEnd(s, point);
    assert point < end ==> s[point..end][1..] == s[point + 1..end];
  }

  lemma ExpRead(s: string, c: nat, start: nat, scale: nat)
    requires c <= |s| && R.ParseExponent(s, c, start, scale).error.None?
    ensures IsExp(s[c..R.ParseExponent(s, c, start, scale).pos])
  {
    hide Decimal;
    var end := R.ParseExponent(s, c, start, scale).pos;
    if c < end {
      var e := s[c..end];
      assert e[SignLength(e)..] == s[c + SignLength(e)..end];
    }
  }

  /** The parts of a number that was read are those of the grammar. */
  lemma PartsRead(s: string, i: nat, end: nat, scale: nat)
    requires i <= |s| && IsDigit(Peek(s, WholeStart(s, i)))
    requires var point := WholeEnd(s, WholeStart(s, i));
             && (Peek(s, point) == '.' ==> IsDigit(Peek(s, point + 1)))
             && R.ParseExponent(s, FractionEnd(s, point), i, scale) == Done(end, [])
    ensures var point := WholeEnd(s, WholeStart(s, i));
            i < point <= FractionEnd(s, point) <= end <= |s| && NumberParts(s[i..end], point - i, FractionEnd(s, point) - i)
  {
    hide DigitsEnd, WholeEnd, FractionEnd, R.ParseExponent, IsDigit, IsInt, IsFrac, IsExp;
    var t := s[i..end];
    var j := WholeStart(s, i);
    var point := WholeEnd(s, j);
    var c := FractionEnd(s, point);
    IntRead(s, j);
    FracRead(s, point);
    ExpRead(s, c, i, scale);
    AtSlice(s, i, t, j - i, point - i);
    AtSlice(s, i, t, point - i, c - i);
    AtSlice(s, i, t, c - i, |t|);
    assert t[c - i..|t|] == t[c - i..];
  }

  lemma ScaleSame(s: string, i: nat, t: string, b: nat, c: nat)
    requires At(s, i, t) && NumberParts(t, b, c) && i + b <= |s|
    requires FractionEnd(s, i + b) == i + c && (Peek(s, i + b) == '.' <==> b < c)
    ensures var a := MinusLength(t);
            a < b && AllDigits(t[a..b]) && t[a..b] == s[i + a..i + b] && Scale(s, i + a, i + b, a == 1) == Scale(t, a, b, a == 1)
  {
    hide Decimal, DigitsEnd, WholeEnd, FractionDigits, IsFrac, IsExp, At;
    AtSlice(s, i, t, MinusLength(t), b);
    FracFound(t, b, c);
    if b < c {
      AtSlice(s, i, t, b + 1, c);
    }
  }

  lemma ExpSame(s: string, i: nat, t: string, b: nat, c: nat, scale: nat)
    requires At(s, i, t) && NumberParts(t, b, c) && R.ParseExponent(s, i + c, i, scale) == Done(i + |t|, [])
    ensures R.ParseExponent(t, c, 0, scale) == Done(|t|, [])
  {
    hide Decimal, DigitsEnd, IsInt, IsFrac, At;
    var e := t[c..];
    if e != "" {
      AtPeek(s, i, t, c);
      AtPeek(s, i, t, c + 1);
      assert e[0] == t[c] && e[1] == t[c + 1];
      var j := c + SignLength(e);
      assert e[SignLength(e)..] == t[j..] && t[j] == e[SignLength(e)] && t[j..|t|] == t[j..];
      AtPeek(s, i, t, j);
      DigitsUpTo(t, j, |t|);
      AtSlice(s, i, t, j, |t|);
    }
  }

  // ----- Strings -----

  /** What may stand after a backslash, and the code that it denotes. */
  const ESCAPED := "\"\\/bfnrt"
  const DENOTED: seq<nat> := [0x22, 0x5C, 0x2F, 0x08, 0x0C, 0x0A, 0x0D, 0x09]

  /** `b` begins with `u` and four hexadecimal digits, after a character. */
  predicate HasCode(b: string) {
    |b| >= 6 && b[1] == 'u' && IsHexadecimal(b[2..6])
  }

  function Code(b: string): nat
    requires HasCode(b)
  {
    Hexadecimal(b[2..6])
  }

  /** The length of the character that `b` begins with, as it is or as an escape; 0 if there is none. */
  function CharLength(b: string): (n: nat)
    ensures n <= |b|
  {
    if b == "" then 0
    else if b[0] == '\\' then
      if |b| >= 2 && b[1] in ESCAPED then 2
      else if HasCode(b) then 6
      else 0
    else if b[0] as int >= 0x20 && b[0] != '"' then 1 else 0
  }

  predicate IsHigh(b: string) { CharLength(b) == 6 && 0xD800 <= Code(b) <= 0xDBFF }

  predicate IsLow(b: string) { CharLength(b) == 6 && 0xDC00 <= Code(b) <= 0xDFFF }

  predicate IsPair(b: string) { IsHigh(b) && IsLow(b[6..]) }

  /** The UTF-8 code units that a character stands for; those of its code if it is a surrogate. */
  function CharText(b: string): string
    requires CharLength(b) > 0
  {
    if CharLength(b) == 1 then [b[0]]
    else if CharLength(b) == 2 then [DENOTED[Place(ESCAPED, b[1])] as char]
    else CodeText(b)
  }

  function CodeText(b: string): string
    requires HasCode(b)
  {
    CodeBelow(b);
    Units(Code(b))
  }

  /** The code units of a code point are its bytes by RFC 3629, section 3, one character each. */
  lemma UnitsAre(c: int, bytes: seq<E.byte>)
    requires 0 <= c <= 0x10FFFF
    ensures E.IsUtf8Of(bytes, c) <==> |bytes| == |Units(c)| && forall k :: 0 <= k < |bytes| ==> Units(c)[k] as int == bytes[k]
  {
    hide E.EncodeUtf8, E.IsUtf8Of;
    E.EncodeUtf8Is(c, bytes);
    if |bytes| == |Units(c)| && forall k :: 0 <= k < |bytes| ==> Units(c)[k] as int == bytes[k] {
      assert bytes == E.EncodeUtf8(c);
    }
  }

  /** The code units of the character beyond the basic plane that a pair of surrogates stands for. */
  function PairText(b: string): string
    requires IsPair(b)
  {
    SurrogateText(Code(b), Code(b[6..]))
  }

  function SurrogateText(high: nat, low: nat): string
    requires 0xD800 <= high <= 0xDBFF && 0xDC00 <= low <= 0xDFFF
  {
    Units((high - 0xD800) * 0x400 + (low - 0xDC00) + 0x1_0000)
  }

  /** Four digits denote what the parser makes of them. */
  lemma CodeBelow(b: string)
    ensures |b| >= 6 ==> (Hex4(b, 2) >= 0 <==> IsHexadecimal(b[2..6]))
    ensures HasCode(b) ==> Code(b) == Hex4(b, 2) < 0x1_0000
  {
    if |b| >= 6 {
      FourDigits(b[2], b[3], b[4], b[5]);
      assert b[2..6] == [b[2]] + [b[3]] + [b[4]] + [b[5]];
    }
  }

  lemma FourDigits(p: char, q: char, r: char, s: char)
    ensures var t := [p] + [q] + [r] + [s];
            && (IsHexadecimal(t) <==> HexValue(p) >= 0 && HexValue(q) >= 0 && HexValue(r) >= 0 && HexValue(s) >= 0)
            && (IsHexadecimal(t) ==>
                  Hexadecimal(t) == ((HexValue(p) * 16 + HexValue(q)) * 16 + HexValue(r)) * 16 + HexValue(s))
  {
    hide HexValue, LOWER_HEX, UPPER_HEX, Hexadecimal;
    HexValues(0, p);
    HexValues(0, q);
    HexValues(0, r);
    HexValues(0, s);
    var t := [p] + [q] + [r] + [s];
    assert t[0] == p && t[1] == q && t[2] == r && t[3] == s;
    if IsHexadecimal(t) {
      assert Hexadecimal("") == 0 by { NoHexadecimal(); }
      HexadecimalLast("", p);
      assert "" + [p] == [p];
      HexadecimalLast([p], q);
      HexadecimalLast([p] + [q], r);
      HexadecimalLast([p] + [q] + [r], s);
    }
  }

  lemma NoHexadecimal()
    ensures Hexadecimal("") == 0
  {
  }

  /** The parser knows exactly the escapes of section 7. */
  lemma EscapesAre(e: char)
    ensures Unescape(e).Some? <==> e in ESCAPED
    ensures e in ESCAPED ==> Unescape(e) == Some(DENOTED[Place(ESCAPED, e)] as char)
  {
    assert ESCAPED[0] == '"' && ESCAPED[1] == '\\' && ESCAPED[2] == '/' && ESCAPED[3] == 'b'
        && ESCAPED[4] == 'f' && ESCAPED[5] == 'n' && ESCAPED[6] == 'r' && ESCAPED[7] == 't';
  }

  function Prepend(t: string, rest: Option<string>): Option<string> {
    if rest.None? then None else Some(t + rest.value)
  }

  /** What the characters between the quotation marks stand for; none if they are not characters of section 7. */
  function StringText(b: string): Option<string>
    decreases |b|
  {
    if b == "" then Some("")
    else if IsPair(b) then Prepend(PairText(b), StringText(b[12..]))
    else if CharLength(b) == 0 then None
    else Prepend(CharText(b), StringText(b[CharLength(b)..]))
  }

  /** No escaped surrogate is without its partner. */
  predicate Paired(b: string)
    decreases |b|
  {
    if IsPair(b) then Paired(b[12..])
    else if CharLength(b) == 0 then true
    else !IsHigh(b) && !IsLow(b) && Paired(b[CharLength(b)..])
  }

  /** Section 7; `limited` asks for paired surrogates, without which the section calls the result unpredictable. */
  predicate IsString(t: string, text: string, limited: bool) {
    && |t| >= 2 && t[0] == '"' && t[|t| - 1] == '"'
    && StringText(t[1..|t| - 1]) == Some(text) && (limited ==> Paired(t[1..|t| - 1]))
  }

  lemma HexSame(s: string, i: nat, p: string, k: nat)
    requires At(s, i, p) && k + 4 <= |p|
    ensures Hex4(s, i + k) == Hex4(p, k)
  {
    AtPeek(s, i, p, k);
    AtPeek(s, i, p, k + 1);
    AtPeek(s, i, p, k + 2);
    AtPeek(s, i, p, k + 3);
  }

  /** The characters of the grammar, in terms of what the parser computes. */
  lemma CharIs(b: string)
    requires b != ""
    ensures CharLength(b) ==
            if b[0] == '\\' then
              if |b| >= 2 && Unescape(b[1]).Some? then 2 else if |b| >= 6 && b[1] == 'u' && Hex4(b, 2) >= 0 then 6 else 0
            else if b[0] >= ' ' && b[0] != '"' then 1 else 0
    ensures CharLength(b) == 2 ==> CharText(b) == [Unescape(b[1]).value]
    ensures CharLength(b) == 6 ==> Code(b) == Hex4(b, 2) && CharText(b) == Units(Hex4(b, 2))
  {
    hide Unescape, Hex4, IsHexadecimal, Hexadecimal, Units;
    if |b| >= 2 {
      EscapesAre(b[1]);
    }
    hide Place, ESCAPED, DENOTED;
    CodeBelow(b);
  }

  lemma PairIs(b: string)
    ensures CharLength(b) == 6 ==> HasCode(b) && Code(b) == Hex4(b, 2) < 0x1_0000
    ensures IsPair(b) ==> PairText(b) == SurrogateText(Code(b), Code(b[6..]))
  {
    hide Hex4, Hexadecimal;
    CodeBelow(b);
  }

  /** What the parser makes of the character at `i`, if it is not an unpaired surrogate. */
  lemma PieceIsRead(s: string, i: nat, b: string)
    requires At(s, i, b) && CharLength(b) > 0 && (IsPair(b) || (!IsHigh(b) && !IsLow(b)))
    ensures Peek(s, i) != '"'
    ensures ParsePiece(s, i) == if IsPair(b) then Piece(PairText(b), i + 12) else Piece(CharText(b), i + CharLength(b))
  {
    hide Units, CharLength, CharText, PairText, Unescape, Hex4, At, Code, HasCode, ParseUnicode;
    CharIs(b);
    AtPeek(s, i, b, 0);
    if |b| > 1 {
      AtPeek(s, i, b, 1);
    }
    if CharLength(b) == 6 {
      EscapeOfU();
      UnicodeIsRead(s, i, b);
    } else if CharLength(b) == 1 {
      OneCharText(b);
    }
  }

  lemma OneCharText(b: string)
    requires CharLength(b) == 1
    ensures CharText(b) == [b[0]]
  {
  }

  lemma UnicodeIsRead(s: string, i: nat, b: string)
    requires At(s, i, b) && CharLength(b) == 6 && (IsPair(b) || (!IsHigh(b) && !IsLow(b)))
    ensures ParseUnicode(s, i) == if IsPair(b) then Piece(PairText(b), i + 12) else Piece(CharText(b), i + 6)
  {
    hide Units, CharLength, CharText, PairText, SurrogateText, Hex4, At, Code, HasCode, Unescape, ParseUnicode;
    CharIs(b);
    PairIs(b);
    PairIs(b[6..]);
    HexSame(s, i, b, 2);
    PartnerIsSeen(s, i, b);
    UnicodeParts(s, i);
  }

  /** The cases of an escaped code. */
  lemma UnicodeParts(s: string, i: nat)
    ensures var c, d := Hex4(s, i + 2), Hex4(s, i + 8);
            var next := Peek(s, i + 6) == '\\' && Peek(s, i + 7) == 'u';
            && (ParseUnicode(s, i).Piece? <==>
                  c >= 0 && (c < 0xD800 || c > 0xDFFF || (c <= 0xDBFF && next && 0xDC00 <= d <= 0xDFFF)))
            && (0 <= c < 0xD800 || c > 0xDFFF ==> ParseUnicode(s, i) == Piece(Units(c), i + 6))
            && (0xD800 <= c <= 0xDBFF && next && 0xDC00 <= d <= 0xDFFF ==> ParseUnicode(s, i) == Piece(SurrogateText(c, d), i + 12))
  {
    hide Hex4, Encodings.EncodeUtf8;
  }

  /** The second escape of a pair. */
  lemma PartnerIsSeen(s: string, i: nat, b: string)
    requires At(s, i, b) && |b| >= 6
    ensures IsLow(b[6..]) ==> Peek(s, i + 6) == '\\' && Peek(s, i + 7) == 'u' && Hex4(s, i + 8) == Hex4(b[6..], 2)
  {
    hide HexValue, Place, Hexadecimal, IsHexadecimal;
    assert b == b[..6] + b[6..];
    AtConcat(s, i, b[..6], b[6..]);
    if IsLow(b[6..]) {
      AtPeek(s, i + 6, b[6..], 0);
      AtPeek(s, i + 6, b[6..], 1);
      HexSame(s, i + 6, b[6..], 2);
    }
  }

  /** A piece that the parser reads, up to `e` or before it. */
  lemma PieceIsGrammatical(s: string, i: nat, e: nat)
    requires i <= e <= |s| && Peek(s, i) != '"' && ParsePiece(s, i).Piece? && ParsePiece(s, i).pos <= e
    ensures var b, p := s[i..e], ParsePiece(s, i);
            if IsPair(b) then p == Piece(PairText(b), i + 12)
            else CharLength(b) > 0 && !IsHigh(b) && !IsLow(b) && p == Piece(CharText(b), i + CharLength(b))
  {
    hide Units, CharLength, CharText, PairText, Unescape, Hex4, Code, HasCode, ParseUnicode;
    var b, p := s[i..e], ParsePiece(s, i);
    CharIs(b);
    AtPeek(s, i, b, 0);
    if s[i] != '\\' {
      OneCharText(b);
    } else if Unescape(Peek(s, i + 1)).Some? {
      AtPeek(s, i, b, 1);
    } else {
      UnicodeParts(s, i);
      AtPeek(s, i, b, 1);
      UnicodeIsGrammatical(s, i, b);
    }
  }

  lemma UnicodeIsGrammatical(s: string, i: nat, b: string)
    requires At(s, i, b) && |b| >= 6 && b[0] == '\\' && b[1] == 'u'
    requires ParseUnicode(s, i).Piece? && ParseUnicode(s, i).pos <= i + |b|
    ensures CharLength(b) == 6
    ensures var p := ParseUnicode(s, i);
            if IsPair(b) then p == Piece(PairText(b), i + 12) else !IsHigh(b) && !IsLow(b) && p == Piece(CharText(b), i + 6)
  {
    hide Units, CharLength, CharText, PairText, SurrogateText, Hex4, Code, HasCode, Unescape, ParseUnicode;
    UnicodeParts(s, i);
    EscapeOfU();
    CharIs(b);
    PairIs(b);
    HexSame(s, i, b, 2);
    var p := ParseUnicode(s, i);
    if p.pos == i + 12 {
      AtPeek(s, i, b, 6);
      AtPeek(s, i, b, 7);
      HexSame(s, i, b, 8);
      HexLater(b);
      CharIs(b[6..]);
      PairIs(b[6..]);
    }
  }

  lemma EscapeOfU()
    ensures Unescape('u').None?
  {
  }

  lemma HexLater(b: string)
    requires |b| >= 12
    ensures Hex4(b[6..], 2) == Hex4(b, 8)
  {
  }

  lemma {:induction false} BodyIsRead(b: string, s: string, i: nat)
    requires StringText(b).Some? && Paired(b) && At(s, i, b + "\"")
    ensures ParseStringBody(s, i) == Piece(StringText(b).value, i + |b| + 1)
    decreases |b|
  {
    hide ParsePiece, At, CharLength, CharText, PairText, IsHigh, IsLow;
    if b == "" {
      AtPeek(s, i, b + "\"", 0);
    } else {
      AtConcat(s, i, b, "\"");
      PieceIsRead(s, i, b) by { PairHasLength(b); }
      PairHasLength(b);
      var n := if IsPair(b) then 12 else CharLength(b);
      assert b + "\"" == b[..n] + (b[n..] + "\"");
      AtConcat(s, i, b[..n], b[n..] + "\"");
      BodyIsRead(b[n..], s, i + n);
    }
  }

  lemma PairHasLength(b: string)
    ensures IsPair(b) ==> |b| >= 12 && CharLength(b) == 6
  {
  }

  lemma NothingUnpaired()
    ensures Paired("")
  {
  }

  lemma {:induction false} BodyIsGrammatical(s: string, i: nat)
    requires i <= |s| && ParseStringBody(s, i).Piece?
    ensures var p := ParseStringBody(s, i);
            s[p.pos - 1] == '"' && StringText(s[i..p.pos - 1]) == Some(p.text) && Paired(s[i..p.pos - 1])
    decreases |s| - i
  {
    hide ParsePiece, CharLength, CharText, PairText, IsHigh, IsLow;
    NothingUnpaired();
    if Peek(s, i) != '"' {
      var first := ParsePiece(s, i);
      BodyIsGrammatical(s, first.pos);
      var p := ParseStringBody(s, i);
      PieceIsGrammatical(s, i, p.pos - 1);
      var b := s[i..p.pos - 1];
      PairHasLength(b);
      assert b[first.pos - i..] == s[first.pos..p.pos - 1];
    }
  }

  lemma StringIsRead(t: string, text: string, s: string, i: nat, isKey: bool)
    requires IsString(t, text, true) && At(s, i, t)
    ensures Peek(s, i) == '"' && ParseString(s, i, isKey) == Done(i + |t|, [if isKey then Key(text) else StringEvent(text)])
  {
    hide ParseStringBody, StringText, Paired;
    var b := t[1..|t| - 1];
    assert t == "\"" + (b + "\"");
    AtConcat(s, i, "\"", b + "\"");
    AtPeek(s, i, t, 0);
    BodyIsRead(b, s, i + 1);
  }

  lemma StringIsGrammatical(s: string, i: nat, isKey: bool)
    requires i < |s| && s[i] == '"' && ParseString(s, i, isKey).error.None?
    ensures var p := ParseString(s, i, isKey);
            exists text :: p.events == [if isKey then Key(text) else StringEvent(text)] && IsString(s[i..p.pos], text, true)
  {
    hide ParseStringBody, StringText, Paired;
    var body := ParseStringBody(s, i + 1);
    BodyIsGrammatical(s, i + 1);
    var t := s[i..body.pos];
    assert t[1..|t| - 1] == s[i + 1..body.pos - 1];
  }

  // ----- Blanks and comments -----

  /** Exactly the blanks of section 2 are skipped. */
  lemma BlanksAre(c: char)
    ensures IsSpace(c) <==> c as int in {0x20, 0x09, 0x0A, 0x0D}
  {
  }

  /** A comment between slash and asterisk and the first asterisk and slash after that. */
  predicate IsBlockComment(t: string) {
    && |t| >= 4 && t[0] == '/' && t[1] == '*' && t[|t| - 2] == '*' && t[|t| - 1] == '/'
    && (forall k :: 2 <= k < |t| - 2 ==> !(t[k] == '*' && t[k + 1] == '/'))
    && '\0' !in t
  }

  /** A comment from two slashes on, without the end of its line. */
  predicate IsLineComment(t: string) {
    |t| >= 2 && t[0] == '/' && t[1] == '/' && '\n' !in t && '\0' !in t
  }

  predicate IsComment(t: string) {
    IsBlockComment(t) || (|t| > 0 && IsLineComment(t[..|t| - 1]) && t[|t| - 1] == '\n')
  }

  /** Blanks, and comments if the flag for them is set. */
  ghost predicate IsGap(w: string, comments: bool)
    decreases |w|
  {
    || w == ""
    || (IsSpace(w[0]) && IsGap(w[1..], comments))
    || (comments && exists k :: 0 < k <= |w| && IsComment(w[..k]) && IsGap(w[k..], comments))
  }

  lemma {:induction false} BlockFound(s: string, i: nat, t: string, k: nat)
    requires At(s, i, t) && IsBlockComment(t) && 2 <= k <= |t| - 2
    ensures BlockComment(s, i + k) == Done(i + |t|, [])
    decreases |t| - k
  {
    hide At;
    AtPeek(s, i, t, k);
    AtPeek(s, i, t, k + 1);
    assert t[k] in t && t[k + 1] in t;
    if k < |t| - 2 {
      BlockFound(s, i, t, k + 1);
    }
  }

  lemma {:induction false} LineFound(s: string, i: nat, t: string, k: nat)
    requires At(s, i, t) && IsLineComment(t) && 2 <= k <= |t|
    ensures i + |t| <= |s| && LineComment(s, i + k) == LineComment(s, i + |t|)
    decreases |t| - k
  {
    hide At;
    if k < |t| {
      AtPeek(s, i, t, k);
      assert t[k] in t;
      LineFound(s, i, t, k + 1);
    } else {
      TextInside(s, i, t);
    }
  }

  lemma TextInside(s: string, i: nat, t: string)
    requires At(s, i, t)
    ensures i + |t| <= |s|
  {
  }

  /** A comment is skipped, and then what follows. */
  lemma CommentSkipped(s: string, i: nat, t: string)
    requires At(s, i, t) && IsComment(t)
    ensures i + |t| <= |s| && Peek(s, i) == '/' && SkipComments(s, i) == SkipComments(s, SkipWhitespace(s, i + |t|))
  {
    hide At, SkipWhitespace;
    TextInside(s, i, t);
    AtPeek(s, i, t, 0);
    AtPeek(s, i, t, 1);
    if IsBlockComment(t) {
      BlockFound(s, i, t, 2);
    } else {
      var line := t[..|t| - 1];
      assert line + ['\n'] == t;
      AtConcat(s, i, line, ['\n']);
      AtPeek(s, i, t, |t| - 1);
      LineFound(s, i, line, 2);
    }
  }

  /** Over a gap, skipping goes on as from its end. */
  lemma {:induction false} GapSkipped(s: string, i: nat, w: string, opt: Options)
    requires At(s, i, w) && IsGap(w, opt.comments)
    ensures i + |w| <= |s| && Skip(s, i, opt) == Skip(s, i + |w|, opt)
    decreases |w|
  {
    hide SkipComments, IsComment, At;
    TextInside(s, i, w);
    if w != "" {
      if IsSpace(w[0]) && IsGap(w[1..], opt.comments) {
        AtPeek(s, i, w, 0);
        assert w[..1] + w[1..] == w;
        AtConcat(s, i, w[..1], w[1..]);
        GapSkipped(s, i + 1, w[1..], opt);
      } else {
        var k :| 0 < k <= |w| && IsComment(w[..k]) && IsGap(w[k..], opt.comments);
        assert w[..k] + w[k..] == w;
        AtConcat(s, i, w[..k], w[k..]);
        CommentSkipped(s, i, w[..k]);
        GapSkipped(s, i + k, w[k..], opt);
      }
    }
  }

  /** Skipping stops at what is neither a blank nor the beginning of a comment. */
  lemma StopsAt(s: string, i: nat, opt: Options)
    requires i <= |s| && !IsSpace(Peek(s, i)) && Peek(s, i) != '/'
    ensures Skip(s, i, opt) == Done(i, [])
  {
  }

  /** A line comment that the text ends in. */
  lemma LastLineSkipped(s: string, i: nat, opt: Options)
    requires i <= |s| && opt.comments && IsLineComment(s[i..])
    ensures Skip(s, i, opt) == Done(|s|, [])
  {
    var t := s[i..];
    assert At(s, i, t) by { assert s[i..i + |t|] == t; }
    AtPeek(s, i, t, 0);
    AtPeek(s, i, t, 1);
    LineFound(s, i, t, 2);
    assert SkipWhitespace(s, |s|) == |s| && SkipComments(s, |s|) == Done(|s|, []);
    assert LineComment(s, i + 2) == LineComment(s, |s|) == |s|;
    assert SkipWhitespace(s, i) == i;
  }

  lemma {:induction false} BlockRead(s: string, i: nat)
    requires i <= |s| && BlockComment(s, i).error.None?
    ensures var p := BlockComment(s, i).pos;
            && i + 2 <= p <= |s| && s[p - 2] == '*' && s[p - 1] == '/' && '\0' !in s[i..p]
            && forall k :: i <= k < p - 2 ==> !(s[k] == '*' && s[k + 1] == '/')
    decreases |s| - i
  {
    var p := BlockComment(s, i).pos;
    if !(s[i] == '*' && Peek(s, i + 1) == '/') {
      BlockRead(s, i + 1);
      assert s[i..p] == [s[i]] + s[i + 1..p];
    } else {
      assert s[i..p] == ['*', '/'];
    }
  }

  lemma {:induction false} LineRead(s: string, i: nat)
    requires i <= |s|
    ensures var p := LineComment(s, i);
            if p > i && s[p - 1] == '\n' then '\n' !in s[i..p - 1] && '\0' !in s[i..p - 1]
            else Peek(s, p) == '\0' && '\n' !in s[i..p] && '\0' !in s[i..p]
    decreases |s| - i
  {
    var p := LineComment(s, i);
    if Peek(s, i) == '\0' {
      assert s[i..i] == "";
    } else if s[i] == '\n' {
      assert s[i..i] == "";
    } else {
      LineRead(s, i + 1);
      if p > i + 1 && s[p - 1] == '\n' {
        assert s[i..p - 1] == [s[i]] + s[i + 1..p - 1];
      } else {
        assert s[i..p] == [s[i]] + s[i + 1..p];
      }
    }
  }

  /** A gap, or one in whose last line comment the text ends. */
  ghost predicate IsLastGap(w: string, comments: bool) {
    || IsGap(w, comments)
    || (comments && exists k :: 0 <= k <= |w| && IsGap(w[..k], comments) && IsLineComment(w[k..]))
  }

  lemma {:induction false} BlanksBefore(w: string, u: string, comments: bool)
    requires AllSpaces(w) && IsGap(u, comments)
    ensures IsGap(w + u, comments)
    decreases |w|
  {
    if w == "" {
      assert w + u == u;
    } else {
      BlanksBefore(w[1..], u, comments);
      assert (w + u)[1..] == w[1..] + u;
    }
  }

  lemma GapAfterComment(t: string, u: string)
    requires t != "" && IsComment(t) && IsGap(u, true)
    ensures IsGap(t + u, true)
  {
    hide IsComment;
    assert (t + u)[..|t|] == t && (t + u)[|t|..] == u;
  }

  lemma {:induction false} SkippedSpaces(s: string, i: nat)
    requires i <= |s|
    ensures AllSpaces(s[i..SkipWhitespace(s, i)])
    decreases |s| - i
  {
    if IsSpace(Peek(s, i)) {
      SkippedSpaces(s, i + 1);
      var r := SkipWhitespace(s, i);
      assert s[i..r] == [s[i]] + s[i + 1..r];
    }
  }

  /** A comment and blanks before a gap. */
  lemma GapsJoin(c: string, w: string, u: string)
    requires c != "" && IsComment(c) && AllSpaces(w) && IsLastGap(u, true)
    ensures IsLastGap(c + w + u, true) && (IsGap(u, true) ==> IsGap(c + w + u, true))
  {
    hide IsComment, AllSpaces, IsGap, IsLineComment;
    assert c + w + u == c + (w + u);
    if IsGap(u, true) {
      BlanksBefore(w, u, true);
      GapAfterComment(c, w + u);
    } else {
      var k :| 0 <= k <= |u| && IsGap(u[..k], true) && IsLineComment(u[k..]);
      BlanksBefore(w, u[..k], true);
      GapAfterComment(c, w + u[..k]);
      var all, n := c + w + u, |c + w| + k;
      assert all[..n] == c + (w + u[..k]) && all[n..] == u[k..];
    }
  }

  lemma BlanksJoin(w: string, u: string, comments: bool)
    requires AllSpaces(w) && IsLastGap(u, comments)
    ensures IsLastGap(w + u, comments) && (IsGap(u, comments) ==> IsGap(w + u, comments))
  {
    hide AllSpaces, IsGap, IsLineComment;
    if IsGap(u, comments) {
      BlanksBefore(w, u, comments);
    } else {
      var k :| 0 <= k <= |u| && IsGap(u[..k], comments) && IsLineComment(u[k..]);
      BlanksBefore(w, u[..k], comments);
      var all, n := w + u, |w| + k;
      assert all[..n] == w + u[..k] && all[n..] == u[k..];
    }
  }

  /** The end of the comment at `i`. */
  function CommentEnd(s: string, i: nat): (j: nat)
    requires i + 2 <= |s| && s[i] == '/' && (s[i + 1] == '*' ==> BlockComment(s, i + 2).error.None?)
    ensures i < j <= |s|
  {
    if s[i + 1] == '*' then BlockComment(s, i + 2).pos else LineComment(s, i + 2)
  }

  /** A comment that was read is one of the text, or is a line comment that the text ends in. */
  lemma CommentRead(s: string, i: nat)
    requires i + 2 <= |s| && s[i] == '/' && (s[i + 1] == '*' || s[i + 1] == '/')
    requires s[i + 1] == '*' ==> BlockComment(s, i + 2).error.None?
    ensures var j := CommentEnd(s, i); IsComment(s[i..j]) || (Peek(s, j) == '\0' && IsLineComment(s[i..j]))
  {
    var j := CommentEnd(s, i);
    var t := s[i..j];
    if s[i + 1] == '*' {
      BlockRead(s, i + 2);
      hide BlockComment;
      assert t == ['/', '*'] + s[i + 2..j];
      forall k | 2 <= k < |t| - 2
        ensures !(t[k] == '*' && t[k + 1] == '/')
      {
        assert t[k] == s[i + k] && t[k + 1] == s[i + k + 1];
      }
    } else {
      LineRead(s, i + 2);
      hide LineComment;
      if j > i + 2 && s[j - 1] == '\n' {
        assert t[..|t| - 1] == ['/', '/'] + s[i + 2..j - 1];
      } else {
        assert t == ['/', '/'] + s[i + 2..j];
      }
    }
  }

  /** The comments that were skipped from `i` on, and the blanks between and after them. */
  lemma {:induction false} CommentsRead(s: string, i: nat)
    requires i <= |s| && SkipComments(s, i).error.None?
    ensures var p := SkipComments(s, i).pos; IsLastGap(s[i..p], true) && (Peek(s, p) != '\0' ==> IsGap(s[i..p], true))
    decreases |s| - i
  {
    hide IsComment, IsLineComment, SkipWhitespace, LineComment, BlockComment, AllSpaces;
    var p := SkipComments(s, i).pos;
    if Peek(s, i) != '/' {
      assert s[i..i] == "";
    } else {
      var j := CommentEnd(s, i);
      CommentRead(s, i);
      SkippedSpaces(s, j);
      var k := SkipWhitespace(s, j);
      CommentsRead(s, k);
      if IsComment(s[i..j]) {
        hide IsGap, IsLastGap, SkipComments;
        GapsJoin(s[i..j], s[j..k], s[k..p]);
        ThreeParts(s, i, j, k, p);
      } else {
        NothingLeft(s, j);
        assert s[i..p][..0] == "" && s[i..p][0..] == s[i..p];
      }
    }
  }

  lemma NothingLeft(s: string, j: nat)
    requires j <= |s| && Peek(s, j) == '\0'
    ensures SkipWhitespace(s, j) == j && SkipComments(s, j) == Done(j, [])
  {
  }

  /** Without comments, only blanks are skipped; with them, gaps. */
  lemma Skipped(s: string, i: nat, opt: Options)
    requires i <= |s| && Skip(s, i, opt).error.None?
    ensures var p := Skip(s, i, opt).pos;
            IsLastGap(s[i..p], opt.comments) && (Peek(s, p) != '\0' ==> IsGap(s[i..p], opt.comments))
  {
    hide AllSpaces, IsLastGap, IsGap, SkipComments, SkipWhitespace;
    var j, p := SkipWhitespace(s, i), Skip(s, i, opt).pos;
    SkippedSpaces(s, i);
    if opt.comments {
      CommentsRead(s, j);
    } else {
      NoGap(opt.comments);
      assert s[j..j] == "";
    }
    BlanksJoin(s[i..j], s[j..p], opt.comments);
    assert s[i..j] + s[j..p] == s[i..p];
  }

  lemma NoGap(comments: bool)
    ensures IsGap("", comments) && IsLastGap("", comments)
  {
  }

  // ----- Trees -----

  predicate HasAt(u: string, k: int, c: char) {
    0 <= k < |u| && u[k] == c
  }

  /** Nothing but blanks before `a` and from `b` on. */
  ghost predicate Framed(u: string, a: int, b: int, comments: bool) {
    0 <= a <= b <= |u| && IsGap(u[..a], comments) && IsGap(u[b..], comments)
  }

  predicate Bracketed(t: string, opening: char, closing: char) {
    |t| >= 2 && t[0] == opening && t[|t| - 1] == closing
  }

  /** A JSON text, section 2: a value with blanks around it. */
  ghost predicate IsJson(u: string, v: Value, opt: Options, limited: bool)
    decreases v, 1
  {
    exists a, b :: Framed(u, a, b, opt.comments) && IsValue(u[a..b], v, opt, limited)
  }

  /** Sections 3 to 5. */
  ghost predicate IsValue(t: string, v: Value, opt: Options, limited: bool)
    decreases v, 0
  {
    match v
    case Null => t == "null"
    case Bool(b) => t == if b then "true" else "false"
    case Number(_) => IsNumber(t) && NumberValue(t) == v && (limited ==> InRange(t, opt))
    case Double(_) => IsNumber(t) && NumberValue(t) == v && (limited ==> InRange(t, opt))
    case String(x) => IsString(t, x, limited)
    case Array(es) => Bracketed(t, '[', ']') && IsElements(t[1..|t| - 1], es, opt, limited)
    case Object(ms) => Bracketed(t, '{', '}') && IsMembers(t[1..|t| - 1], ms, opt, limited)
  }

  /** Values between commas; the flag for trailing commas allows one after the last value. */
  ghost predicate IsElements(u: string, es: seq<Value>, opt: Options, limited: bool)
    decreases es, 2
  {
    if es == [] then IsGap(u, opt.comments)
    else
      || (|es| == 1 && IsJson(u, es[0], opt, limited))
      || ((|es| > 1 || opt.trailingCommas)
          && exists k :: HasAt(u, k, ',') && IsJson(u[..k], es[0], opt, limited) && IsElements(u[k + 1..], es[1..], opt, limited))
  }

  ghost predicate IsName(u: string, name: string, opt: Options, limited: bool) {
    exists a, b :: Framed(u, a, b, opt.comments) && IsString(u[a..b], name, limited)
  }

  ghost predicate IsMember(u: string, m: Member, opt: Options, limited: bool)
    decreases m, 2
  {
    exists c :: HasAt(u, c, ':') && IsName(u[..c], m.name, opt, limited) && IsJson(u[c + 1..], m.value, opt, limited)
  }

  ghost predicate IsMembers(u: string, ms: seq<Member>, opt: Options, limited: bool)
    decreases ms, 3
  {
    if ms == [] then IsGap(u, opt.comments)
    else
      || (|ms| == 1 && IsMember(u, ms[0], opt, limited))
      || ((|ms| > 1 || opt.trailingCommas)
          && exists k :: HasAt(u, k, ',') && IsMember(u[..k], ms[0], opt, limited) && IsMembers(u[k + 1..], ms[1..], opt, limited))
  }

  // ----- What is parsed is in the grammar -----

  /** What follows an element, up to the bracket. */
  ghost predicate IsElementsRest(u: string, es: seq<Value>, opt: Options) {
    || (es == [] && IsGap(u, opt.comments))
    || ((es != [] || opt.trailingCommas) && exists k :: HasAt(u, k, ',') && IsGap(u[..k], opt.comments) && IsElements(u[k + 1..], es, opt, true))
  }

  ghost predicate IsMembersRest(u: string, ms: seq<Member>, opt: Options) {
    || (ms == [] && IsGap(u, opt.comments))
    || ((ms != [] || opt.trailingCommas) && exists k :: HasAt(u, k, ',') && IsGap(u[..k], opt.comments) && IsMembers(u[k + 1..], ms, opt, true))
  }

  lemma JsonFramed(w: string, t: string, w': string, v: Value, opt: Options)
    requires IsGap(w, opt.comments) && IsValue(t, v, opt, true) && IsGap(w', opt.comments)
    ensures IsJson(w + t + w', v, opt, true)
  {
    hide IsValue, IsGap;
    var u := w + t + w';
    assert u[..|w|] == w && u[|w|..|w| + |t|] == t && u[|w| + |t|..] == w';
    assert Framed(u, |w|, |w| + |t|, opt.comments);
  }

  lemma ElementsJoin(w: string, t: string, u: string, v: Value, es: seq<Value>, opt: Options)
    requires IsGap(w, opt.comments) && IsValue(t, v, opt, true) && IsElementsRest(u, es, opt)
    ensures IsElements(w + t + u, [v] + es, opt, true)
  {
    hide IsValue, IsJson, IsGap;
    var all := [v] + es;
    assert all[1..] == es;
    if es == [] && IsGap(u, opt.comments) {
      JsonFramed(w, t, u, v, opt);
    } else {
      var k :| HasAt(u, k, ',') && IsGap(u[..k], opt.comments) && IsElements(u[k + 1..], es, opt, true);
      JsonFramed(w, t, u[..k], v, opt);
      var whole, n := w + t + u, |w + t| + k;
      assert whole[..n] == w + t + u[..k] && whole[n + 1..] == u[k + 1..];
      assert HasAt(whole, n, ',');
    }
  }

  lemma MembersJoin(w: string, w': string, t: string, u: string, m: Member, ms: seq<Member>, opt: Options)
    requires IsName(w, m.name, opt, true) && IsGap(w', opt.comments) && IsValue(t, m.value, opt, true) && IsMembersRest(u, ms, opt)
    ensures IsMembers(w + ":" + (w' + t + u), [m] + ms, opt, true)
  {
    hide IsValue, IsJson, IsGap, IsName, IsMember;
    var all := [m] + ms;
    assert all[1..] == ms;
    if ms == [] && IsGap(u, opt.comments) {
      JsonFramed(w', t, u, m.value, opt);
      MemberJoin(w, w' + t + u, m, opt);
    } else {
      var k :| HasAt(u, k, ',') && IsGap(u[..k], opt.comments) && IsMembers(u[k + 1..], ms, opt, true);
      JsonFramed(w', t, u[..k], m.value, opt);
      MemberJoin(w, w' + t + u[..k], m, opt);
      var start := w + ":" + (w' + t);
      var whole, n := w + ":" + (w' + t + u), |start| + k;
      assert whole == start + u;
      assert whole[..n] == w + ":" + (w' + t + u[..k]) && whole[n + 1..] == u[k + 1..];
      assert HasAt(whole, n, ',');
    }
  }

  lemma MemberJoin(w: string, u: string, m: Member, opt: Options)
    requires IsName(w, m.name, opt, true) && IsJson(u, m.value, opt, true)
    ensures IsMember(w + ":" + u, m, opt, true)
  {
    hide IsJson, IsName;
    var whole := w + ":" + u;
    assert whole[..|w|] == w && whole[|w| + 1..] == u;
    assert HasAt(whole, |w|, ':');
  }

  lemma {:induction false} Matched(s: string, i: nat, word: string)
    requires i <= |s| && Matching(s, i, word) == |word|
    ensures i + |word| <= |s| && s[i..i + |word|] == word
    decreases |word|
  {
    if word != "" {
      Matched(s, i + 1, word[1..]);
      assert s[i..i + |word|] == [s[i]] + s[i + 1..i + |word|];
    }
  }

  /** The value at `i` that ends before `end` is `v`, in its events and in its text. */
  ghost predicate ReadsValue(s: string, i: nat, p: Parsed, v: Value, opt: Options) {
    && p.error.None? && i < p.pos <= |s|
    && EventsOf(p.events, Accept(v))
    && IsValue(s[i..p.pos], v, opt, true)
  }

  lemma ScalarTree(s: string, i: nat, opt: Options) returns (v: Value)
    requires i <= |s| && ParseScalar(s, i, opt).error.None?
    ensures ReadsValue(s, i, ParseScalar(s, i, opt), v, opt)
  {
    hide Matching, ParseStringBody, R.ParseNumber, IsString, IsNumber, InRange, EventsOf;
    match Peek(s, i)
    case 'n' =>
      v := Null;
      Matched(s, i, "null");
      SameEvent(NullEvent);
    case 't' =>
      v := Bool(true);
      Matched(s, i, "true");
      SameEvent(BoolEvent(true));
    case 'f' =>
      v := Bool(false);
      Matched(s, i, "false");
      SameEvent(BoolEvent(false));
    case '"' =>
      StringIsGrammatical(s, i, false);
      var p := ParseString(s, i, false);
      var text :| p.events == [StringEvent(text)] && IsString(s[i..p.pos], text, true);
      v := String(text);
      SameEvent(StringEvent(text));
    case _ =>
      NumberIsGrammatical(s, i, opt);
      v := NumberValue(s[i..R.ParseNumber(s, i, opt).pos]);
  }

  lemma SameEvent(e: Event)
    requires WellTyped(e)
    ensures EventsOf([e], [e])
  {
  }

  /** No value is read where the text ends. */
  lemma ValueIsSomething(s: string, i: nat, opt: Options)
    requires i <= |s| && R.ParseValue(s, i, opt).error.None?
    ensures Peek(s, i) != '\0'
  {
  }

  /** A value that the parser accepts has the events and the text of a tree. */
  lemma {:induction false} ValueTree(s: string, i: nat, opt: Options) returns (v: Value)
    requires i <= |s| && R.ParseValue(s, i, opt).error.None?
    ensures ReadsValue(s, i, R.ParseValue(s, i, opt), v, opt)
    decreases |s| - i, 3
  {
    hide Skip, ParseScalar, ParseElements, ParseMembers, Rereads, IsElements, IsMembers;
    var p := R.ParseValue(s, i, opt);
    if Peek(s, i) == '[' {
      var es := ArrayTree(s, i + 1, opt);
      v := Array(es);
      EventsConcat([StartArray], [StartArray], R.ParseArray(s, i + 1, opt).events, AcceptElements(es) + [EndArray(|es|)]);
      assert [StartArray] + (AcceptElements(es) + [EndArray(|es|)]) == Accept(v);
      var t := s[i..p.pos];
      assert t[1..|t| - 1] == s[i + 1..p.pos - 1];
    } else if Peek(s, i) == '{' {
      var ms := ObjectTree(s, i + 1, opt);
      v := Object(ms);
      EventsConcat([StartObject], [StartObject], R.ParseObject(s, i + 1, opt).events, AcceptMembers(ms) + [EndObject(|ms|)]);
      assert [StartObject] + (AcceptMembers(ms) + [EndObject(|ms|)]) == Accept(v);
      var t := s[i..p.pos];
      assert t[1..|t| - 1] == s[i + 1..p.pos - 1];
    } else {
      v := ScalarTree(s, i, opt);
    }
  }

  /** `p` has read to a bracket the elements in the text from `j` on, `count` others having been read before. */
  ghost predicate ReadsElements(s: string, j: nat, p: Parsed, count: nat, es: seq<Value>, opt: Options) {
    && p.error.None? && j < p.pos <= |s|
    && EventsOf(p.events, AcceptElements(es) + [EndArray(count + |es|)])
    && s[p.pos - 1] == ']' && IsElements(s[j..p.pos - 1], es, opt, true)
  }

  ghost predicate ReadsElementsRest(s: string, i: nat, p: Parsed, count: nat, es: seq<Value>, opt: Options) {
    && p.error.None? && i < p.pos <= |s|
    && EventsOf(p.events, AcceptElements(es) + [EndArray(count + |es|)])
    && s[p.pos - 1] == ']' && IsElementsRest(s[i..p.pos - 1], es, opt)
  }

  lemma {:induction false} ArrayTree(s: string, i: nat, opt: Options) returns (es: seq<Value>)
    requires i <= |s| && R.ParseArray(s, i, opt).error.None?
    ensures ReadsElements(s, i, R.ParseArray(s, i, opt), 0, es, opt)
    decreases |s| - i, 5
  {
    hide Skip, ParseElements, IsGap;
    var skip := Skip(s, i, opt);
    Skipped(s, i, opt);
    if Peek(s, skip.pos) == ']' {
      es := [];
      NothingMore(0);
    } else {
      es := ElementsTree(s, i, skip.pos, 0, opt);
    }
  }

  lemma {:induction false} ElementsTree(s: string, j: nat, i: nat, count: nat, opt: Options) returns (es: seq<Value>)
    requires j <= i <= |s| && ParseElements(s, i, count, opt).error.None? && (Peek(s, i) != '\0' ==> IsGap(s[j..i], opt.comments))
    ensures es != [] && ReadsElements(s, j, ParseElements(s, i, count, opt), count, es, opt)
    decreases |s| - i, 4
  {
    hide R.ParseValue, ParseElementsRest, Rereads, Accept, IsGap, IsValue, IsElements, IsElementsRest;
    var value := R.ParseValue(s, i, opt);
    var v := ValueTree(s, i, opt);
    var rest := ElementsRestTree(s, value.pos, count + 1, opt);
    es := [v] + rest;
    assert es[1..] == rest;
    var tail := ParseElementsRest(s, value.pos, count + 1, opt);
    EventsConcat(value.events, Accept(v), tail.events, AcceptElements(rest) + [EndArray(count + |es|)]);
    assert AcceptElements(es) + [EndArray(count + |es|)] == Accept(v) + (AcceptElements(rest) + [EndArray(count + |es|)]);
    ValueIsSomething(s, i, opt);
    ElementsJoin(s[j..i], s[i..value.pos], s[value.pos..tail.pos - 1], v, rest, opt);
    ThreeParts(s, j, i, value.pos, tail.pos - 1);
  }

  lemma {:induction false} ElementsRestTree(s: string, i: nat, count: nat, opt: Options) returns (es: seq<Value>)
    requires i <= |s| && ParseElementsRest(s, i, count, opt).error.None?
    ensures ReadsElementsRest(s, i, ParseElementsRest(s, i, count, opt), count, es, opt)
    decreases |s| - i, 5
  {
    hide Skip, ParseElements, EventsOf, AcceptElements, IsElements, IsGap;
    var skip := Skip(s, i, opt);
    Skipped(s, i, opt);
    es := [];
    NothingMore(count);
    if Peek(s, skip.pos) == ',' {
      var next := Skip(s, skip.pos + 1, opt);
      Skipped(s, skip.pos + 1, opt);
      if !(opt.trailingCommas && Peek(s, next.pos) == ']') {
        es := ElementsTree(s, skip.pos + 1, next.pos, count, opt);
      }
      ElementsGoOn(s, i, skip.pos, ParseElementsRest(s, i, count, opt).pos - 1, es, opt);
    }
  }

  /** A stretch with blanks and a comma before what follows. */
  lemma ElementsGoOn(s: string, i: nat, k: nat, end: nat, es: seq<Value>, opt: Options)
    requires i <= k < end <= |s| && s[k] == ',' && IsGap(s[i..k], opt.comments)
    requires if es == [] then opt.trailingCommas && IsGap(s[k + 1..end], opt.comments) else IsElements(s[k + 1..end], es, opt, true)
    ensures IsElementsRest(s[i..end], es, opt)
  {
    hide IsJson, IsGap;
    var u := s[i..end];
    assert HasAt(u, k - i, ',') && u[..k - i] == s[i..k] && u[k - i + 1..] == s[k + 1..end];
  }

  lemma MembersGoOn(s: string, i: nat, k: nat, end: nat, ms: seq<Member>, opt: Options)
    requires i <= k < end <= |s| && s[k] == ',' && IsGap(s[i..k], opt.comments)
    requires if ms == [] then opt.trailingCommas && IsGap(s[k + 1..end], opt.comments) else IsMembers(s[k + 1..end], ms, opt, true)
    ensures IsMembersRest(s[i..end], ms, opt)
  {
    hide IsMember, IsGap;
    var u := s[i..end];
    assert HasAt(u, k - i, ',') && u[..k - i] == s[i..k] && u[k - i + 1..] == s[k + 1..end];
  }

  lemma NothingMore(count: nat)
    ensures EventsOf([EndArray(count)], AcceptElements([]) + [EndArray(count)])
    ensures EventsOf([EndObject(count)], AcceptMembers([]) + [EndObject(count)])
  {
    assert AcceptElements([]) + [EndArray(count)] == [EndArray(count)];
    assert AcceptMembers([]) + [EndObject(count)] == [EndObject(count)];
  }

  ghost predicate ReadsMembers(s: string, j: nat, p: Parsed, count: nat, ms: seq<Member>, opt: Options) {
    && p.error.None? && j < p.pos <= |s|
    && EventsOf(p.events, AcceptMembers(ms) + [EndObject(count + |ms|)])
    && s[p.pos - 1] == '}' && IsMembers(s[j..p.pos - 1], ms, opt, true)
  }

  ghost predicate ReadsMembersRest(s: string, i: nat, p: Parsed, count: nat, ms: seq<Member>, opt: Options) {
    && p.error.None? && i < p.pos <= |s|
    && EventsOf(p.events, AcceptMembers(ms) + [EndObject(count + |ms|)])
    && s[p.pos - 1] == '}' && IsMembersRest(s[i..p.pos - 1], ms, opt)
  }

  lemma {:induction false} ObjectTree(s: string, i: nat, opt: Options) returns (ms: seq<Member>)
    requires i <= |s| && R.ParseObject(s, i, opt).error.None?
    ensures ReadsMembers(s, i, R.ParseObject(s, i, opt), 0, ms, opt)
    decreases |s| - i, 5
  {
    hide Skip, ParseMembers, IsGap;
    var skip := Skip(s, i, opt);
    Skipped(s, i, opt);
    if Peek(s, skip.pos) == '}' {
      ms := [];
      NothingMore(0);
    } else {
      ms := MembersTree(s, i, skip.pos, 0, opt);
    }
  }

  /** A name, its colon at `c` and the blanks before the value. */
  ghost predicate ReadsName(s: string, j: nat, c: nat, p: Parsed, name: string, opt: Options) {
    && p.error.None? && p.events == [Key(name)]
    && j <= c < p.pos <= |s| && s[c] == ':' && IsName(s[j..c], name, opt, true)
    && (Peek(s, p.pos) != '\0' ==> IsGap(s[c + 1..p.pos], opt.comments))
  }

  lemma NameTree(s: string, j: nat, i: nat, opt: Options) returns (name: string, c: nat)
    requires j <= i <= |s| && ParseName(s, i, opt).error.None? && (Peek(s, i) != '\0' ==> IsGap(s[j..i], opt.comments))
    ensures ReadsName(s, j, c, ParseName(s, i, opt), name, opt)
  {
    hide Skip, ParseString, IsGap, IsString;
    StringIsGrammatical(s, i, true);
    var p := ParseString(s, i, true);
    name :| p.events == [Key(name)] && IsString(s[i..p.pos], name, true);
    c := Skip(s, p.pos, opt).pos;
    Skipped(s, p.pos, opt);
    Skipped(s, c + 1, opt);
    var u := s[j..c];
    AtSlice(s, j, u, 0, i - j);
    AtSlice(s, j, u, i - j, p.pos - j);
    AtSlice(s, j, u, p.pos - j, c - j);
    assert u[..i - j] == u[0..i - j] && u[p.pos - j..] == u[p.pos - j..c - j];
    assert Framed(u, i - j, p.pos - j, opt.comments);
  }

  lemma {:induction false} MembersTree(s: string, j: nat, i: nat, count: nat, opt: Options) returns (ms: seq<Member>)
    requires j <= i <= |s| && ParseMembers(s, i, count, opt).error.None? && (Peek(s, i) != '\0' ==> IsGap(s[j..i], opt.comments))
    ensures ms != [] && ReadsMembers(s, j, ParseMembers(s, i, count, opt), count, ms, opt)
    decreases |s| - i, 4
  {
    hide R.ParseValue, ParseName, ParseMembersRest, Rereads, Accept, IsGap, IsValue, IsName, IsMembers, IsMembersRest;
    var name := ParseName(s, i, opt);
    var key, c := NameTree(s, j, i, opt);
    var value := R.ParseValue(s, name.pos, opt);
    var v := ValueTree(s, name.pos, opt);
    var rest := MembersRestTree(s, value.pos, count + 1, opt);
    var m := Member(key, v);
    ms := [m] + rest;
    assert ms[1..] == rest;
    var tail := ParseMembersRest(s, value.pos, count + 1, opt);
    MemberEvents(key, v, rest, value.events, tail.events, count);
    ValueIsSomething(s, name.pos, opt);
    MembersJoin(s[j..c], s[c + 1..name.pos], s[name.pos..value.pos], s[value.pos..tail.pos - 1], m, rest, opt);
    ThreeParts(s, c + 1, name.pos, value.pos, tail.pos - 1);
    AroundColon(s, j, c, tail.pos - 1);
  }

  lemma ThreeParts(s: string, a: nat, b: nat, c: nat, d: nat)
    requires a <= b <= c <= d <= |s|
    ensures s[a..b] + s[b..c] + s[c..d] == s[a..d]
  {
  }

  lemma AroundColon(s: string, a: nat, c: nat, d: nat)
    requires a <= c < d <= |s| && s[c] == ':'
    ensures s[a..c] + ":" + s[c + 1..d] == s[a..d]
  {
    assert s[c..c + 1] == ":";
    ThreeParts(s, a, c, c + 1, d);
  }

  lemma MemberEvents(key: string, v: Value, rest: seq<Member>, value: seq<Event>, tail: seq<Event>, count: nat)
    requires EventsOf(value, Accept(v)) && EventsOf(tail, AcceptMembers(rest) + [EndObject(count + 1 + |rest|)])
    ensures var ms := [Member(key, v)] + rest;
            EventsOf([Key(key)] + (value + tail), AcceptMembers(ms) + [EndObject(count + |ms|)])
  {
    hide Rereads, Accept;
    var ms := [Member(key, v)] + rest;
    var end := [EndObject(count + |ms|)];
    assert ms[1..] == rest;
    EventsConcat(value, Accept(v), tail, AcceptMembers(rest) + end);
    SameEvent(Key(key));
    EventsConcat([Key(key)], [Key(key)], value + tail, Accept(v) + (AcceptMembers(rest) + end));
    assert AcceptMembers(ms) + end == [Key(key)] + (Accept(v) + (AcceptMembers(rest) + end));
  }

  lemma {:induction false} MembersRestTree(s: string, i: nat, count: nat, opt: Options) returns (ms: seq<Member>)
    requires i <= |s| && ParseMembersRest(s, i, count, opt).error.None?
    ensures ReadsMembersRest(s, i, ParseMembersRest(s, i, count, opt), count, ms, opt)
    decreases |s| - i, 5
  {
    hide Skip, ParseMembers, EventsOf, AcceptMembers, IsMembers, IsGap;
    var skip := Skip(s, i, opt);
    Skipped(s, i, opt);
    ms := [];
    NothingMore(count);
    if Peek(s, skip.pos) == ',' {
      var next := Skip(s, skip.pos + 1, opt);
      Skipped(s, skip.pos + 1, opt);
      if !(opt.trailingCommas && Peek(s, next.pos) == '}') {
        ms := MembersTree(s, skip.pos + 1, next.pos, count, opt);
      }
      MembersGoOn(s, i, skip.pos, ParseMembersRest(s, i, count, opt).pos - 1, ms, opt);
    }
  }

  // ----- What is in the grammar is parsed -----

  ghost predicate ParsesAs(p: Parsed, end: nat, es: seq<Event>) {
    p.error.None? && p.pos == end && EventsOf(p.events, es)
  }

  /** The value's text, wherever it stands before a delimiter. */
  lemma {:induction false} ValueParses(t: string, v: Value, s: string, i: nat, opt: Options)
    requires IsValue(t, v, opt, true) && At(s, i, t) && IsDelimiter(Peek(s, i + |t|))
    ensures OpensValue(Peek(s, i)) && ParsesAs(R.ParseValue(s, i, opt), i + |t|, Accept(v))
    decreases v, 3
  {
    hide Skip, ParseScalar, ParseElements, ParseMembers, Rereads, IsElements, IsMembers, At;
    if v.Array? {
      AtPeek(s, i, t, 0);
      ArrayParses(t[1..|t| - 1], v.elements, s, i + 1, opt) by { BracketedAt(t, s, i); }
      var p := R.ParseArray(s, i + 1, opt);
      EventsConcat([StartArray], [StartArray], p.events, AcceptElements(v.elements) + [EndArray(|v.elements|)]);
      assert [StartArray] + (AcceptElements(v.elements) + [EndArray(|v.elements|)]) == Accept(v);
    } else if v.Object? {
      AtPeek(s, i, t, 0);
      ObjectParses(t[1..|t| - 1], v.members, s, i + 1, opt) by { BracketedAt(t, s, i); }
      var p := R.ParseObject(s, i + 1, opt);
      EventsConcat([StartObject], [StartObject], p.events, AcceptMembers(v.members) + [EndObject(|v.members|)]);
      assert [StartObject] + (AcceptMembers(v.members) + [EndObject(|v.members|)]) == Accept(v);
    } else {
      ScalarParses(t, v, s, i, opt);
    }
  }

  lemma BracketedAt(t: string, s: string, i: nat)
    requires |t| >= 2 && At(s, i, t)
    ensures At(s, i + 1, t[1..|t| - 1]) && Peek(s, i + |t| - 1) == t[|t| - 1]
  {
    AtSlice(s, i, t, 1, |t| - 1);
    AtPeek(s, i, t, |t| - 1);
  }

  lemma ScalarParses(t: string, v: Value, s: string, i: nat, opt: Options)
    requires !v.Array? && !v.Object? && IsValue(t, v, opt, true) && At(s, i, t) && IsDelimiter(Peek(s, i + |t|))
    ensures OpensValue(Peek(s, i)) && ParsesAs(R.ParseValue(s, i, opt), i + |t|, Accept(v))
  {
    hide ParseString, R.ParseNumber, Matching, R.ParseArray, R.ParseObject, EventsOf, IsString, At, NumberValue, NumberParts;
    if v.Null? {
      AtPeek(s, i, t, 0);
      MatchingAt(s, i, t);
      SameEvent(NullEvent);
    } else if v.Bool? {
      AtPeek(s, i, t, 0);
      MatchingAt(s, i, t);
      SameEvent(BoolEvent(v.b));
    } else if v.String? {
      StringIsRead(t, v.s, s, i, false);
      SameEvent(StringEvent(v.s));
    } else {
      var b, c :| NumberParts(t, b, c) && PartsInRange(t, b, c, opt);
      NumberIsRead(t, b, c, opt);
      NumberScalarAt(s, i, t, opt);
      NumberStart(t, opt);
      AtPeek(s, i, t, 0);
    }
  }

  /** From `i` on nothing but a gap is skipped, up to `j`. */
  predicate SkipsTo(s: string, i: nat, j: nat, opt: Options) {
    i <= |s| && Skip(s, i, opt) == Done(j, [])
  }

  /** A gap before what is neither blank nor the beginning of a comment. */
  lemma GapEnds(s: string, i: nat, w: string, opt: Options)
    requires At(s, i, w) && IsGap(w, opt.comments) && !IsSpace(Peek(s, i + |w|)) && Peek(s, i + |w|) != '/'
    ensures i + |w| <= |s| && SkipsTo(s, i, i + |w|, opt)
  {
    hide Skip, At;
    GapSkipped(s, i, w, opt);
    StopsAt(s, i + |w|, opt);
  }

  lemma GapStarts(w: string, comments: bool)
    requires w != "" && IsGap(w, comments)
    ensures IsDelimiter(w[0])
  {
    if !IsSpace(w[0]) {
      var k :| 0 < k <= |w| && IsComment(w[..k]) && IsGap(w[k..], comments);
      assert w[..k][0] == w[0];
    }
  }

  lemma OpeningIsNoGap(c: char)
    requires OpensValue(c)
    ensures !IsSpace(c) && c != '/'
  {
  }

  /** A value with gaps around it, before a delimiter: from its end on the parser skips as from the end of the gap. */
  lemma {:induction false} JsonParses(u: string, v: Value, s: string, i: nat, opt: Options) returns (a: nat, p: Parsed)
    requires IsJson(u, v, opt, true) && At(s, i, u) && IsDelimiter(Peek(s, i + |u|))
    ensures i + |u| <= |s| && SkipsTo(s, i, a, opt) && a <= |s| && OpensValue(Peek(s, a))
    ensures p == R.ParseValue(s, a, opt) && ParsesAs(p, p.pos, Accept(v)) && Skip(s, p.pos, opt) == Skip(s, i + |u|, opt)
    decreases v, 4
  {
    hide Skip, R.ParseValue, EventsOf, IsValue, At, IsGap, IsDelimiter, OpensValue;
    TextInside(s, i, u);
    var b;
    a, b :| Framed(u, a, b, opt.comments) && IsValue(u[a..b], v, opt, true);
    var w, t, w' := u[..a], u[a..b], u[b..];
    assert u == w + t + w';
    AtThree(s, i, w, t, w');
    if w' != "" {
      AtPeek(s, i + b, w', 0);
      GapStarts(w', opt.comments);
    }
    ValueParses(t, v, s, i + a, opt);
    OpeningIsNoGap(Peek(s, i + a));
    GapEnds(s, i, w, opt);
    GapSkipped(s, i + b, w', opt);
    a := i + a;
    p := R.ParseValue(s, a, opt);
  }

  lemma {:induction false} ArrayParses(u: string, es: seq<Value>, s: string, i: nat, opt: Options)
    requires IsElements(u, es, opt, true) && At(s, i, u) && Peek(s, i + |u|) == ']'
    ensures i <= |s| && ParsesAs(R.ParseArray(s, i, opt), i + |u| + 1, AcceptElements(es) + [EndArray(|es|)])
    decreases es, 3
  {
    hide Skip, ParseElements, Rereads, IsJson, At, IsGap;
    TextInside(s, i, u);
    if es == [] {
      GapEnds(s, i, u, opt);
      NothingMore(0);
    } else {
      var a := ElementsParse(u, es, s, i, 0, opt);
    }
  }

  lemma ElementsClose(s: string, a: nat, count: nat, p: Parsed, end: nat, opt: Options)
    requires a <= |s| && p == R.ParseValue(s, a, opt) && p.error.None?
    requires SkipsTo(s, p.pos, end, opt) && Peek(s, end) == ']'
    ensures ParseElements(s, a, count, opt) == Done(end + 1, p.events + [EndArray(count + 1)])
  {
    hide Skip, R.ParseValue;
  }

  lemma ElementsComma(s: string, a: nat, count: nat, p: Parsed, k: nat, n: nat, opt: Options)
    requires a <= |s| && p == R.ParseValue(s, a, opt) && p.error.None?
    requires SkipsTo(s, p.pos, k, opt) && Peek(s, k) == ',' && SkipsTo(s, k + 1, n, opt)
    ensures n <= |s|
    ensures ParseElements(s, a, count, opt) ==
              After(p.events, if opt.trailingCommas && Peek(s, n) == ']' then Done(n + 1, [EndArray(count + 1)])
                              else ParseElements(s, n, count + 1, opt))
  {
    hide Skip, R.ParseValue;
  }

  /** The comma after the first element, or -1 if there is none. */
  lemma FirstElement(u: string, es: seq<Value>, opt: Options) returns (k: int)
    requires es != [] && IsElements(u, es, opt, true)
    ensures k < 0 ==> |es| == 1 && IsJson(u, es[0], opt, true)
    ensures k >= 0 ==> HasAt(u, k, ',') && IsJson(u[..k], es[0], opt, true) && IsElements(u[k + 1..], es[1..], opt, true)
    ensures k >= 0 && es[1..] == [] ==> opt.trailingCommas && IsGap(u[k + 1..], opt.comments)
  {
    hide IsJson, IsGap;
    if |es| == 1 && IsJson(u, es[0], opt, true) {
      k := -1;
    } else {
      k :| HasAt(u, k, ',') && IsJson(u[..k], es[0], opt, true) && IsElements(u[k + 1..], es[1..], opt, true);
    }
  }

  lemma {:induction false} ElementsParse(u: string, es: seq<Value>, s: string, i: nat, count: nat, opt: Options) returns (a: nat)
    requires es != [] && IsElements(u, es, opt, true) && At(s, i, u) && Peek(s, i + |u|) == ']'
    ensures SkipsTo(s, i, a, opt) && a <= |s| && OpensValue(Peek(s, a))
    ensures ParsesAs(ParseElements(s, a, count, opt), i + |u| + 1, AcceptElements(es) + [EndArray(count + |es|)])
    decreases es, 2
  {
    hide Skip, R.ParseValue, ParseElements, EventsOf, AcceptElements, IsElements, IsJson, At, Accept, IsGap;
    var rest := es[1..];
    var k := FirstElement(u, es, opt);
    var p;
    if k < 0 {
      a, p := JsonParses(u, es[0], s, i, opt);
      StopsAt(s, i + |u|, opt);
      ElementsClose(s, a, count, p, i + |u|, opt);
      LastElement(es, p.events, count);
    } else {
      SplitAtComma(u, k, s, i);
      a, p := JsonParses(u[..k], es[0], s, i, opt);
      StopsAt(s, i + k, opt);
      if rest == [] {
        GapEnds(s, i + k + 1, u[k + 1..], opt);
        ElementsComma(s, a, count, p, i + k, i + |u|, opt);
        LastElement(es, p.events, count);
      } else {
        var n := ElementsParse(u[k + 1..], rest, s, i + k + 1, count + 1, opt);
        ElementsComma(s, a, count, p, i + k, n, opt);
        NextElement(es, p.events, ParseElements(s, n, count + 1, opt).events, count);
      }
    }
  }

  lemma SplitAtComma(u: string, k: nat, s: string, i: nat)
    requires k < |u| && At(s, i, u)
    ensures At(s, i, u[..k]) && Peek(s, i + k) == u[k] && At(s, i + k + 1, u[k + 1..])
  {
    AtPeek(s, i, u, k);
    assert u[..k] + ([u[k]] + u[k + 1..]) == u;
    AtConcat(s, i, u[..k], [u[k]] + u[k + 1..]);
    AtConcat(s, i + k, [u[k]], u[k + 1..]);
  }

  lemma {:induction false} NextElement(es: seq<Value>, value: seq<Event>, tail: seq<Event>, count: nat)
    requires es != [] && EventsOf(value, Accept(es[0]))
    requires EventsOf(tail, AcceptElements(es[1..]) + [EndArray(count + 1 + |es[1..]|)])
    ensures EventsOf(value + tail, AcceptElements(es) + [EndArray(count + |es|)])
  {
    hide EventsOf, Accept, AcceptElements;
    var end := [EndArray(count + |es|)];
    EventsConcat(value, Accept(es[0]), tail, AcceptElements(es[1..]) + end);
    ElementsFirst(es);
    assert Accept(es[0]) + (AcceptElements(es[1..]) + end) == Accept(es[0]) + AcceptElements(es[1..]) + end;
  }

  lemma ElementsFirst(es: seq<Value>)
    requires es != []
    ensures AcceptElements(es) == Accept(es[0]) + AcceptElements(es[1..]) && AcceptElements([]) == []
  {
  }

  lemma {:induction false} LastElement(es: seq<Value>, value: seq<Event>, count: nat)
    requires |es| == 1 && EventsOf(value, Accept(es[0]))
    ensures EventsOf(value + [EndArray(count + 1)], AcceptElements(es) + [EndArray(count + |es|)])
  {
    hide EventsOf, Accept, AcceptElements;
    var end := [EndArray(count + 1)];
    SameEvent(EndArray(count + 1));
    ElementsFirst(es);
    assert es[1..] == [] && [] + end == end;
    NextElement(es, value, end, count);
  }

  lemma {:induction false} ObjectParses(u: string, ms: seq<Member>, s: string, i: nat, opt: Options)
    requires IsMembers(u, ms, opt, true) && At(s, i, u) && Peek(s, i + |u|) == '}'
    ensures i <= |s| && ParsesAs(R.ParseObject(s, i, opt), i + |u| + 1, AcceptMembers(ms) + [EndObject(|ms|)])
    decreases ms, 5
  {
    hide Skip, ParseMembers, Rereads, IsMember, At, IsGap;
    TextInside(s, i, u);
    if ms == [] {
      GapEnds(s, i, u, opt);
      NothingMore(0);
    } else {
      var a := MembersParse(u, ms, s, i, 0, opt);
    }
  }

  /** A name with gaps around it, before its colon, and the gap after that. */
  lemma NameParses(u: string, name: string, s: string, i: nat, n: nat, opt: Options) returns (a: nat)
    requires IsName(u, name, opt, true) && At(s, i, u) && Peek(s, i + |u|) == ':' && SkipsTo(s, i + |u| + 1, n, opt)
    ensures SkipsTo(s, i, a, opt) && a <= |s| && Peek(s, a) == '"' && ParseName(s, a, opt) == Done(n, [Key(name)])
  {
    hide Skip, ParseString, IsString, At, IsGap;
    var b;
    a, b :| Framed(u, a, b, opt.comments) && IsString(u[a..b], name, true);
    var w, t, w' := u[..a], u[a..b], u[b..];
    assert u == w + t + w';
    AtThree(s, i, w, t, w');
    StringIsRead(t, name, s, i + a, true);
    GapEnds(s, i, w, opt);
    GapEnds(s, i + b, w', opt);
    a := i + a;
  }

  /** A member, before a delimiter. */
  lemma {:induction false} MemberParses(u: string, m: Member, s: string, i: nat, opt: Options) returns (a: nat, q: nat, p: Parsed)
    requires IsMember(u, m, opt, true) && At(s, i, u) && IsDelimiter(Peek(s, i + |u|))
    ensures i + |u| <= |s| && SkipsTo(s, i, a, opt) && a <= |s| && Peek(s, a) == '"'
    ensures ParseName(s, a, opt) == Done(q, [Key(m.name)]) && q <= |s|
    ensures p == R.ParseValue(s, q, opt) && ParsesAs(p, p.pos, Accept(m.value)) && Skip(s, p.pos, opt) == Skip(s, i + |u|, opt)
    decreases m, 3
  {
    hide Skip, R.ParseValue, ParseName, EventsOf, IsName, IsJson, At, Accept;
    var c :| HasAt(u, c, ':') && IsName(u[..c], m.name, opt, true) && IsJson(u[c + 1..], m.value, opt, true);
    SplitAtComma(u, c, s, i);
    q, p := JsonParses(u[c + 1..], m.value, s, i + c + 1, opt);
    a := NameParses(u[..c], m.name, s, i, q, opt);
  }

  lemma MembersClose(s: string, a: nat, q: nat, count: nat, name: string, p: Parsed, end: nat, opt: Options)
    requires a <= |s| && q <= |s| && ParseName(s, a, opt) == Done(q, [Key(name)])
    requires p == R.ParseValue(s, q, opt) && p.error.None?
    requires SkipsTo(s, p.pos, end, opt) && Peek(s, end) == '}'
    ensures ParseMembers(s, a, count, opt) == Done(end + 1, [Key(name)] + (p.events + [EndObject(count + 1)]))
  {
    hide Skip, R.ParseValue, ParseName;
  }

  lemma MembersComma(s: string, a: nat, q: nat, count: nat, name: string, p: Parsed, k: nat, n: nat, opt: Options)
    requires a <= |s| && q <= |s| && ParseName(s, a, opt) == Done(q, [Key(name)])
    requires p == R.ParseValue(s, q, opt) && p.error.None?
    requires SkipsTo(s, p.pos, k, opt) && Peek(s, k) == ',' && SkipsTo(s, k + 1, n, opt)
    ensures n <= |s|
    ensures ParseMembers(s, a, count, opt) ==
              After([Key(name)], After(p.events, if opt.trailingCommas && Peek(s, n) == '}' then Done(n + 1, [EndObject(count + 1)])
                                                 else ParseMembers(s, n, count + 1, opt)))
  {
    hide Skip, R.ParseValue, ParseName;
  }

  /** The comma after the first member, or -1 if there is none. */
  lemma FirstMember(u: string, ms: seq<Member>, opt: Options) returns (k: int)
    requires ms != [] && IsMembers(u, ms, opt, true)
    ensures k < 0 ==> |ms| == 1 && IsMember(u, ms[0], opt, true)
    ensures k >= 0 ==> HasAt(u, k, ',') && IsMember(u[..k], ms[0], opt, true) && IsMembers(u[k + 1..], ms[1..], opt, true)
    ensures k >= 0 && ms[1..] == [] ==> opt.trailingCommas && IsGap(u[k + 1..], opt.comments)
  {
    hide IsMember, IsGap;
    if |ms| == 1 && IsMember(u, ms[0], opt, true) {
      k := -1;
    } else {
      k :| HasAt(u, k, ',') && IsMember(u[..k], ms[0], opt, true) && IsMembers(u[k + 1..], ms[1..], opt, true);
    }
  }

  lemma {:induction false} MembersParse(u: string, ms: seq<Member>, s: string, i: nat, count: nat, opt: Options) returns (a: nat)
    requires ms != [] && IsMembers(u, ms, opt, true) && At(s, i, u) && Peek(s, i + |u|) == '}'
    ensures SkipsTo(s, i, a, opt) && a <= |s| && Peek(s, a) == '"'
    ensures ParsesAs(ParseMembers(s, a, count, opt), i + |u| + 1, AcceptMembers(ms) + [EndObject(count + |ms|)])
    decreases ms, 4
  {
    hide Skip, R.ParseValue, ParseName, ParseMembers, EventsOf, AcceptMembers, IsMembers, IsMember, At, Accept, IsGap;
    var rest := ms[1..];
    var k := FirstMember(u, ms, opt);
    var q, p;
    if k < 0 {
      a, q, p := MemberParses(u, ms[0], s, i, opt);
      StopsAt(s, i + |u|, opt);
      MembersClose(s, a, q, count, ms[0].name, p, i + |u|, opt);
      LastMember(ms, p.events, count);
    } else {
      SplitAtComma(u, k, s, i);
      a, q, p := MemberParses(u[..k], ms[0], s, i, opt);
      StopsAt(s, i + k, opt);
      if rest == [] {
        GapEnds(s, i + k + 1, u[k + 1..], opt);
        MembersComma(s, a, q, count, ms[0].name, p, i + k, i + |u|, opt);
        LastMember(ms, p.events, count);
      } else {
        var n := MembersParse(u[k + 1..], rest, s, i + k + 1, count + 1, opt);
        MembersComma(s, a, q, count, ms[0].name, p, i + k, n, opt);
        NextMember(ms, p.events, ParseMembers(s, n, count + 1, opt).events, count);
      }
    }
  }

  lemma {:induction false} NextMember(ms: seq<Member>, value: seq<Event>, tail: seq<Event>, count: nat)
    requires ms != [] && EventsOf(value, Accept(ms[0].value))
    requires EventsOf(tail, AcceptMembers(ms[1..]) + [EndObject(count + 1 + |ms[1..]|)])
    ensures EventsOf([Key(ms[0].name)] + (value + tail), AcceptMembers(ms) + [EndObject(count + |ms|)])
  {
    hide EventsOf, Accept, AcceptMembers;
    MemberEvents(ms[0].name, ms[0].value, ms[1..], value, tail, count);
    assert [Member(ms[0].name, ms[0].value)] + ms[1..] == ms;
  }

  lemma {:induction false} LastMember(ms: seq<Member>, value: seq<Event>, count: nat)
    requires |ms| == 1 && EventsOf(value, Accept(ms[0].value))
    ensures EventsOf([Key(ms[0].name)] + (value + [EndObject(count + 1)]), AcceptMembers(ms) + [EndObject(count + |ms|)])
  {
    hide EventsOf, Accept, AcceptMembers;
    var end := [EndObject(count + 1)];
    SameEvent(EndObject(count + 1));
    NoMembersEvents();
    assert ms[1..] == [] && [] + end == end;
    NextMember(ms, value, end, count);
  }

  lemma NoMembersEvents()
    ensures AcceptMembers([]) == []
  {
  }

  // ----- Exactly the grammar -----

  /** A whole text: a value with gaps around it; a line comment may go on to the end of the text. */
  ghost predicate IsText(s: string, v: Value, opt: Options, limited: bool) {
    || IsJson(s, v, opt, limited)
    || (opt.comments && exists k :: 0 <= k <= |s| && IsJson(s[..k], v, opt, limited) && IsLineComment(s[k..]))
  }

  /** The parser accepts every text of the grammar, to its end, and emits the events of its tree. */
  lemma GrammarIsParsed(s: string, v: Value, opt: Options)
    requires IsText(s, v, opt, true)
    ensures var p := Parse(s, opt);
            p.error.None? && EventsOf(p.events, Accept(v)) && (!opt.stopWhenDone ==> p.pos == |s|)
  {
    hide Skip, R.ParseValue, EventsOf, IsJson, Accept, IsLineComment;
    if IsJson(s, v, opt, true) {
      assert s[..|s|] == s;
      StopsAt(s, |s|, opt);
      PrefixParses(s, v, |s|, opt);
    } else {
      var k :| 0 <= k <= |s| && IsJson(s[..k], v, opt, true) && IsLineComment(s[k..]);
      LastLineSkipped(s, k, opt);
      LineStarts(s[k..]);
      PrefixParses(s, v, k, opt);
    }
  }

  lemma LineStarts(t: string)
    requires IsLineComment(t)
    ensures t != "" && t[0] == '/'
  {
  }

  lemma PrefixParses(s: string, v: Value, k: nat, opt: Options)
    requires k <= |s| && IsJson(s[..k], v, opt, true) && IsDelimiter(Peek(s, k)) && Skip(s, k, opt) == Done(|s|, [])
    ensures var p := Parse(s, opt);
            p.error.None? && EventsOf(p.events, Accept(v)) && (!opt.stopWhenDone ==> p.pos == |s|)
  {
    hide Skip, R.ParseValue, EventsOf, IsJson, Accept;
    assert s[0..k] == s[..k];
    var a, p := JsonParses(s[..k], v, s, 0, opt);
    assert p.events + [] == p.events;
  }

  /** Every text without null characters that the parser accepts is in the grammar, with a tree of its events. */
  lemma ParsedIsGrammatical(s: string, opt: Options) returns (v: Value)
    requires !opt.stopWhenDone && '\0' !in s && Parse(s, opt).error.None?
    ensures IsText(s, v, opt, true) && EventsOf(Parse(s, opt).events, Accept(v))
  {
    hide Skip, R.ParseValue, EventsOf, IsValue, Accept, IsGap, IsJson, IsLineComment;
    var skip := Skip(s, 0, opt);
    v := ValueTree(s, skip.pos, opt);
    var p := R.ParseValue(s, skip.pos, opt);
    Skipped(s, 0, opt);
    Skipped(s, p.pos, opt);
    assert p.events + [] == p.events;
    var end := Skip(s, p.pos, opt).pos;
    assert end == |s|;
    var w, t, w' := s[0..skip.pos], s[skip.pos..p.pos], s[p.pos..end];
    ThreeParts(s, 0, skip.pos, p.pos, end);
    assert s[0..|s|] == s;
    if IsGap(w', opt.comments) {
      JsonFramed(w, t, w', v, opt);
    } else {
      var k :| 0 <= k <= |w'| && IsGap(w'[..k], opt.comments) && IsLineComment(w'[k..]);
      JsonFramed(w, t, w'[..k], v, opt);
      var n := p.pos + k;
      assert s[..n] == w + t + w'[..k] && s[n..] == w'[k..];
    }
  }

  /** Without the flag for comments, a text is a value with blanks around it. */
  lemma {:induction false} GapIsBlank(w: string)
    ensures IsGap(w, false) <==> AllSpaces(w)
    decreases |w|
  {
    if w != "" {
      GapIsBlank(w[1..]);
      assert w == [w[0]] + w[1..];
    }
  }

  /**
   What is read up to where parsing stops when it is done: a gap and a value,
   whatever follows.
   */
  lemma StopsAfterValue(s: string, opt: Options) returns (v: Value)
    requires opt.stopWhenDone && Parse(s, opt).error.None?
    ensures var p := Parse(s, opt);
            p.pos <= |s| && IsJson(s[..p.pos], v, opt, true) && EventsOf(p.events, Accept(v))
  {
    hide Skip, R.ParseValue, EventsOf, IsValue, Accept, IsGap, IsJson, IsLastGap;
    var skip := Skip(s, 0, opt);
    v := ValueTree(s, skip.pos, opt);
    var p := R.ParseValue(s, skip.pos, opt);
    Skipped(s, 0, opt);
    NoGap(opt.comments);
    assert p.events + [] == p.events;
    JsonFramed(s[0..skip.pos], s[skip.pos..p.pos], "", v, opt);
    assert s[0..skip.pos] + s[skip.pos..p.pos] + "" == s[..p.pos];
  }

  /** Both parsers accept exactly the texts of the grammar. */
  lemma ParsersAcceptGrammar(s: string, opt: Options)
    requires !opt.stopWhenDone && '\0' !in s
    ensures Parse(s, opt).error.None? <==> exists v :: IsText(s, v, opt, true)
    ensures I.IterativeParse(s, opt).error.None? <==> exists v :: IsText(s, v, opt, true)
  {
    hide Parse, I.IterativeParse, IsText, EventsOf, Skip;
    I.ParsersAgree(s, opt);
    if Parse(s, opt).error.None? {
      var v := ParsedIsGrammatical(s, opt);
    }
    if v :| IsText(s, v, opt, true) {
      GrammarIsParsed(s, v, opt);
    }
  }

  /** No text denotes two trees. */
  lemma GrammarIsUnambiguous(s: string, v: Value, w: Value, opt: Options)
    requires IsText(s, v, opt, true) && IsText(s, w, opt, true)
    ensures v == w
  {
    hide Parse, IsText, EventsOf, Accept, Build;
    GrammarIsParsed(s, v, opt);
    GrammarIsParsed(s, w, opt);
    EventsBuild(v, Parse(s, opt).events);
    EventsBuild(w, Parse(s, opt).events);
    assert [v][0] == [w][0];
  }

  /** From the events of a tree, whatever their integer types, the tree is built. */
  lemma EventsBuild(v: Value, es: seq<Event>)
    requires EventsOf(es, Accept(v))
    ensures Build([], es) == Some([v])
  {
    hide EventsOf, Accept, Build;
    Replay(v, []);
    assert [] + [v] == [v];
    BuildWellTyped([], Accept(v));
    BuildSame([], es, Accept(v));
  }

  /**
   From every text that it accepts, whatever the parse flags, the parser feeds a
   document the events of exactly one tree: the counts are right and the
   containers are nested.
   */
  lemma AcceptedTextBuilds(s: string, opt: Options) returns (v: Value)
    requires Parse(s, opt).error.None?
    ensures EventsOf(Parse(s, opt).events, Accept(v))
    ensures Build([], Parse(s, opt).events) == Some([v])
  {
    hide Skip, R.ParseValue, EventsOf, Accept, Build, IsValue;
    var skip := Skip(s, 0, opt);
    v := ValueTree(s, skip.pos, opt);
    var p := R.ParseValue(s, skip.pos, opt);
    assert p.events + [] == p.events;
    EventsBuild(v, p.events);
  }

  /** A number of section 6 that the parser refuses, although its value is zero. */
  lemma ZeroIsTooBig(opt: Options)
    ensures IsJson("0e309", Double("0e309"), opt, false) && Parse("0e309", opt) == Fail(NumberTooBig, 0)
  {
    ZeroIsJson("0e309", opt);
    ZeroIsRefused("0e309", opt);
    hide *;
  }

  lemma ZeroIsJson(t: string, opt: Options)
    requires t == "0e309"
    ensures IsJson(t, Double("0e309"), opt, false)
  {
    ZeroParts(t);
    hide NumberParts, PartsInRange, Decimal;
    assert !AllDigits(t) by { assert t[1] == 'e'; }
    assert NumberValue(t) == Double(t) by { assert t[0..] == t; }
    assert t[..0] == "" && t[0..5] == t && t[5..] == "";
    assert Framed(t, 0, 5, opt.comments);
  }

  lemma ZeroIsRefused(t: string, opt: Options)
    requires t == "0e309"
    ensures Parse(t, opt) == Fail(NumberTooBig, 0)
  {
    hide PartsInRange, R.ParseNumber;
    ZeroParts(t);
    NumberIsRead(t, 1, 1, opt);
    hide NumberParts;
    StopsAt(t, 0, opt);
    assert R.ParseValue(t, 0, opt) == Fail(NumberTooBig, 0);
  }

  lemma ZeroParts(t: string)
    requires t == "0e309"
    ensures NumberParts(t, 1, 1) && forall opt :: !PartsInRange(t, 1, 1, opt)
  {
    assert t[0..1] == "0" && t[1..1] == "" && t[1..] == "e309" && t[1..][1..] == "309";
    assert Decimal("3") == 3 by { DecimalLast("", '3'); assert "" + ['3'] == "3"; }
    assert Decimal("30") == 30 by { DecimalLast("3", '0'); assert "3" + ['0'] == "30"; }
    assert Decimal("309") == 309 by { DecimalLast("30", '9'); assert "30" + ['9'] == "309"; }
  }

  /** A string of section 7 that the parser refuses: the escape of a surrogate without its partner. */
  lemma LoneSurrogate(opt: Options)
    ensures IsJson("\"\\uD800\"", String(Units(0xD800)), opt, false)
    ensures Parse("\"\\uD800\"", opt) == Fail(StringUnicodeSurrogateInvalid, 1)
  {
    LoneIsJson("\"\\uD800\"", opt);
    LoneIsRefused("\"\\uD800\"", opt);
    hide *;
  }

  lemma LoneIsJson(t: string, opt: Options)
    requires t == "\"\\uD800\""
    ensures IsJson(t, String(Units(0xD800)), opt, false)
  {
    hide StringText, Units, Hex4, HexValue;
    var b := t[1..7];
    assert b == "\\uD800";
    LoneHex(b);
    LoneText(b);
    assert Units(0xD800) + "" == Units(0xD800);
    assert t[..0] == "" && t[0..8] == t && t[8..] == "";
    assert Framed(t, 0, 8, opt.comments);
  }

  lemma LoneHex(b: string)
    requires b == "\\uD800"
    ensures Hex4(b, 2) == 0xD800
  {
  }

  lemma LoneIsRefused(t: string, opt: Options)
    requires t == "\"\\uD800\""
    ensures Parse(t, opt) == Fail(StringUnicodeSurrogateInvalid, 1)
  {
    hide Units;
    assert Hex4(t, 3) == 0xD800;
    assert ParsePiece(t, 1) == BadPiece(StringUnicodeSurrogateInvalid, 1);
    StopsAt(t, 0, opt);
    assert R.ParseValue(t, 0, opt).error == Some(ParseError(StringUnicodeSurrogateInvalid, 1));
  }

  lemma LoneText(b: string)
    requires b == "\\uD800" && Hex4(b, 2) == 0xD800
    ensures StringText(b) == Some(Units(0xD800) + "")
  {
    CharIs(b);
    EscapeOfU();
    hide CharLength, CharText, Code, Hex4, Units, Unescape;
    assert b[6..] == "";
    CharLengthOfNothing();
    assert !IsPair(b);
    assert StringText("") == Some("");
  }

  lemma CharLengthOfNothing()
    ensures CharLength("") == 0
  {
  }
}
