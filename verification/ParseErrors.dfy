/**
 What a reported error says of the text, in the terms of the grammar: of a number
 how far it could have been one, and of a string the first place where it stops
 being one. The position is the offset of the error.
 */
module ParseErrors {
  import opened Json
  import opened Arithmetic
  import opened Reader
  import opened Texts
  import opened PrintParse
  import opened JsonGrammar
  import PW = PrettyWriters
  import R = Reader
  import GR = GenericReaders

  // ----- Strings -----

  /** Why the text `r` begins neither with a character of section 7 nor with a quotation mark. */
  function StringFault(r: string): ParseErrorCode {
    if r == "" || r[0] == '\0' then StringMissQuotationMark
    else if r[0] as int < 0x20 then StringInvalidEncoding
    else if |r| < 2 || r[1] != 'u' then StringEscapeInvalid
    else if !HasCode(r) || (IsHigh(r) && |r| >= 8 && r[6] == '\\' && r[7] == 'u' && !HasCode(r[6..])) then
      StringUnicodeEscapeInvalidHex
    else StringUnicodeSurrogateInvalid
  }

  /** The text `r` begins with a character, or an escaped pair of surrogates. */
  predicate BeginsCharacter(r: string) {
    IsPair(r) || (CharLength(r) > 0 && !IsHigh(r) && !IsLow(r))
  }

  lemma PieceFault(s: string, i: nat)
    requires i <= |s| && Peek(s, i) != '"'
    ensures ParsePiece(s, i).Piece? <==> BeginsCharacter(s[i..])
    ensures ParsePiece(s, i).Bad? ==> ParsePiece(s, i) == BadPiece(StringFault(s[i..]), i)
  {
    var r := s[i..];
    if ParsePiece(s, i).Piece? {
      PieceIsGrammatical(s, i, |s|);
      assert s[i..|s|] == r;
    } else {
      assert At(s, i, r) by { assert s[i..i + |r|] == r; }
      if BeginsCharacter(r) {
        PairHasLength(r);
        PieceIsRead(s, i, r);
      }
      BadPieceIs(s, i, r);
    }
  }

  lemma BadPieceIs(s: string, i: nat, r: string)
    requires i <= |s| && r == s[i..] && Peek(s, i) != '"' && ParsePiece(s, i).Bad?
    ensures ParsePiece(s, i) == BadPiece(StringFault(r), i)
  {
    hide Unescape, Hex4, HexValue, Hexadecimal, Units, CharLength, Code, HasCode;
    if r != "" {
      assert r[0] == s[i] && (|r| > 1 ==> r[1] == s[i + 1]);
      if s[i] == '\\' && Peek(s, i + 1) == 'u' {
        BadUnicodeIs(s, i, r);
      }
    }
  }

  lemma BadUnicodeIs(s: string, i: nat, r: string)
    requires i <= |s| && r == s[i..] && |r| >= 2 && r[0] == '\\' && r[1] == 'u' && ParseUnicode(s, i).Bad?
    ensures ParseUnicode(s, i) == BadPiece(StringFault(r), i)
  {
    hide Unescape, HexValue, Hexadecimal, IsHexadecimal, Units;
    CodeAt(s, i, r);
    EscapeOfU();
    CharIs(r);
    if |r| >= 8 {
      assert r[6] == s[i + 6] && r[7] == s[i + 7];
      CodeAt(s, i + 6, r[6..]);
    }
    hide Hex4, CharLength, Code;
  }

  /** The four digits of an escape are those that the parser looks at. */
  lemma CodeAt(s: string, i: nat, r: string)
    requires i <= |s| && r == s[i..] && |r| >= 2
    ensures HasCode(r) <==> r[1] == 'u' && Hex4(s, i + 2) >= 0
    ensures HasCode(r) ==> Code(r) == Hex4(s, i + 2)
  {
    hide HexValue, Hexadecimal, IsHexadecimal;
    if |r| >= 6 {
      assert At(s, i, r) by { assert s[i..i + |r|] == r; }
      HexSame(s, i, r, 2);
      CodeBelow(r);
    }
  }

  /**
   A string in which an error is reported: up to the offset it consists of
   characters of section 7, and there no further character begins, for the reason
   that the code names.
   */
  lemma {:induction false} StringFaultAt(s: string, i: nat)
    requires i <= |s| && ParseStringBody(s, i).Bad?
    ensures var e := ParseStringBody(s, i).error;
            && i <= e.offset <= |s| && StringText(s[i..e.offset]).Some? && Paired(s[i..e.offset])
            && !BeginsCharacter(s[e.offset..]) && Peek(s, e.offset) != '"' && e.code == StringFault(s[e.offset..])
    decreases |s| - i
  {
    hide ParsePiece, BeginsCharacter, StringFault, CharLength, CharText, PairText, IsHigh, IsLow;
    PieceFault(s, i);
    var first := ParsePiece(s, i);
    if first.Bad? {
      NothingUnpaired();
      assert s[i..i] == "";
    } else {
      StringFaultAt(s, first.pos);
      var o := ParseStringBody(s, i).error.offset;
      PieceIsGrammatical(s, i, o);
      var b := s[i..o];
      PairHasLength(b);
      assert b[first.pos - i..] == s[first.pos..o];
    }
  }

  // ----- Numbers -----

  predicate IsMinus(t: string) { t == "" || t == "-" }

  /** The letter of an exponent and its sign, if any. */
  predicate IsExponentStart(t: string) {
    t in ["e", "E", "e+", "e-", "E+", "E-"]
  }

  /** A sign, an integer part and a fraction without their exponent. */
  predicate IsSignificand(t: string, b: nat) {
    NumberParts(t, b, |t|)
  }

  /**
   The text from `i` on is a number up to `o`, but for a digit that does not come
   there; or it is a number of the grammar that is out of range.
   */
  ghost predicate NumberFault(s: string, i: nat, code: ParseErrorCode, o: nat, opt: Options)
    requires i <= |s|
  {
    match code
    case ValueInvalid => i <= o <= |s| && IsMinus(s[i..o]) && !IsDigit(Peek(s, o))
    case NumberMissFraction =>
      i < o <= |s| && s[o - 1] == '.' && IsSignificand(s[i..o - 1], o - 1 - i) && !IsDigit(Peek(s, o))
    case NumberMissExponent =>
      i < o <= |s| && !IsDigit(Peek(s, o))
      && exists b, k :: i < k < o && IsSignificand(s[i..k], b) && IsExponentStart(s[k..o])
    case NumberTooBig => o == i && exists e :: i < e <= |s| && IsNumber(s[i..e]) && !InRange(s[i..e], opt) && !IsDigit(Peek(s, e))
    case _ => false
  }

  lemma SignificandIs(s: string, i: nat, point: nat, c: nat)
    requires i <= WholeStart(s, i) <= point <= c <= |s| && IsInt(s[WholeStart(s, i)..point]) && IsFrac(s[point..c])
    ensures i < point && IsSignificand(s[i..c], point - i)
  {
    hide IsInt, IsFrac, IsExp;
    var t, j := s[i..c], WholeStart(s, i);
    IntIsThere(s[j..point]);
    MinusIs(s, i, t);
    AtSlice(s, i, t, j - i, point - i);
    AtSlice(s, i, t, point - i, c - i);
    NoParts();
    hide At, WholeStart, MinusLength;
    assert t[|t|..] == "";
  }

  lemma IntIsThere(t: string)
    requires IsInt(t)
    ensures t != ""
  {
  }

  /** Without an exponent the parts of the significand are those of a number. */
  lemma SignificandRead(s: string, i: nat)
    requires i <= |s| && IsDigit(Peek(s, WholeStart(s, i)))
    requires var point := WholeEnd(s, WholeStart(s, i)); Peek(s, point) == '.' ==> IsDigit(Peek(s, point + 1))
    ensures var point := WholeEnd(s, WholeStart(s, i));
            var c := FractionEnd(s, point);
            i < point <= c <= |s| && IsSignificand(s[i..c], point - i)
  {
    hide DigitsEnd, WholeEnd, IsDigit, IsInt, IsFrac, IsSignificand;
    var j := WholeStart(s, i);
    var point := WholeEnd(s, j);
    IntRead(s, j);
    FracRead(s, point);
    SignificandIs(s, i, point, FractionEnd(s, point));
  }

  lemma WholeRead(s: string, i: nat)
    requires i <= |s| && IsDigit(Peek(s, WholeStart(s, i)))
    ensures var point := WholeEnd(s, WholeStart(s, i)); i < point <= |s| && IsSignificand(s[i..point], point - i)
  {
    hide DigitsEnd, WholeEnd, IsDigit, IsInt, IsFrac, IsSignificand;
    var j := WholeStart(s, i);
    var point := WholeEnd(s, j);
    IntRead(s, j);
    NoParts();
    assert s[point..point] == "";
    SignificandIs(s, i, point, point);
  }

  lemma NoParts()
    ensures IsFrac("") && IsExp("")
  {
  }

  lemma ExponentRead(s: string, c: nat, start: nat, scale: nat)
    requires c <= |s| && R.ParseExponent(s, c, start, scale).error.Some?
    ensures var e := R.ParseExponent(s, c, start, scale).error.value;
            R.ParseExponent(s, c, start, scale) == Fail(e.code, e.offset)
    ensures var e := R.ParseExponent(s, c, start, scale).error.value;
            if e.code == NumberMissExponent then c < e.offset <= |s| && IsExponentStart(s[c..e.offset]) && !IsDigit(Peek(s, e.offset))
            else e == ParseError(NumberTooBig, start)
  {
    hide Decimal, DigitsEnd;
    var signed := Peek(s, c + 1) == '+' || Peek(s, c + 1) == '-';
    if signed {
      assert s[c..c + 2] == [s[c], s[c + 1]];
    } else {
      assert s[c..c + 1] == [s[c]];
    }
  }

  /** The end of the exponent at `c`, whose digits are there. */
  function ExponentEnd(s: string, c: nat): (e: nat)
    requires c <= |s|
    ensures c <= e <= |s|
  {
    if Peek(s, c) != 'e' && Peek(s, c) != 'E' then c
    else
      var j := if Peek(s, c + 1) == '+' || Peek(s, c + 1) == '-' then c + 2 else c + 1;
      if j <= |s| then DigitsEnd(s, j) else c
  }

  /** An exponent that is too large is read to its end with a larger bound. */
  lemma LargeExponent(s: string, c: nat, start: nat, scale: nat) returns (large: nat)
    requires c <= |s| && R.ParseExponent(s, c, start, scale) == Fail(NumberTooBig, start)
    ensures var e := ExponentEnd(s, c);
            && c < e && R.ParseExponent(s, c, start, large) == Done(e, []) && !IsDigit(Peek(s, e)) && s[c + 1] != '-'
            && var j := if s[c + 1] == '+' then c + 2 else c + 1;
               j < e && AllDigits(s[j..e]) && Decimal(s[j..e]) > 308 + scale
  {
    hide Decimal, DigitsEnd;
    var j := if Peek(s, c + 1) == '+' then c + 2 else c + 1;
    large := Decimal(s[j..DigitsEnd(s, j)]);
  }

  /** The number whose exponent is too large, alone, is out of range. */
  lemma LargeIsOutOfRange(s: string, i: nat, e: nat, b: nat, c: nat, scale: nat, opt: Options)
    requires i + c < e <= |s| && NumberParts(s[i..e], b, c)
    requires scale == CountedDigits(s[i..e], b, c) && s[i + c + 1] != '-'
    requires var j := if s[i + c + 1] == '+' then i + c + 2 else i + c + 1;
             j < e && AllDigits(s[j..e]) && Decimal(s[j..e]) > 308 + scale
    ensures !PartsInRange(s[i..e], b, c, opt)
  {
    hide Decimal, IsInt, IsFrac, CountedDigits, NumberValue;
    var t := s[i..e];
    var j := if s[i + c + 1] == '+' then i + c + 2 else i + c + 1;
    var x := t[c..];
    assert x[0] == s[i + c] && x[1] == s[i + c + 1];
    assert ExpDigits(t, c) == s[j..e] by {
      assert x == s[i + c..e];
      assert x[SignLength(x)..] == s[j..e];
    }
  }

  /** A literal that the parser, alone, calls too big is out of range. */
  lemma TooBigIsOutOfRange(t: string, opt: Options)
    requires R.ParseNumber(t, 0, opt).error.Some?
    ensures !InRange(t, opt)
  {
    hide R.ParseNumber, NumberParts, PartsInRange;
    if InRange(t, opt) {
      var b, c :| NumberParts(t, b, c) && PartsInRange(t, b, c, opt);
      NumberIsRead(t, b, c, opt);
    }
  }

  /** Where the parser has read the significand of a number. */
  predicate SignificandOk(s: string, i: nat)
    requires i <= |s|
  {
    IsDigit(Peek(s, WholeStart(s, i)))
    && var point := WholeEnd(s, WholeStart(s, i)); Peek(s, point) == '.' ==> IsDigit(Peek(s, point + 1))
  }

  /** Where the integer part ends, where the fraction ends, and how many of its digits count. */
  function PointOf(s: string, i: nat): (point: nat)
    requires i <= |s| && SignificandOk(s, i)
    ensures i <= WholeStart(s, i) < point <= |s| && AllDigits(s[WholeStart(s, i)..point])
  {
    WholeEnd(s, WholeStart(s, i))
  }

  function SignificandEnd(s: string, i: nat): (c: nat)
    requires i <= |s| && SignificandOk(s, i)
    ensures PointOf(s, i) <= c <= |s|
  {
    FractionEnd(s, PointOf(s, i))
  }

  function ScaleOf(s: string, i: nat): nat
    requires i <= |s| && SignificandOk(s, i)
  {
    Scale(s, WholeStart(s, i), PointOf(s, i), WholeStart(s, i) == i + 1)
  }

  /** The parts of the literal from `i` to `e`, and the fraction digits of it that count. */
  lemma LiteralParts(s: string, i: nat, e: nat, scale: nat)
    requires i <= |s| && SignificandOk(s, i) && R.ParseExponent(s, SignificandEnd(s, i), i, scale) == Done(e, [])
    ensures SignificandEnd(s, i) <= e <= |s| && At(s, i, s[i..e])
    ensures var b, c := PointOf(s, i) - i, SignificandEnd(s, i) - i;
            NumberParts(s[i..e], b, c) && ScaleOf(s, i) == CountedDigits(s[i..e], b, c)
  {
    hide Decimal, DigitsEnd, WholeEnd, FractionEnd, Scale, R.ParseExponent, NumberParts, IsDigit, CountedDigits;
    PartsRead(s, i, e, scale);
    var t, b, c := s[i..e], PointOf(s, i) - i, SignificandEnd(s, i) - i;
    FracFound(t, b, c);
    PointIs(s, i, i + b, t, b, c);
    ScaleSame(s, i, t, b, c);
    ScaleIs(t, b, c);
    MinusIs(s, i, t);
  }

  lemma MinusIs(s: string, i: nat, t: string)
    requires t != "" && At(s, i, t)
    ensures WholeStart(s, i) == i + MinusLength(t)
  {
    AtPeek(s, i, t, 0);
  }

  lemma PointIs(s: string, i: nat, point: nat, t: string, b: nat, c: nat)
    requires i <= point <= |s| && NumberParts(t, b, c) && point == i + b && FractionEnd(s, point) == i + c
    requires Peek(s, point) == '.' ==> IsDigit(Peek(s, point + 1))
    ensures Peek(s, point) == '.' <==> b < c
  {
    hide NumberParts;
  }

  /** Alone, the literal is too big as well. */
  lemma ReadAloneIsTooBig(s: string, i: nat, e: nat, opt: Options)
    requires i <= |s| && SignificandOk(s, i) && R.ParseNumber(s, i, opt) == Fail(NumberTooBig, i)
    requires R.ParseExponent(s, SignificandEnd(s, i), i, ScaleOf(s, i)) == Done(e, [])
    ensures i <= e <= |s| && R.ParseNumber(s[i..e], 0, opt).error.Some?
  {
    hide Decimal, DigitsEnd, WholeEnd, FractionEnd, Scale, R.ParseExponent, R.ParseNumber, NumberParts, IsDigit, CountedDigits,
         NumberResult;
    LiteralParts(s, i, e, ScaleOf(s, i));
    NumberShape(s, i, opt);
    NumberReadAlone(s, i, s[i..e], PointOf(s, i) - i, SignificandEnd(s, i) - i, ScaleOf(s, i), opt);
    MinusIs(s, i, s[i..e]);
  }

  /** No digit follows a literal that is too big. */
  lemma LiteralEnds(s: string, i: nat, e: nat, opt: Options)
    requires i <= |s| && SignificandOk(s, i) && R.ParseNumber(s, i, opt) == Fail(NumberTooBig, i)
    requires R.ParseExponent(s, SignificandEnd(s, i), i, ScaleOf(s, i)) == Done(e, [])
    ensures e <= |s| && !IsDigit(Peek(s, e))
  {
    hide Decimal, Scale, R.ParseNumber;
    NumberShape(s, i, opt);
    var j, point := WholeStart(s, i), PointOf(s, i);
    GR.ZeroDecimal();
    assert s[j] == '0' ==> s[j..point] == "0";
  }

  /** The exponent is too large. */
  lemma LargeExponentAt(s: string, i: nat, opt: Options)
    requires i <= |s| && SignificandOk(s, i)
    requires R.ParseExponent(s, SignificandEnd(s, i), i, ScaleOf(s, i)) == Fail(NumberTooBig, i)
    ensures NumberFault(s, i, NumberTooBig, i, opt)
  {
    hide Decimal, DigitsEnd, PointOf, SignificandEnd, ScaleOf, R.ParseExponent, R.ParseNumber, NumberParts, IsDigit, CountedDigits,
         PartsInRange, InRange, Peek, NumberFault, ParsesNumber, SignificandOk;
    var b, c, scale := PointOf(s, i) - i, SignificandEnd(s, i), ScaleOf(s, i);
    var large := LargeExponent(s, c, i, scale);
    var e := ExponentEnd(s, c);
    LiteralParts(s, i, e, large);
    LargeIsOutOfRange(s, i, e, b, c - i, scale, opt);
    NumberIsRead(s[i..e], b, c - i, opt);
    TooBigIsOutOfRange(s[i..e], opt);
    FoundTooBig(s, i, e, b, c - i, opt);
  }

  /** A number that is reported as too big is one of the grammar out of range. */
  lemma TooBigAt(s: string, i: nat, opt: Options)
    requires i <= |s| && SignificandOk(s, i) && R.ParseNumber(s, i, opt) == Fail(NumberTooBig, i)
    ensures NumberFault(s, i, NumberTooBig, i, opt)
  {
    hide Decimal, DigitsEnd, WholeEnd, FractionEnd, Scale, R.ParseExponent, R.ParseNumber, NumberParts, IsDigit, CountedDigits,
         PartsInRange, NumberResult, InRange, Peek, NumberFault, WholeStart;
    NumberShape(s, i, opt);
    var end := R.ParseExponent(s, SignificandEnd(s, i), i, ScaleOf(s, i));
    if end.error.Some? {
      LargeExponentAt(s, i, opt);
    } else {
      var e := end.pos;
      LiteralParts(s, i, e, ScaleOf(s, i));
      ReadAloneIsTooBig(s, i, e, opt);
      TooBigIsOutOfRange(s[i..e], opt);
      LiteralEnds(s, i, e, opt);
      FoundTooBig(s, i, e, PointOf(s, i) - i, SignificandEnd(s, i) - i, opt);
    }
  }

  lemma FoundTooBig(s: string, i: nat, e: nat, b: nat, c: nat, opt: Options)
    requires i < e <= |s| && NumberParts(s[i..e], b, c) && !InRange(s[i..e], opt) && !IsDigit(Peek(s, e))
    ensures NumberFault(s, i, NumberTooBig, i, opt)
  {
    hide NumberParts, InRange;
  }

  lemma NumberBegins(s: string, i: nat, opt: Options)
    requires i <= |s|
    ensures var j := WholeStart(s, i);
            if !IsDigit(Peek(s, j)) then R.ParseNumber(s, i, opt) == Fail(ValueInvalid, j)
            else
              var point := WholeEnd(s, j);
              Peek(s, point) == '.' && !IsDigit(Peek(s, point + 1)) ==>
                R.ParseNumber(s, i, opt) == Fail(NumberMissFraction, point + 1)
  {
    hide Decimal, IntegerEvent;
  }

  /** A number in which an error is reported: the text up to the offset and what does not follow there. */
  lemma NumberFaultAt(s: string, i: nat, opt: Options)
    requires i <= |s| && R.ParseNumber(s, i, opt).error.Some?
    ensures var e := R.ParseNumber(s, i, opt).error.value; NumberFault(s, i, e.code, e.offset, opt)
  {
    hide Decimal, DigitsEnd, WholeEnd, FractionEnd, Scale, R.ParseExponent, R.ParseNumber, IsDigit, IsSignificand, InRange,
         NumberResult;
    NumberBegins(s, i, opt);
    var j := WholeStart(s, i);
    assert s[i..j] == if j == i then "" else [s[i]];
    if IsDigit(Peek(s, j)) {
      var point := WholeEnd(s, j);
      WholeRead(s, i);
      if SignificandOk(s, i) {
        NumberShape(s, i, opt);
        SignificandRead(s, i);
        var c := FractionEnd(s, point);
        var end := R.ParseExponent(s, c, i, Scale(s, j, point, j == i + 1));
        if end.error.Some? && end.error.value.code == NumberMissExponent {
          ExponentRead(s, c, i, Scale(s, j, point, j == i + 1));
          assert IsSignificand(s[i..c], point - i) && IsExponentStart(s[c..end.error.value.offset]);
        } else {
          if end.error.Some? {
            ExponentRead(s, c, i, Scale(s, j, point, j == i + 1));
          }
          TooBigAt(s, i, opt);
        }
      }
    }
  }

  // ----- Words -----

  /** A word that is refused: the text up to the offset is the beginning of the word, and there it departs from it. */
  lemma {:induction false} WordFaultAt(s: string, i: nat, word: string, e: Event)
    requires i <= |s| && word != "" && R.ParseLiteral(s, i, word, e).error.Some?
    ensures var o := R.ParseLiteral(s, i, word, e).error.value.offset;
            && R.ParseLiteral(s, i, word, e).error.value.code == ValueInvalid
            && i <= o <= |s| && o - i < |word| && s[i..o] == word[..o - i] && (o == |s| || s[o] != word[o - i])
    decreases |word|
  {
    var n := Matching(s, i, word);
    if n > 0 {
      WordFaultAt(s, i + 1, word[1..], e);
      assert s[i..i + n] == [s[i]] + s[i + 1..i + n];
      assert word[..n] == [word[0]] + word[1..][..n - 1];
    }
  }

  // ----- Comments -----

  /** At `k` a slash begins no comment, or a block comment that does not end; the offset `o` is where that shows. */
  predicate CommentFault(s: string, k: nat, o: nat) {
    && k < |s| && s[k] == '/'
    && if Peek(s, k + 1) == '*' then
         && k + 2 <= o <= |s| && Peek(s, o) == '\0' && '\0' !in s[k + 2..o]
         && forall j :: k + 2 <= j < o ==> !(s[j] == '*' && Peek(s, j + 1) == '/')
       else Peek(s, k + 1) != '/' && o == k + 1
  }

  lemma {:induction false} OpenBlock(s: string, i: nat)
    requires i <= |s| && BlockComment(s, i).error.Some?
    ensures var e := BlockComment(s, i).error.value;
            && e.code == UnspecificSyntaxError && i <= e.offset <= |s| && Peek(s, e.offset) == '\0' && '\0' !in s[i..e.offset]
            && forall j :: i <= j < e.offset ==> !(s[j] == '*' && Peek(s, j + 1) == '/')
    decreases |s| - i
  {
    if Peek(s, i) == '\0' {
      assert s[i..i] == "";
    } else {
      OpenBlock(s, i + 1);
      var o := BlockComment(s, i).error.value.offset;
      assert s[i..o] == [s[i]] + s[i + 1..o];
    }
  }

  lemma {:induction false} CommentsFault(s: string, i: nat) returns (k: nat)
    requires i <= |s| && SkipComments(s, i).error.Some?
    ensures var e := SkipComments(s, i).error.value;
            && e.code == UnspecificSyntaxError && i <= k <= |s| && IsGap(s[i..k], true) && CommentFault(s, k, e.offset)
    decreases |s| - i
  {
    hide IsComment, IsLineComment, SkipWhitespace, LineComment, BlockComment, AllSpaces;
    k := i;
    NoGap(true);
    assert s[i..i] == "";
    if Peek(s, i + 1) == '*' && BlockComment(s, i + 2).error.Some? {
      OpenBlock(s, i + 2);
    } else if Peek(s, i + 1) == '*' || Peek(s, i + 1) == '/' {
      var j := CommentEnd(s, i);
      CommentRead(s, i);
      SkippedSpaces(s, j);
      var n := SkipWhitespace(s, j);
      if Peek(s, j) == '\0' {
        NothingLeft(s, j);
      }
      k := CommentsFault(s, n);
      hide IsGap, SkipComments, CommentFault;
      GapsJoin(s[i..j], s[j..n], s[n..k]);
      ThreeParts(s, i, j, n, k);
    }
  }

  /** Where blanks and comments are skipped, an error is that of the first slash that begins no whole comment. */
  lemma SkipFaultAt(s: string, i: nat, opt: Options) returns (k: nat)
    requires i <= |s| && Skip(s, i, opt).error.Some?
    ensures opt.comments
    ensures var e := Skip(s, i, opt).error.value;
            && e.code == UnspecificSyntaxError && i <= k <= |s| && IsGap(s[i..k], true) && CommentFault(s, k, e.offset)
  {
    hide IsGap, AllSpaces, SkipComments, SkipWhitespace, CommentFault;
    var j := SkipWhitespace(s, i);
    SkippedSpaces(s, i);
    k := CommentsFault(s, j);
    BlanksBefore(s[i..j], s[j..k], true);
    assert s[i..j] + s[j..k] == s[i..k];
  }

  // ----- What the printer escapes -----

  /**
   A character of a string is written as it is unless section 7 asks for an
   escape: a short one where there is one, and otherwise its code in upper-case
   hexadecimal digits.
   */
  lemma EscapeIs(c: char)
    ensures var e := PW.Escape(c);
            if c as int >= 0x20 && c != '"' && c != '\\' then e == [c]
            else
              && (forall k :: 0 <= k < 8 && DENOTED[k] == c as int ==> e == ['\\', ESCAPED[k]])
              && ((forall k :: 0 <= k < 8 ==> DENOTED[k] != c as int) ==>
                    && |e| == 6 && e[0] == '\\' && HasCode(e) && Code(e) == c as int
                    && forall k :: 2 <= k < 6 ==> e[k] in UPPER_HEX)
  {
    var e := PW.Escape(c);
    assert DENOTED[0] == 0x22 && DENOTED[1] == 0x5C && DENOTED[3] == 0x08 && DENOTED[4] == 0x0C
        && DENOTED[5] == 0x0A && DENOTED[6] == 0x0D && DENOTED[7] == 0x09;
    if |e| == 6 {
      ControlIs(c, e);
    }
  }

  lemma ControlIs(c: char, e: string)
    requires c as int < 0x20 && e == ['\\', 'u', '0', '0', HexDigit(c as int / 16), HexDigit(c as int % 16)]
    ensures HasCode(e) && Code(e) == c as int && forall k :: 2 <= k < 6 ==> e[k] in UPPER_HEX
  {
    HexValues(0, e[2]);
    HexValues(c as int / 16, e[4]);
    HexValues(c as int % 16, e[5]);
    hide Hexadecimal, HexDigit, LOWER_HEX, UPPER_HEX;
    HexDigitValue(c as int / 16);
    HexDigitValue(c as int % 16);
    hide HexValue;
    CodeBelow(e);
    ZeroHex();
  }

  lemma ZeroHex()
    ensures HexValue('0') == 0
  {
  }
}
