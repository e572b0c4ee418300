/**
 Printing and parsing are inverse: the text of any tree, in any format, is
 parsed back into the tree's events.
 */
module PrintParse {
  import opened Json
  import opened Arithmetic
  import opened Reader
  import opened PrettyWriters
  import opened Texts
  import Encodings

  /** The event by which the parser reports an integer: unsigned unless there is a minus sign. */
  function Reread(e: Event): Event {
    match e
    case IntEvent(n) => if n >= 0 then UintEvent(n) else e
    case Int64Event(n) => if n >= 0 then Uint64Event(n) else e
    case _ => e
  }

  function Rereads(es: seq<Event>): (r: seq<Event>)
    ensures |r| == |es|
  {
    seq(|es|, i requires 0 <= i < |es| => Reread(es[i]))
  }

  lemma RereadsConcat(a: seq<Event>, b: seq<Event>)
    ensures Rereads(a + b) == Rereads(a) + Rereads(b)
  {
  }

  /** A literal that the parser takes as one double. */
  ghost predicate ValidDouble(d: string, opt: Options) {
    ParseNumber(d, 0, opt) == Done(|d|, [DoubleEvent(d)])
  }

  /** Every double of the tree is given by a literal that is one. */
  ghost predicate Printable(v: Value, opt: Options) {
    match v
    case Double(d) => ValidDouble(d, opt)
    case Array(es) => forall k :: 0 <= k < |es| ==> Printable(es[k], opt)
    case Object(ms) => forall k :: 0 <= k < |ms| ==> Printable(ms[k].value, opt)
    case _ => true
  }

  lemma AtPeek(s: string, i: nat, t: string, k: nat)
    requires At(s, i, t) && k < |t|
    ensures i + k < |s| && s[i + k] == t[k] && Peek(s, i + k) == t[k]
  {
    AtIndex(s, i, t, k);
  }

  /** What may follow a number. */
  predicate IsDelimiter(c: char) {
    IsSpace(c) || c == '/' || c == ',' || c == ']' || c == '}' || c == '\0'
  }

  // ----- Blanks -----

  predicate AllSpaces(w: string) {
    forall k :: 0 <= k < |w| ==> IsSpace(w[k])
  }

  lemma {:induction false} SkipSpaces(s: string, i: nat, w: string)
    requires At(s, i, w) && AllSpaces(w) && !IsSpace(Peek(s, i + |w|))
    ensures SkipWhitespace(s, i) == i + |w|
    decreases |w|
  {
    if w != "" {
      AtPeek(s, i, w, 0);
      AtConcat(s, i, w[..1], w[1..]) by { assert w[..1] + w[1..] == w; }
      SkipSpaces(s, i + 1, w[1..]);
    }
  }

  lemma SkipBlanks(s: string, i: nat, w: string, opt: Options)
    requires At(s, i, w) && AllSpaces(w) && !IsSpace(Peek(s, i + |w|)) && Peek(s, i + |w|) != '/'
    ensures Skip(s, i, opt) == Done(i + |w|, [])
  {
    SkipSpaces(s, i, w);
  }

  lemma NewLineSpaces(depth: nat, f: Format)
    requires ValidFormat(f)
    ensures AllSpaces(NewLine(depth, f)) && NewLine(depth, f)[0] == '\n'
  {
  }

  // ----- Numbers -----

  lemma {:induction false} DigitsEndAt(s: string, i: nat, t: string, k: nat)
    requires At(s, i, t) && k <= |t| && IsDelimiter(Peek(s, i + |t|))
    ensures DigitsEnd(s, i + k) == i + DigitsEnd(t, k)
    decreases |t| - k
  {
    if k < |t| {
      AtPeek(s, i, t, k);
      if IsDigit(t[k]) {
        DigitsEndAt(s, i, t, k + 1);
      }
    }
  }

  /** The characters that a number's grammar looks for are found in context as they are alone. */
  lemma LookAt(s: string, i: nat, t: string, k: nat, c: char)
    requires At(s, i, t) && k <= |t| && IsDelimiter(Peek(s, i + |t|)) && !IsDelimiter(c)
    ensures (Peek(s, i + k) == c) == (Peek(t, k) == c)
    ensures IsDigit(Peek(s, i + k)) == IsDigit(Peek(t, k))
  {
    if k < |t| {
      AtPeek(s, i, t, k);
    }
  }

  lemma WholeEndAt(s: string, i: nat, t: string, k: nat)
    requires At(s, i, t) && k < |t| && IsDelimiter(Peek(s, i + |t|)) && IsDigit(t[k])
    ensures i + k < |s| && IsDigit(s[i + k]) && WholeEnd(s, i + k) == i + WholeEnd(t, k)
  {
    AtPeek(s, i, t, k);
    DigitsEndAt(s, i, t, k);
  }

  lemma ExponentAt(s: string, i: nat, t: string, k: nat, scale: nat)
    requires At(s, i, t) && k <= |t| && IsDelimiter(Peek(s, i + |t|))
    requires ParseExponent(t, k, 0, scale).error.None?
    ensures ParseExponent(s, i + k, i, scale) == Done(i + ParseExponent(t, k, 0, scale).pos, [])
  {
    hide Decimal, DigitsEnd;
    LookAt(s, i, t, k, 'e');
    LookAt(s, i, t, k, 'E');
    if Peek(t, k) == 'e' || Peek(t, k) == 'E' {
      LookAt(s, i, t, k + 1, '+');
      LookAt(s, i, t, k + 1, '-');
      var signed := Peek(t, k + 1) == '+' || Peek(t, k + 1) == '-';
      var j := if signed then k + 2 else k + 1;
      LookAt(s, i, t, j, '+');
      DigitsEndAt(s, i, t, j);
      AtSlice(s, i, t, j, DigitsEnd(t, j));
    }
  }

  function WholeStart(s: string, i: nat): nat {
    if Peek(s, i) == '-' then i + 1 else i
  }

  function FractionEnd(s: string, point: nat): (r: nat)
    requires point <= |s|
    ensures point <= r <= |s|
  {
    if Peek(s, point) == '.' then DigitsEnd(s, point + 1) else point
  }

  function Scale(s: string, j: nat, point: nat, minus: bool): nat
    requires j < point <= |s| && AllDigits(s[j..point])
  {
    if Peek(s, point) == '.' then FractionDigits(minus, s[j..point], s[point + 1..DigitsEnd(s, point + 1)]) else 0
  }

  /** The places where the parts of a number begin and end. */
  lemma PartsAt(s: string, i: nat, t: string)
    requires At(s, i, t) && IsDelimiter(Peek(s, i + |t|)) && IsDigit(Peek(t, WholeStart(t, 0)))
    ensures WholeStart(s, i) == i + WholeStart(t, 0) && IsDigit(Peek(s, WholeStart(s, i)))
    ensures var j := WholeStart(t, 0);
            var point := WholeEnd(t, j);
            && WholeEnd(s, i + j) == i + point && s[i + j..i + point] == t[j..point]
            && (Peek(s, i + point) == '.') == (Peek(t, point) == '.')
            && (Peek(t, point) == '.' ==> IsDigit(Peek(s, i + point + 1)) == IsDigit(Peek(t, point + 1)))
            && FractionEnd(s, i + point) == i + FractionEnd(t, point)
            && Scale(s, i + j, i + point, j == 1) == Scale(t, j, point, j == 1)
  {
    hide Decimal, DigitsEnd, WholeEnd, FractionDigits;
    LookAt(s, i, t, 0, '-');
    var j := WholeStart(t, 0);
    LookAt(s, i, t, j, '-');
    WholeEndAt(s, i, t, j);
    var point := WholeEnd(t, j);
    AtSlice(s, i, t, j, point);
    LookAt(s, i, t, point, '.');
    if Peek(t, point) == '.' {
      LookAt(s, i, t, point + 1, '-');
      DigitsEndAt(s, i, t, point + 1);
      AtSlice(s, i, t, point + 1, DigitsEnd(t, point + 1));
    }
  }

  /** The event of a number whose grammar is right; none if it is too big. */
  function NumberResult(minus: bool, whole: string, isPlain: bool, literal: string, opt: Options): Option<Event>
    requires AllDigits(whole)
  {
    if isPlain && IntegerEvent(minus, Decimal(whole)).Some? then IntegerEvent(minus, Decimal(whole))
    else if opt.tooBig(literal) then None
    else Some(DoubleEvent(literal))
  }

  /** The parse of a number from its parts. */
  lemma NumberShape(s: string, i: nat, opt: Options)
    requires i <= |s| && IsDigit(Peek(s, WholeStart(s, i)))
    requires var point := WholeEnd(s, WholeStart(s, i)); Peek(s, point) == '.' ==> IsDigit(Peek(s, point + 1))
    ensures var j := WholeStart(s, i);
            var minus := j == i + 1;
            var point := WholeEnd(s, j);
            var end := ParseExponent(s, FractionEnd(s, point), i, Scale(s, j, point, minus));
            if end.error.Some? then ParseNumber(s, i, opt) == end
            else
              var e := NumberResult(minus, s[j..point], end.pos == point, s[i..end.pos], opt);
              ParseNumber(s, i, opt) == if e.Some? then Done(end.pos, [e.value]) else Fail(NumberTooBig, i)
  {
    hide Decimal, DigitsEnd, WholeEnd, FractionDigits, ParseExponent, IntegerEvent;
  }

  /** A number that is parsed alone is parsed the same in any context that delimits it. */
  lemma NumberAt(s: string, i: nat, t: string, opt: Options)
    requires At(s, i, t) && IsDelimiter(Peek(s, i + |t|))
    requires ParseNumber(t, 0, opt).error.None? && ParseNumber(t, 0, opt).pos == |t|
    ensures ParseNumber(s, i, opt) == Done(i + |t|, ParseNumber(t, 0, opt).events)
  {
    hide Decimal, DigitsEnd, WholeEnd, FractionDigits, ParseExponent, ParseNumber, Scale, FractionEnd, At, NumberResult,
         IsDelimiter, IsDigit, Peek;
    NumberSucceeds(t, 0, opt);
    var j := WholeStart(t, 0);
    var point := WholeEnd(t, j);
    PartsAt(s, i, t);
    NumberShape(t, 0, opt);
    NumberShape(s, i, opt);
    ExponentAt(s, i, t, FractionEnd(t, point), Scale(t, j, point, j == 1));
    AtSlice(s, i, t, 0, |t|);
    assert t[0..|t|] == t;
  }

  lemma NumberSucceeds(s: string, i: nat, opt: Options)
    requires i <= |s| && ParseNumber(s, i, opt).error.None?
    ensures IsDigit(Peek(s, WholeStart(s, i)))
    ensures var point := WholeEnd(s, WholeStart(s, i)); Peek(s, point) == '.' ==> IsDigit(Peek(s, point + 1))
  {
    hide Decimal, DigitsEnd, WholeEnd, FractionDigits, ParseExponent, IntegerEvent;
  }

  lemma {:induction false} DigitsMean(n: nat)
    ensures var t := Digits(n);
            && |t| > 0 && AllDigits(t) && Decimal(t) == n
            && (t[0] == '0' ==> |t| == 1)
    ensures n > 0 ==> Digits(n)[0] != '0'
  {
    if n < 10 {
      DecimalLast("", '0' + n as char);
      assert "" + Digits(n) == Digits(n);
    } else {
      DigitsMean(n / 10);
      DecimalLast(Digits(n / 10), '0' + (n % 10) as char);
    }
  }

  lemma {:induction false} AllDigitsEnd(s: string, i: nat)
    requires i <= |s| && AllDigits(s[i..])
    ensures DigitsEnd(s, i) == |s|
    decreases |s| - i
  {
    if i < |s| {
      assert s[i] == s[i..][0];
      assert s[i + 1..] == s[i..][1..];
      AllDigitsEnd(s, i + 1);
    }
  }

  lemma IntegerAlone(n: Integer, opt: Options)
    ensures ParseNumber(IntegerText(n), 0, opt) == Done(|IntegerText(n)|, [Reread(NumberEvent(n))])
  {
    hide Decimal, DigitsEnd, Digits;
    var t := IntegerText(n);
    var magnitude := if n < 0 then -n else n;
    var digits := Digits(magnitude);
    DigitsMean(magnitude);
    var j := if n < 0 then 1 else 0;
    assert t[j..] == digits && t[j] == digits[0];
    AllDigitsEnd(t, j);
    assert t[j..|t|] == digits;
    assert n >= 0 ==> t[0] != '-';
  }

  /**
   A literal of digits with or without a minus sign: the narrowest pair of types
   that holds its value is reported with that value, and a double beyond 64 bits.
   */
  lemma IntegerLiteral(minus: bool, digits: string, opt: Options)
    requires digits != "" && AllDigits(digits) && (|digits| > 1 ==> digits[0] != '0')
    ensures var t := (if minus then "-" else "") + digits;
            var n: int := if minus then 0 - Decimal(digits) else Decimal(digits);
            var p := ParseNumber(t, 0, opt);
            if -0x8000_0000 <= n <= 0xFFFF_FFFF then p == Done(|t|, [if minus then IntEvent(n) else UintEvent(n)])
            else if -0x8000_0000_0000_0000 <= n <= 0xFFFF_FFFF_FFFF_FFFF then
              p == Done(|t|, [if minus then Int64Event(n) else Uint64Event(n)])
            else p == if opt.tooBig(t) then Fail(NumberTooBig, 0) else Done(|t|, [DoubleEvent(t)])
  {
    hide Decimal, DigitsEnd;
    var t := (if minus then "-" else "") + digits;
    var j := if minus then 1 else 0;
    assert t[j..] == digits && t[j] == digits[0];
    AllDigitsEnd(t, j);
    assert t[j..|t|] == digits && t[0..|t|] == t;
  }

  // ----- Strings -----

  lemma ControlUnits(c: char)
    requires c < ' '
    ensures Units(c as int) == [c]
  {
    assert Encodings.EncodeUtf8(c as int) == [c as int];
  }

  /** One escaped character is one piece. */
  lemma PieceAt(s: string, i: nat, c: char)
    requires At(s, i, Escape(c))
    ensures Peek(s, i) != '"' && ParsePiece(s, i) == Piece([c], i + |Escape(c)|)
  {
    var t := Escape(c);
    AtPeek(s, i, t, 0);
    if |t| > 1 {
      AtPeek(s, i, t, 1);
    }
    if |t| == 6 {
      AtPeek(s, i, t, 2);
      AtPeek(s, i, t, 3);
      AtPeek(s, i, t, 4);
      AtPeek(s, i, t, 5);
      HexDigitValue(c as int / 16);
      HexDigitValue(c as int % 16);
      ControlUnits(c);
      assert Hex4(s, i + 2) == c as int;
    }
  }

  lemma {:induction false} BodyAt(s: string, i: nat, t: string)
    requires At(s, i, Escaped(t) + "\"")
    ensures ParseStringBody(s, i) == Piece(t, i + |Escaped(t)| + 1)
    decreases |t|
  {
    hide ParsePiece, Escape;
    if t == "" {
      AtPeek(s, i, Escaped(t) + "\"", 0);
    } else {
      var first, rest := Escape(t[0]), Escaped(t[1..]) + "\"";
      assert Escaped(t) + "\"" == first + rest;
      AtConcat(s, i, first, rest);
      PieceAt(s, i, t[0]);
      BodyAt(s, i + |first|, t[1..]);
      assert [t[0]] + t[1..] == t;
    }
  }

  lemma StringAt(s: string, i: nat, t: string, isKey: bool)
    requires At(s, i, Quoted(t))
    ensures i < |s| && Peek(s, i) == '"'
    ensures ParseString(s, i, isKey) == Done(i + |Quoted(t)|, [if isKey then Key(t) else StringEvent(t)])
  {
    hide ParseStringBody, Escaped;
    assert Quoted(t) == "\"" + (Escaped(t) + "\"");
    AtConcat(s, i, "\"", Escaped(t) + "\"");
    AtPeek(s, i, "\"", 0);
    BodyAt(s, i + 1, t);
  }

  // ----- Literals -----

  lemma {:induction false} MatchingAt(s: string, i: nat, word: string)
    requires At(s, i, word)
    ensures Matching(s, i, word) == |word|
    decreases |word|
  {
    if word != "" {
      AtPeek(s, i, word, 0);
      assert word[..1] + word[1..] == word;
      AtConcat(s, i, word[..1], word[1..]);
      MatchingAt(s, i + 1, word[1..]);
    }
  }

  // ----- Trees -----

  /** The first character of a tree's text. */
  predicate OpensValue(c: char) {
    c == 'n' || c == 't' || c == 'f' || c == '"' || c == '-' || IsDigit(c) || c == '[' || c == '{'
  }

  lemma NumberStart(t: string, opt: Options)
    requires ParseNumber(t, 0, opt).error.None? && ParseNumber(t, 0, opt).pos == |t|
    ensures |t| > 0 && (t[0] == '-' || IsDigit(t[0]))
  {
    hide Decimal, DigitsEnd, FractionDigits, ParseExponent, IntegerEvent;
  }

  lemma TextStart(v: Value, depth: nat, f: Format, opt: Options)
    requires Printable(v, opt)
    ensures |Text(v, depth, f)| > 0 && OpensValue(Text(v, depth, f)[0])
  {
    match v
    case Number(n) =>
      IntegerAlone(n, opt);
      NumberStart(IntegerText(n), opt);
    case Double(d) => NumberStart(d, opt);
    case _ =>
  }

  lemma ScalarAt(v: Value, s: string, i: nat, depth: nat, f: Format, opt: Options)
    requires !v.Array? && !v.Object? && Printable(v, opt)
    requires At(s, i, Text(v, depth, f)) && IsDelimiter(Peek(s, i + |Text(v, depth, f)|))
    ensures ParseValue(s, i, opt) == Done(i + |Text(v, depth, f)|, Rereads(Accept(v)))
  {
    hide ParseNumber, ParseString, ParseArray, ParseObject, Quoted, At, IntegerText, Matching;
    var t := Text(v, depth, f);
    TextStart(v, depth, f, opt);
    AtPeek(s, i, t, 0);
    match v
    case Null => MatchingAt(s, i, t);
    case Bool(_) => MatchingAt(s, i, t);
    case Number(n) =>
      IntegerAlone(n, opt);
      NumberScalarAt(s, i, t, opt);
    case Double(d) =>
      NumberScalarAt(s, i, t, opt);
    case String(x) => StringAt(s, i, x, false);
  }

  lemma NumberScalarAt(s: string, i: nat, t: string, opt: Options)
    requires At(s, i, t) && IsDelimiter(Peek(s, i + |t|))
    requires ParseNumber(t, 0, opt).error.None? && ParseNumber(t, 0, opt).pos == |t|
    ensures ParseValue(s, i, opt) == Done(i + |t|, ParseNumber(t, 0, opt).events)
  {
    hide ParseNumber;
    NumberStart(t, opt);
    NumberAt(s, i, t, opt);
    AtPeek(s, i, t, 0);
  }

  /** The blanks of a separator: before the first element, or after the comma. */
  function Gap(prefix: string): string {
    if prefix != "" && prefix[0] == ',' then prefix[1..] else prefix
  }

  lemma ElementGap(k: nat, depth: nat, f: Format)
    requires ValidFormat(f)
    ensures var prefix := ElementPrefix(k, depth, f);
            AllSpaces(Gap(prefix)) && prefix == (if k == 0 then "" else ",") + Gap(prefix)
  {
    NewLineSpaces(depth, f);
  }

  lemma MemberGap(k: nat, depth: nat, f: Format)
    requires ValidFormat(f)
    ensures var prefix := MemberPrefix(k, depth, f);
            AllSpaces(Gap(prefix)) && prefix == (if k == 0 then "" else ",") + Gap(prefix)
  {
    NewLineSpaces(depth, f);
  }

  /** The first character of `t`, which stands at `i`. */
  lemma StartsWith(s: string, i: nat, t: string)
    requires At(s, i, t) && t != ""
    ensures Peek(s, i) == t[0]
  {
    AtPeek(s, i, t, 0);
  }

  /** A container's end: blanks and a bracket. */
  predicate IsClosing(close: string, bracket: char) {
    |close| > 0 && AllSpaces(close[..|close| - 1]) && close[|close| - 1] == bracket
  }

  lemma SkipToBracket(s: string, i: nat, close: string, bracket: char, opt: Options)
    requires At(s, i, close) && IsClosing(close, bracket) && !IsSpace(bracket) && bracket != '/'
    ensures Skip(s, i, opt) == Done(i + |close| - 1, []) && Peek(s, i + |close| - 1) == bracket
  {
    var line := close[..|close| - 1];
    assert close == line + [bracket];
    AtConcat(s, i, line, [bracket]);
    AtPeek(s, i + |line|, [bracket], 0);
    SkipBlanks(s, i, line, opt);
  }

  /** Blanks before text that starts with none. */
  lemma SkipToText(s: string, i: nat, w: string, t: string, opt: Options)
    requires At(s, i, w + t) && AllSpaces(w) && t != "" && !IsSpace(t[0]) && t[0] != '/'
    ensures Skip(s, i, opt) == Done(i + |w|, []) && Peek(s, i + |w|) == t[0] && At(s, i + |w|, t)
  {
    AtConcat(s, i, w, t);
    StartsWith(s, i + |w|, t);
    SkipBlanks(s, i, w, opt);
  }

  /** A comma and the blanks after it. */
  lemma SkipComma(s: string, i: nat, w: string, t: string, opt: Options)
    requires At(s, i, "," + (w + t)) && AllSpaces(w) && t != "" && !IsSpace(t[0]) && t[0] != '/'
    ensures Skip(s, i, opt) == Done(i, []) && Peek(s, i) == ','
    ensures Skip(s, i + 1, opt) == Done(i + 1 + |w|, []) && Peek(s, i + 1 + |w|) == t[0] && At(s, i + 1 + |w|, t)
  {
    hide At, Skip;
    assert "," + (w + t) == "" + ("," + (w + t));
    SkipToText(s, i, "", "," + (w + t), opt);
    AtConcat(s, i, ",", w + t);
    SkipToText(s, i + 1, w, t, opt);
  }

  /** What follows an element: the next separator, or the end. */
  lemma ElementsDelimit(es: seq<Value>, k: nat, depth: nat, f: Format, close: string)
    requires ValidFormat(f) && IsClosing(close, ']') && k > 0
    ensures var rest := ElementsText(es, k, depth, f) + close; rest != "" && IsDelimiter(rest[0])
  {
    hide Text, NewLine;
    if es != [] {
      ElementGap(k, depth, f);
    }
  }

  lemma MembersDelimit(ms: seq<Member>, k: nat, depth: nat, f: Format, close: string)
    requires ValidFormat(f) && IsClosing(close, '}') && k > 0
    ensures var rest := MembersText(ms, k, depth, f) + close; rest != "" && IsDelimiter(rest[0])
  {
    hide Text, NewLine, Quoted;
    if ms != [] {
      MemberGap(k, depth, f);
    }
  }

  /** The text of a tree, wherever it stands, is parsed into the tree's events. */
  lemma {:induction false} TreeAt(v: Value, s: string, i: nat, depth: nat, f: Format, opt: Options)
    requires ValidFormat(f) && Printable(v, opt)
    requires At(s, i, Text(v, depth, f)) && IsDelimiter(Peek(s, i + |Text(v, depth, f)|))
    ensures ParseValue(s, i, opt) == Done(i + |Text(v, depth, f)|, Rereads(Accept(v)))
    decreases v, 3
  {
    if v.Array? || v.Object? {
      ContainerAt(v, s, i, depth, f, opt);
    } else {
      ScalarAt(v, s, i, depth, f, opt);
    }
  }

  lemma ClosingIs(v: Value, depth: nat, f: Format)
    requires ValidFormat(f) && (v.Array? || v.Object?)
    ensures IsClosing(Closing(v, depth, f), if v.Array? then ']' else '}')
    ensures Size(v) == 0 ==> |Closing(v, depth, f)| == 1
  {
    hide NewLine;
    NewLineSpaces(depth, f);
    var line := if Size(v) == 0 || (v.Array? && f.singleLineArray) then "" else NewLine(depth, f);
    var close := Closing(v, depth, f);
    assert close[..|close| - 1] == line;
  }

  lemma {:induction false} ContainerAt(v: Value, s: string, i: nat, depth: nat, f: Format, opt: Options)
    requires ValidFormat(f) && Printable(v, opt) && (v.Array? || v.Object?)
    requires At(s, i, Text(v, depth, f))
    ensures ParseValue(s, i, opt) == Done(i + |Text(v, depth, f)|, Rereads(Accept(v)))
    decreases v, 2
  {
    hide At, Text, Closing, ElementsText, MembersText, ParseArray, ParseObject, ParseScalar;
    var open, inner, close := (if v.Array? then "[" else "{"), Inner(v, depth + 1, f), Closing(v, depth, f);
    TextIs(v, depth, f);
    ClosingIs(v, depth, f);
    assert open + inner + close == open + (inner + close);
    AtConcat(s, i, open, inner + close);
    StartsWith(s, i, open);
    match v
    case Array(es) =>
      ArrayAt(es, s, i + 1, depth + 1, close, f, opt);
      RereadsContainer(StartArray, AcceptElements(es), EndArray(|es|));
    case Object(ms) =>
      ObjectAt(ms, s, i + 1, depth + 1, close, f, opt);
      RereadsContainer(StartObject, AcceptMembers(ms), EndObject(|ms|));
  }

  lemma RereadsContainer(start: Event, inner: seq<Event>, end: Event)
    ensures Rereads([start] + inner + [end]) == [Reread(start)] + (Rereads(inner) + [Reread(end)])
  {
  }

  lemma NoElementsText(k: nat, depth: nat, f: Format)
    ensures ElementsText([], k, depth, f) == "" && AcceptElements([]) == []
  {
  }

  lemma NoMembersText(k: nat, depth: nat, f: Format)
    ensures MembersText([], k, depth, f) == "" && AcceptMembers([]) == []
  {
  }

  lemma ElementsSplit(es: seq<Value>, k: nat, depth: nat, close: string, f: Format)
    requires es != []
    ensures ElementsText(es, k, depth, f) + close
         == ElementPrefix(k, depth, f) + (Text(es[0], depth, f) + (ElementsText(es[1..], k + 1, depth, f) + close))
  {
    hide NewLine, Text;
  }

  /** Just inside an array. */
  lemma {:induction false} ArrayAt(es: seq<Value>, s: string, i: nat, depth: nat, close: string, f: Format, opt: Options)
    requires ValidFormat(f) && IsClosing(close, ']') && (es == [] ==> |close| == 1)
    requires forall k :: 0 <= k < |es| ==> Printable(es[k], opt)
    requires At(s, i, ElementsText(es, 0, depth, f) + close)
    ensures ParseArray(s, i, opt) ==
            Done(i + |ElementsText(es, 0, depth, f) + close|, Rereads(AcceptElements(es)) + [EndArray(|es|)])
    decreases es, 2
  {
    hide At, Text, NewLine, Skip, Printable, Named, IsClosing, AllSpaces, Quoted, Gap,
         ParseElements, ElementsText, ElementPrefix, ElementText, AcceptElements;
    if es == [] {
      NoElementsText(0, depth, f);
      assert "" + close == close;
      SkipToBracket(s, i, close, ']', opt);
    } else {
      ElementGap(0, depth, f);
      var prefix, t := ElementPrefix(0, depth, f), Text(es[0], depth, f);
      var rest := ElementsText(es[1..], 1, depth, f) + close;
      ElementsSplit(es, 0, depth, close, f);
      assert prefix == "" + Gap(prefix) == Gap(prefix);
      TextStart(es[0], depth, f, opt);
      SkipToText(s, i, prefix, t + rest, opt);
      ElementsAt(es, 0, s, i + |prefix|, depth, close, f, opt);
    }
  }

  /** Where an element begins. */
  lemma {:induction false} ElementsAt(es: seq<Value>, k: nat, s: string, i: nat, depth: nat, close: string, f: Format, opt: Options)
    requires es != [] && ValidFormat(f) && IsClosing(close, ']')
    requires forall j :: 0 <= j < |es| ==> Printable(es[j], opt)
    requires At(s, i, Text(es[0], depth, f) + (ElementsText(es[1..], k + 1, depth, f) + close))
    ensures ParseElements(s, i, k, opt) ==
            Done(i + |Text(es[0], depth, f)| + |ElementsText(es[1..], k + 1, depth, f)| + |close|,
                 Rereads(AcceptElements(es)) + [EndArray(k + |es|)])
    decreases es, 1
  {
    hide At, Text, ElementsText, NewLine, ParseElementsRest, ParseValue, Printable, IsClosing;
    var t, rest := Text(es[0], depth, f), ElementsText(es[1..], k + 1, depth, f) + close;
    AtConcat(s, i, t, rest);
    ElementsDelimit(es[1..], k + 1, depth, f, close);
    StartsWith(s, i + |t|, rest);
    TreeAt(es[0], s, i, depth, f, opt);
    ElementsRestAt(es[1..], k + 1, s, i + |t|, depth, close, f, opt);
    RereadsConcat(Accept(es[0]), AcceptElements(es[1..]));
    assert Rereads(Accept(es[0])) + (Rereads(AcceptElements(es[1..])) + [EndArray(k + |es|)])
        == Rereads(AcceptElements(es)) + [EndArray(k + |es|)];
  }

  /** After an element. */
  lemma {:induction false} ElementsRestAt(es: seq<Value>, k: nat, s: string, i: nat, depth: nat, close: string, f: Format, opt: Options)
    requires k > 0 && ValidFormat(f) && IsClosing(close, ']')
    requires forall j :: 0 <= j < |es| ==> Printable(es[j], opt)
    requires At(s, i, ElementsText(es, k, depth, f) + close)
    ensures ParseElementsRest(s, i, k, opt) ==
            Done(i + |ElementsText(es, k, depth, f)| + |close|, Rereads(AcceptElements(es)) + [EndArray(k + |es|)])
    decreases es, 2
  {
    hide At, Text, NewLine, Skip, Printable, Named, IsClosing, AllSpaces, Quoted, Gap,
         ParseElements, ElementsText, ElementPrefix, ElementText, AcceptElements;
    if es == [] {
      NoElementsText(k, depth, f);
      assert "" + close == close;
      SkipToBracket(s, i, close, ']', opt);
    } else {
      ElementGap(k, depth, f);
      var prefix, t := ElementPrefix(k, depth, f), Text(es[0], depth, f);
      var gap := Gap(prefix);
      var rest := ElementsText(es[1..], k + 1, depth, f) + close;
      ElementsSplit(es, k, depth, close, f);
      assert prefix + (t + rest) == "," + (gap + (t + rest));
      TextStart(es[0], depth, f, opt);
      SkipComma(s, i, gap, t + rest, opt);
      ElementsAt(es, k, s, i + 1 + |gap|, depth, close, f, opt);
    }
  }

  /** Just inside an object. */
  lemma {:induction false} ObjectAt(ms: seq<Member>, s: string, i: nat, depth: nat, close: string, f: Format, opt: Options)
    requires ValidFormat(f) && IsClosing(close, '}') && (ms == [] ==> |close| == 1)
    requires forall k :: 0 <= k < |ms| ==> Printable(ms[k].value, opt)
    requires At(s, i, MembersText(ms, 0, depth, f) + close)
    ensures ParseObject(s, i, opt) ==
            Done(i + |MembersText(ms, 0, depth, f) + close|, Rereads(AcceptMembers(ms)) + [EndObject(|ms|)])
    decreases ms, 3
  {
    hide At, Text, NewLine, Skip, Printable, Named, IsClosing, AllSpaces, Quoted, Gap,
         ParseMembers, MembersText, MemberPrefix, MemberText, AcceptMembers;
    if ms == [] {
      NoMembersText(0, depth, f);
      assert "" + close == close;
      SkipToBracket(s, i, close, '}', opt);
    } else {
      MembersSplit(ms, 0, depth, close, f);
      MemberGap(0, depth, f);
      var prefix := MemberPrefix(0, depth, f);
      assert prefix == "" + Gap(prefix) == Gap(prefix);
      var rest := MembersText(ms[1..], 1, depth, f) + close;
      NamedStart(ms[0], depth, f, rest);
      SkipToText(s, i, prefix, Named(ms[0], depth, f) + rest, opt);
      MembersAt(ms, 0, s, i + |prefix|, depth, close, f, opt);
    }
  }

  /** A member's name and value, without what comes before it. */
  function Named(m: Member, depth: nat, f: Format): string {
    Quoted(m.name) + (": " + Text(m.value, depth, f))
  }

  lemma NamedStart(m: Member, depth: nat, f: Format, rest: string)
    ensures var t := Named(m, depth, f) + rest; t != "" && t[0] == '"'
  {
    hide Escaped, Text;
  }

  lemma MembersSplit(ms: seq<Member>, k: nat, depth: nat, close: string, f: Format)
    requires ms != []
    ensures MembersText(ms, k, depth, f) + close
         == MemberPrefix(k, depth, f) + (Named(ms[0], depth, f) + (MembersText(ms[1..], k + 1, depth, f) + close))
  {
    hide NewLine, Quoted, Text;
  }

  /** Where a member begins. */
  lemma {:induction false} MembersAt(ms: seq<Member>, k: nat, s: string, i: nat, depth: nat, close: string, f: Format, opt: Options)
    requires ms != [] && ValidFormat(f) && IsClosing(close, '}')
    requires forall j :: 0 <= j < |ms| ==> Printable(ms[j].value, opt)
    requires At(s, i, Named(ms[0], depth, f) + (MembersText(ms[1..], k + 1, depth, f) + close))
    ensures ParseMembers(s, i, k, opt) ==
            Done(i + |Named(ms[0], depth, f)| + |MembersText(ms[1..], k + 1, depth, f)| + |close|,
                 Rereads(AcceptMembers(ms)) + [EndObject(k + |ms|)])
    decreases ms, 1
  {
    hide At, Text, MembersText, NewLine, ParseMembersRest, ParseValue, ParseName, Printable, IsClosing, Quoted;
    var m := ms[0];
    var t, rest := Text(m.value, depth, f), MembersText(ms[1..], k + 1, depth, f) + close;
    AtConcat(s, i, Named(m, depth, f), rest);
    NameAt(m, s, i, depth, f, opt);
    MembersDelimit(ms[1..], k + 1, depth, f, close);
    StartsWith(s, i + |Named(m, depth, f)|, rest);
    TreeAt(m.value, s, i + |Quoted(m.name)| + 2, depth, f, opt);
    MembersRestAt(ms[1..], k + 1, s, i + |Named(m, depth, f)|, depth, close, f, opt);
    RereadsConcat([Key(m.name)], Accept(m.value));
    RereadsConcat([Key(m.name)] + Accept(m.value), AcceptMembers(ms[1..]));
    assert [Key(m.name)] + (Rereads(Accept(m.value)) + (Rereads(AcceptMembers(ms[1..])) + [EndObject(k + |ms|)]))
        == Rereads(AcceptMembers(ms)) + [EndObject(k + |ms|)];
  }

  /** The name and the colon of a member. */
  lemma NameAt(m: Member, s: string, i: nat, depth: nat, f: Format, opt: Options)
    requires At(s, i, Named(m, depth, f)) && Printable(m.value, opt)
    ensures ParseName(s, i, opt) == Done(i + |Quoted(m.name)| + 2, [Key(m.name)])
    ensures At(s, i + |Quoted(m.name)| + 2, Text(m.value, depth, f))
  {
    hide At, Text, Skip, ParseString, Quoted, Printable;
    var name, t := Quoted(m.name), Text(m.value, depth, f);
    AtConcat(s, i, name, ": " + t);
    StringAt(s, i, m.name, true);
    var j := i + |name|;
    assert ": " + t == "" + (":" + (" " + t));
    SkipToText(s, j, "", ":" + (" " + t), opt);
    AtConcat(s, j, ":", " " + t);
    TextStart(m.value, depth, f, opt);
    SkipToText(s, j + 1, " ", t, opt);
  }

  /** After a member. */
  lemma {:induction false} MembersRestAt(ms: seq<Member>, k: nat, s: string, i: nat, depth: nat, close: string, f: Format, opt: Options)
    requires k > 0 && ValidFormat(f) && IsClosing(close, '}')
    requires forall j :: 0 <= j < |ms| ==> Printable(ms[j].value, opt)
    requires At(s, i, MembersText(ms, k, depth, f) + close)
    ensures ParseMembersRest(s, i, k, opt) ==
            Done(i + |MembersText(ms, k, depth, f)| + |close|, Rereads(AcceptMembers(ms)) + [EndObject(k + |ms|)])
    decreases ms, 2
  {
    hide At, Text, NewLine, Skip, Printable, Named, IsClosing, AllSpaces, Quoted, Gap,
         ParseMembers, MembersText, MemberPrefix, MemberText, AcceptMembers;
    if ms == [] {
      NoMembersText(k, depth, f);
      assert "" + close == close;
      SkipToBracket(s, i, close, '}', opt);
    } else {
      MembersSplit(ms, k, depth, close, f);
      MemberGap(k, depth, f);
      var prefix := MemberPrefix(k, depth, f);
      var gap := Gap(prefix);
      var rest := MembersText(ms[1..], k + 1, depth, f) + close;
      var t := Named(ms[0], depth, f) + rest;
      NamedStart(ms[0], depth, f, rest);
      assert prefix + t == "," + (gap + t);
      SkipComma(s, i, gap, t, opt);
      MembersAt(ms, k, s, i + 1 + |gap|, depth, close, f, opt);
    }
  }

  /**
   Parsing what was printed gives back the tree's events, for every tree, every
   indentation and either array format, whatever the parse flags.
   */
  lemma PrintedParses(v: Value, f: Format, opt: Options)
    requires ValidFormat(f) && Printable(v, opt)
    ensures Parse(Text(v, 0, f), opt) == Done(|Text(v, 0, f)|, Rereads(Accept(v)))
  {
    hide Text, ParseValue;
    var s := Text(v, 0, f);
    assert s[0..|s|] == s;
    TextStart(v, 0, f, opt);
    SkipBlanks(s, 0, "", opt);
    TreeAt(v, s, 0, 0, f, opt);
    SkipBlanks(s, |s|, "", opt);
    assert Rereads(Accept(v)) + [] == Rereads(Accept(v));
  }
}
