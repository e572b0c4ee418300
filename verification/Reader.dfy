/**
 What the recursive-descent parser does to a text: the events it emits and the
 position or the error it ends with. The methods of `GenericReader.dfy` refine
 these functions, and the table-driven parser is compared with them.
 */
module Reader {
  import opened Json
  import opened Arithmetic
  import opened Texts
  import Encodings

  datatype ParseErrorCode =
    | DocumentEmpty
    | DocumentRootNotSingular
    | ValueInvalid
    | ObjectMissName
    | ObjectMissColon
    | ObjectMissCommaOrCurlyBracket
    | ArrayMissCommaOrSquareBracket
    | StringUnicodeEscapeInvalidHex
    | StringUnicodeSurrogateInvalid
    | StringEscapeInvalid
    | StringMissQuotationMark
    | StringInvalidEncoding
    | NumberTooBig
    | NumberMissFraction
    | NumberMissExponent
    | UnspecificSyntaxError

  datatype ParseError = ParseError(code: ParseErrorCode, offset: nat)

  /**
   The parse flags. `tooBig` stands for the decimal-to-double conversion: it
   tells of a literal whether its value is beyond the largest double.
   */
  datatype Options = Options(trailingCommas: bool, stopWhenDone: bool, comments: bool, tooBig: string -> bool)

  /** A stretch of parsing: the events emitted, and the new position or the error (then at its offset). */
  datatype Parsed = Parsed(pos: nat, events: seq<Event>, error: Option<ParseError>)

  function Done(pos: nat, events: seq<Event>): Parsed {
    Parsed(pos, events, None)
  }

  function Fail(code: ParseErrorCode, offset: nat): Parsed {
    Parsed(offset, [], Some(ParseError(code, offset)))
  }

  function After(events: seq<Event>, p: Parsed): Parsed {
    p.(events := events + p.events)
  }

  function Peek(s: string, i: nat): char {
    if i < |s| then s[i] else '\0'
  }

  predicate IsSpace(c: char) { c == ' ' || c == '\n' || c == '\r' || c == '\t' }

  // ----- Whitespace and comments -----

  function SkipWhitespace(s: string, i: nat): (r: nat)
    requires i <= |s|
    ensures i <= r <= |s| && !IsSpace(Peek(s, r))
    decreases |s| - i
  {
    if IsSpace(Peek(s, i)) then SkipWhitespace(s, i + 1) else i
  }

  /** The position after a block comment whose body starts at `i`; none if the comment does not end. */
  function BlockComment(s: string, i: nat): (r: Parsed)
    requires i <= |s|
    ensures r.error.None? ==> i < r.pos <= |s|
    ensures r.events == []
    decreases |s| - i
  {
    if Peek(s, i) == '\0' then Fail(UnspecificSyntaxError, i)
    else if s[i] == '*' then
      if Peek(s, i + 1) == '/' then Done(i + 2, []) else BlockComment(s, i + 1)
    else BlockComment(s, i + 1)
  }

  function LineComment(s: string, i: nat): (r: nat)
    requires i <= |s|
    ensures i <= r <= |s|
    decreases |s| - i
  {
    if Peek(s, i) == '\0' then i
    else if s[i] == '\n' then i + 1
    else LineComment(s, i + 1)
  }

  function SkipComments(s: string, i: nat): (r: Parsed)
    requires i <= |s|
    ensures r.error.None? ==> i <= r.pos <= |s|
    ensures r.events == []
    decreases |s| - i
  {
    if Peek(s, i) != '/' then Done(i, [])
    else if Peek(s, i + 1) == '*' then
      var block := BlockComment(s, i + 2);
      if block.error.Some? then block else SkipComments(s, SkipWhitespace(s, block.pos))
    else if Peek(s, i + 1) == '/' then SkipComments(s, SkipWhitespace(s, LineComment(s, i + 2)))
    else Fail(UnspecificSyntaxError, i + 1)
  }

  /** `SkipWhitespaceAndComments`. */
  function Skip(s: string, i: nat, opt: Options): (r: Parsed)
    requires i <= |s|
    ensures r.error.None? ==> i <= r.pos <= |s|
    ensures r.events == []
  {
    var j := SkipWhitespace(s, i);
    if opt.comments then SkipComments(s, j) else Done(j, [])
  }

  // ----- Literals and strings -----

  /** The number of characters of `word` that the text has from `i` on. */
  function Matching(s: string, i: nat, word: string): (n: nat)
    ensures n <= |word| && i + n <= (if i <= |s| then |s| else i)
    ensures n == |word| ==> i + |word| <= |s| + (if |word| == 0 then i else 0) && (i + n <= |s| ==> s[i..i + n] == word)
    decreases |word|
  {
    if word == [] || i >= |s| || s[i] != word[0] then 0 else 1 + Matching(s, i + 1, word[1..])
  }

  /** `ParseNull`, `ParseTrue` and `ParseFalse`. */
  function ParseLiteral(s: string, i: nat, word: string, e: Event): (r: Parsed)
    requires i <= |s| && |word| > 0
    ensures r.error.None? ==> r.pos == i + |word| <= |s|
  {
    var n := Matching(s, i, word);
    if n == |word| then Done(i + n, [e]) else Fail(ValueInvalid, i + n)
  }

  /** `ParseHex4`: the four digits at `i`, or -1. */
  function Hex4(s: string, i: nat): (r: int)
    ensures -1 <= r < 0x1_0000
    ensures r >= 0 ==> i + 4 <= |s|
  {
    var a, b, c, d := HexValue(Peek(s, i)), HexValue(Peek(s, i + 1)), HexValue(Peek(s, i + 2)), HexValue(Peek(s, i + 3));
    if a < 0 || b < 0 || c < 0 || d < 0 then -1 else ((a * 16 + b) * 16 + c) * 16 + d
  }

  /** The character that a one-letter escape stands for. */
  function Unescape(e: char): Option<char> {
    if e == '"' || e == '/' || e == '\\' then Some(e)
    else if e == 'b' then Some(8 as char)
    else if e == 'f' then Some(12 as char)
    else if e == 'n' then Some('\n')
    else if e == 'r' then Some('\r')
    else if e == 't' then Some('\t')
    else None
  }

  /** The UTF-8 code units of a code point, as characters. */
  function Units(codepoint: int): string
    requires 0 <= codepoint <= 0x10FFFF
  {
    var bytes := Encodings.EncodeUtf8(codepoint);
    seq(|bytes|, i requires 0 <= i < |bytes| => bytes[i] as char)
  }

  /** One escape or one unescaped character of a string: its decoded text and the position after it. */
  datatype Piece = Piece(text: string, pos: nat) | Bad(error: ParseError)

  function BadPiece(code: ParseErrorCode, offset: nat): Piece {
    Bad(ParseError(code, offset))
  }

  /** `\uXXXX`, or a surrogate pair of two; `i` is at the backslash. */
  function ParseUnicode(s: string, i: nat): (r: Piece)
    ensures r.Piece? ==> i < r.pos <= |s|
  {
    var c := Hex4(s, i + 2);
    if c < 0 then BadPiece(StringUnicodeEscapeInvalidHex, i)
    else if c < 0xD800 || c > 0xDFFF then Piece(Units(c), i + 6)
    else if c > 0xDBFF || Peek(s, i + 6) != '\\' || Peek(s, i + 7) != 'u' then BadPiece(StringUnicodeSurrogateInvalid, i)
    else
      var d := Hex4(s, i + 8);
      if d < 0 then BadPiece(StringUnicodeEscapeInvalidHex, i)
      else if d < 0xDC00 || d > 0xDFFF then BadPiece(StringUnicodeSurrogateInvalid, i)
      else Piece(Units((c - 0xD800) * 0x400 + (d - 0xDC00) + 0x1_0000), i + 12)
  }

  /** One turn of the loop of `ParseStringToStream`, before the closing quote. */
  function ParsePiece(s: string, i: nat): (r: Piece)
    requires i <= |s| && Peek(s, i) != '"'
    ensures r.Piece? ==> i < r.pos <= |s|
  {
    var c := Peek(s, i);
    if c == '\\' then
      var e := Peek(s, i + 1);
      if Unescape(e).Some? then Piece([Unescape(e).value], i + 2)
      else if e == 'u' then ParseUnicode(s, i)
      else BadPiece(StringEscapeInvalid, i)
    else if c == '\0' then BadPiece(StringMissQuotationMark, i)
    else if c < ' ' then BadPiece(StringInvalidEncoding, i)
    else Piece([c], i + 1)
  }

  /** The text of the string whose remaining characters start at `i`, and the position after its closing quote. */
  function ParseStringBody(s: string, i: nat): (r: Piece)
    requires i <= |s|
    ensures r.Piece? ==> i < r.pos <= |s|
    decreases |s| - i
  {
    if Peek(s, i) == '"' then Piece("", i + 1)
    else
      var first := ParsePiece(s, i);
      if first.Bad? then first
      else
        var rest := ParseStringBody(s, first.pos);
        if rest.Bad? then rest else Piece(first.text + rest.text, rest.pos)
  }

  function ParseString(s: string, i: nat, isKey: bool): (r: Parsed)
    requires i < |s|
    ensures r.error.None? ==> i < r.pos <= |s|
  {
    var body := ParseStringBody(s, i + 1);
    if body.Bad? then Parsed(body.error.offset, [], Some(body.error))
    else Done(body.pos, [if isKey then Key(body.text) else StringEvent(body.text)])
  }

  // ----- Numbers -----

  function DigitsEnd(s: string, i: nat): (r: nat)
    requires i <= |s|
    ensures i <= r <= |s| && !IsDigit(Peek(s, r))
    ensures forall k :: i <= k < r ==> IsDigit(s[k])
    decreases |s| - i
  {
    if IsDigit(Peek(s, i)) then DigitsEnd(s, i + 1) else i
  }

  /** The integer event for a sign and a magnitude; none if no 64-bit type holds it. */
  function IntegerEvent(minus: bool, n: int): Option<Event> {
    if minus then
      if n <= 0x8000_0000 then Some(IntEvent(-n))
      else if n <= 0x8000_0000_0000_0000 then Some(Int64Event(-n))
      else None
    else
      if n < 0x1_0000_0000 then Some(UintEvent(n))
      else if n < 0x1_0000_0000_0000_0000 then Some(Uint64Event(n))
      else None
  }

  /** How many fraction digits enter the significand once it is a double; `positive` tells that it is not zero. */
  function DoubleFraction(t: string, digits: nat, positive: bool): (r: nat)
    requires AllDigits(t)
    ensures r <= |t|
    decreases |t|
  {
    if t == "" then 0
    else if digits < 17 then
      var now := positive || t[0] != '0';
      1 + DoubleFraction(t[1..], if now then digits + 1 else digits, now)
    else DoubleFraction(t[1..], digits, positive)
  }

  /** How many fraction digits enter the significand while it is an integer, and then as a double. */
  function IntegerFraction(t: string, significand: nat, digits: nat): (r: nat)
    requires AllDigits(t)
    ensures r <= |t|
    decreases |t|
  {
    if t == "" then 0
    else if significand > 0x1F_FFFF_FFFF_FFFF then DoubleFraction(t, digits, true)
    else
      var next := significand * 10 + Digit(t[0]);
      1 + IntegerFraction(t[1..], next, if next != 0 then digits + 1 else digits)
  }

  /** `-expFrac`: the fraction digits that count, given the integer digits before them. */
  function FractionDigits(minus: bool, whole: string, fraction: string): (r: nat)
    requires AllDigits(whole) && AllDigits(fraction) && |whole| > 0
    ensures r <= |fraction|
  {
    if IntegerEvent(minus, Decimal(whole)).None? then DoubleFraction(fraction, 17, true)
    else IntegerFraction(fraction, Decimal(whole), |whole| - 1)
  }

  /** The exponent part at `i`, if any; `scale` fraction digits count. */
  function ParseExponent(s: string, i: nat, start: nat, scale: nat): (r: Parsed)
    requires i <= |s|
    ensures r.error.None? ==> i <= r.pos <= |s|
    ensures r.events == []
  {
    if Peek(s, i) != 'e' && Peek(s, i) != 'E' then Done(i, [])
    else
      var signed := Peek(s, i + 1) == '+' || Peek(s, i + 1) == '-';
      var j := if signed then i + 2 else i + 1;
      if !IsDigit(Peek(s, j)) then Fail(NumberMissExponent, j)
      else
        var end := DigitsEnd(s, j);
        if Peek(s, i + 1) != '-' && Decimal(s[j..end]) > 308 + scale then Fail(NumberTooBig, start) else Done(end, [])
  }

  /** The position after the integer digits at `i`, which do not start with a superfluous zero. */
  function WholeEnd(s: string, i: nat): (r: nat)
    requires i <= |s| && IsDigit(Peek(s, i))
    ensures i < r <= |s|
    ensures forall k :: i <= k < r ==> IsDigit(s[k])
  {
    if s[i] == '0' then i + 1 else DigitsEnd(s, i)
  }

  /** `ParseNumber`: an exact integer event by the value's range, and a double with the literal's text otherwise. */
  function ParseNumber(s: string, i: nat, opt: Options): (r: Parsed)
    requires i <= |s|
    ensures r.error.None? ==> i < r.pos <= |s|
  {
    var minus := Peek(s, i) == '-';
    var j := if minus then i + 1 else i;
    if !IsDigit(Peek(s, j)) then Fail(ValueInvalid, j)
    else
      var point := WholeEnd(s, j);
      var whole := s[j..point];
      if Peek(s, point) == '.' && !IsDigit(Peek(s, point + 1)) then Fail(NumberMissFraction, point + 1)
      else
        var exponent := if Peek(s, point) == '.' then DigitsEnd(s, point + 1) else point;
        var scale := if Peek(s, point) == '.' then FractionDigits(minus, whole, s[point + 1..exponent]) else 0;
        var end := ParseExponent(s, exponent, i, scale);
        if end.error.Some? then end
        else if end.pos == point && IntegerEvent(minus, Decimal(whole)).Some? then
          Done(end.pos, [IntegerEvent(minus, Decimal(whole)).value])
        else if opt.tooBig(s[i..end.pos]) then Fail(NumberTooBig, i)
        else Done(end.pos, [DoubleEvent(s[i..end.pos])])
  }

  // ----- Values -----

  /** `ParseValue` at a character that does not open a container. */
  function ParseScalar(s: string, i: nat, opt: Options): (r: Parsed)
    requires i <= |s|
    ensures r.error.None? ==> i < r.pos <= |s|
  {
    match Peek(s, i)
    case 'n' => ParseLiteral(s, i, "null", NullEvent)
    case 't' => ParseLiteral(s, i, "true", BoolEvent(true))
    case 'f' => ParseLiteral(s, i, "false", BoolEvent(false))
    case '"' => ParseString(s, i, false)
    case _ => ParseNumber(s, i, opt)
  }

  function ParseValue(s: string, i: nat, opt: Options): (r: Parsed)
    requires i <= |s|
    ensures r.error.None? ==> i < r.pos <= |s|
    decreases |s| - i, 3
  {
    match Peek(s, i)
    case '{' => After([StartObject], ParseObject(s, i + 1, opt))
    case '[' => After([StartArray], ParseArray(s, i + 1, opt))
    case _ => ParseScalar(s, i, opt)
  }

  /** `ParseArray` after the bracket. */
  function ParseArray(s: string, i: nat, opt: Options): (r: Parsed)
    requires i <= |s|
    ensures r.error.None? ==> i < r.pos <= |s|
    decreases |s| - i, 5
  {
    var skip := Skip(s, i, opt);
    if skip.error.Some? then skip
    else if Peek(s, skip.pos) == ']' then Done(skip.pos + 1, [EndArray(0)])
    else ParseElements(s, skip.pos, 0, opt)
  }

  /** The loop of `ParseArray`, `count` elements having been read. */
  function ParseElements(s: string, i: nat, count: nat, opt: Options): (r: Parsed)
    requires i <= |s|
    ensures r.error.None? ==> i < r.pos <= |s|
    decreases |s| - i, 4
  {
    var value := ParseValue(s, i, opt);
    if value.error.Some? then value
    else After(value.events, ParseElementsRest(s, value.pos, count + 1, opt))
  }

  function ParseElementsRest(s: string, i: nat, count: nat, opt: Options): (r: Parsed)
    requires i <= |s|
    ensures r.error.None? ==> i < r.pos <= |s|
    decreases |s| - i, 5
  {
    var skip := Skip(s, i, opt);
    if skip.error.Some? then skip
    else if Peek(s, skip.pos) == ',' then
      var next := Skip(s, skip.pos + 1, opt);
      if next.error.Some? then next
      else if opt.trailingCommas && Peek(s, next.pos) == ']' then Done(next.pos + 1, [EndArray(count)])
      else ParseElements(s, next.pos, count, opt)
    else if Peek(s, skip.pos) == ']' then Done(skip.pos + 1, [EndArray(count)])
    else Fail(ArrayMissCommaOrSquareBracket, skip.pos)
  }

  /** `ParseObject` after the brace. */
  function ParseObject(s: string, i: nat, opt: Options): (r: Parsed)
    requires i <= |s|
    ensures r.error.None? ==> i < r.pos <= |s|
    decreases |s| - i, 5
  {
    var skip := Skip(s, i, opt);
    if skip.error.Some? then skip
    else if Peek(s, skip.pos) == '}' then Done(skip.pos + 1, [EndObject(0)])
    else ParseMembers(s, skip.pos, 0, opt)
  }

  /** A member's name and colon, and the blanks before its value. */
  function ParseName(s: string, i: nat, opt: Options): (r: Parsed)
    requires i <= |s|
    ensures r.error.None? ==> i < r.pos <= |s|
  {
    if Peek(s, i) != '"' then Fail(ObjectMissName, i)
    else
      var name := ParseString(s, i, true);
      if name.error.Some? then name else After(name.events, ParseColon(s, name.pos, opt))
  }

  function ParseColon(s: string, i: nat, opt: Options): (r: Parsed)
    requires i <= |s|
    ensures r.error.None? ==> i <= r.pos <= |s|
  {
    var skip := Skip(s, i, opt);
    if skip.error.Some? then skip
    else if Peek(s, skip.pos) != ':' then Fail(ObjectMissColon, skip.pos)
    else Skip(s, skip.pos + 1, opt)
  }

  /** The loop of `ParseObject`, `count` members having been read. */
  function ParseMembers(s: string, i: nat, count: nat, opt: Options): (r: Parsed)
    requires i <= |s|
    ensures r.error.None? ==> i < r.pos <= |s|
    decreases |s| - i, 4
  {
    var name := ParseName(s, i, opt);
    if name.error.Some? then name
    else
      var value := ParseValue(s, name.pos, opt);
      After(name.events,
            if value.error.Some? then value
            else After(value.events, ParseMembersRest(s, value.pos, count + 1, opt)))
  }

  function ParseMembersRest(s: string, i: nat, count: nat, opt: Options): (r: Parsed)
    requires i <= |s|
    ensures r.error.None? ==> i < r.pos <= |s|
    decreases |s| - i, 5
  {
    var skip := Skip(s, i, opt);
    if skip.error.Some? then skip
    else if Peek(s, skip.pos) == ',' then
      var next := Skip(s, skip.pos + 1, opt);
      if next.error.Some? then next
      else if opt.trailingCommas && Peek(s, next.pos) == '}' then Done(next.pos + 1, [EndObject(count)])
      else ParseMembers(s, next.pos, count, opt)
    else if Peek(s, skip.pos) == '}' then Done(skip.pos + 1, [EndObject(count)])
    else Fail(ObjectMissCommaOrCurlyBracket, skip.pos)
  }

  /** After the root value: nothing but blanks may follow, unless parsing stops there. */
  function ParseEnd(s: string, i: nat, opt: Options): Parsed
    requires i <= |s|
  {
    if opt.stopWhenDone then Done(i, [])
    else
      var skip := Skip(s, i, opt);
      if skip.error.Some? then skip
      else if Peek(s, skip.pos) != '\0' then Fail(DocumentRootNotSingular, skip.pos)
      else skip
  }

  /** `GenericReader::Parse` without the iterative flag. */
  function Parse(s: string, opt: Options): Parsed {
    var skip := Skip(s, 0, opt);
    if skip.error.Some? then skip
    else if Peek(s, skip.pos) == '\0' then Fail(DocumentEmpty, skip.pos)
    else
      var value := ParseValue(s, skip.pos, opt);
      if value.error.Some? then value else After(value.events, ParseEnd(s, value.pos, opt))
  }
}
