/**
 The reader as it runs: a stream position, the calls made on the handler and the
 parse result, changed step by step. Every method does what the function of the
 same name in `Reader` or `IterativeReader` says.
 */
module GenericReaders {
  import opened Json
  import opened Arithmetic
  import opened Reader
  import opened IterativeReader
  import opened Texts
  import R = Reader
  import I = IterativeReader

  type Uint32 = n: int | 0 <= n < 0x1_0000_0000

  type Uint64 = n: int | 0 <= n < 0x1_0000_0000_0000_0000

  // ----- Facts about the scanning functions -----

  /** The largest magnitude that the integer accumulator of a width takes. */
  function Limit32(minus: bool): Uint32 {
    if minus then 0x8000_0000 else 0xFFFF_FFFF
  }

  function Limit64(minus: bool): Uint64 {
    if minus then 0x8000_0000_0000_0000 else 0xFFFF_FFFF_FFFF_FFFF
  }

  lemma BeyondLimit(minus: bool, n: nat)
    ensures IntegerEvent(minus, n).None? <==> n > Limit64(minus)
  {
  }

  /** `static_cast<int32_t>(~i + 1)`: two's complement negation. */
  function Negated32(i: Uint32): (r: int)
    ensures i <= 0x8000_0000 ==> r == -(i as int)
  {
    var w := (0xFFFF_FFFF - i + 1) % 0x1_0000_0000;
    if w >= 0x8000_0000 then w - 0x1_0000_0000 else w
  }

  /** `static_cast<int64_t>(~i64 + 1)`. */
  function Negated64(i: Uint64): (r: int)
    ensures i <= 0x8000_0000_0000_0000 ==> r == -(i as int)
  {
    var w := (0xFFFF_FFFF_FFFF_FFFF - i + 1) % 0x1_0000_0000_0000_0000;
    if w >= 0x8000_0000_0000_0000 then w - 0x1_0000_0000_0000_0000 else w
  }

  /** Reading one more digit of a numeral. */
  lemma DecimalNext(s: string, i: nat, k: nat)
    requires i <= k < |s| && AllDigits(s[i..k]) && IsDigit(s[k])
    ensures AllDigits(s[i..k + 1]) && Decimal(s[i..k + 1]) == Decimal(s[i..k]) * 10 + Digit(s[k])
  {
    assert s[i..k + 1] == s[i..k] + [s[k]];
    DecimalLast(s[i..k], s[k]);
  }

  /** A numeral is at least each of its prefixes. */
  lemma {:induction false} DecimalGrows(s: string, i: nat, k: nat, end: nat)
    requires i <= k <= end <= |s| && AllDigits(s[i..end])
    ensures AllDigits(s[i..k]) && Decimal(s[i..k]) <= Decimal(s[i..end])
  {
    if k < end {
      assert s[end - 1] == s[i..end][end - 1 - i];
      assert s[i..end - 1] == s[i..end][..end - 1 - i];
      DecimalGrows(s, i, k, end - 1);
      DecimalNext(s, i, end - 1);
    }
  }

  /** A numeral that passes its limit one digit later has passed it for good. */
  lemma LimitPassed(s: string, i: nat, k: nat, end: nat, limit: nat)
    requires i <= k < end <= |s| && AllDigits(s[i..end]) && IsDigit(s[k])
    requires AllDigits(s[i..k]) && Decimal(s[i..k]) * 10 + Digit(s[k]) > limit
    ensures Decimal(s[i..end]) > limit
  {
    DecimalNext(s, i, k);
    DecimalGrows(s, i, k + 1, end);
  }

  lemma TenTo17()
    ensures Pow(10, 17) == 100_000_000_000_000_000
  {
    hide Pow;
    PowOne(10);
    PowAdd(10, 1, 1);
    PowAdd(10, 2, 2);
    PowAdd(10, 4, 4);
    PowAdd(10, 8, 8);
    PowAdd(10, 16, 1);
  }

  lemma ZeroDecimal()
    ensures AllDigits("0") && Decimal("0") == 0
  {
    DecimalLast("", '0');
    assert "" + ['0'] == "0";
  }

  /** A number past the largest 64-bit chunks has at least eighteen digits. */
  lemma ManyDigits(t: string)
    requires AllDigits(t) && Decimal(t) >= 0x0CCC_CCCC_CCCC_CCCC
    ensures |t| >= 18
  {
    DecimalBound(t);
    TenTo17();
    hide Pow, Decimal;
    if |t| < 18 {
      PowMonotone(10, |t|, 17);
    }
  }

  /** With seventeen significant digits no more fraction digits count. */
  lemma {:induction false} EnoughDigits(t: string, digits: nat)
    requires AllDigits(t) && digits >= 17
    ensures DoubleFraction(t, digits, true) == 0
  {
    if t != "" {
      EnoughDigits(t[1..], digits);
    }
  }

  lemma DigitsGoOn(s: string, i: nat)
    requires i < |s| && IsDigit(s[i])
    ensures DigitsEnd(s, i) == DigitsEnd(s, i + 1)
  {
  }

  lemma NoDigits(s: string, i: nat)
    requires i <= |s| && !IsDigit(Peek(s, i))
    ensures DigitsEnd(s, i) == i
  {
  }

  /** The end of the sign, the digits and the fraction of the number at `i`. */
  function SignificandEnd(s: string, i: nat): (r: nat)
    requires i <= |s|
    ensures i <= r <= |s|
  {
    var j := if Peek(s, i) == '-' then i + 1 else i;
    if !IsDigit(Peek(s, j)) then j
    else
      var point := WholeEnd(s, j);
      if Peek(s, point) == '.' then DigitsEnd(s, point + 1) else point
  }

  /** One turn of the loop of `ParseArray`. */
  lemma AfterElement(s: string, i: nat, count: nat, opt: Options, emitted: seq<Event>)
    requires i <= |s|
    ensures var value := R.ParseValue(s, i, opt);
            After(emitted, ParseElements(s, i, count, opt)) ==
              if value.error.Some? then After(emitted, value)
              else After(emitted + value.events, ParseElementsRest(s, value.pos, count + 1, opt))
  {
    hide R.ParseValue, ParseElementsRest;
    var value := R.ParseValue(s, i, opt);
    if value.error.None? {
      AfterAfter(emitted, value.events, ParseElementsRest(s, value.pos, count + 1, opt));
    }
  }

  /** A member: its name and its value. */
  function MemberParsed(s: string, i: nat, opt: Options): (r: Parsed)
    requires i <= |s|
    ensures r.error.None? ==> i < r.pos <= |s|
  {
    var name := ParseName(s, i, opt);
    if name.error.Some? then name else After(name.events, R.ParseValue(s, name.pos, opt))
  }

  /** One turn of the loop of `ParseObject`. */
  lemma AfterMember(s: string, i: nat, count: nat, opt: Options, emitted: seq<Event>)
    requires i <= |s|
    ensures var member := MemberParsed(s, i, opt);
            After(emitted, ParseMembers(s, i, count, opt)) ==
              if member.error.Some? then After(emitted, member)
              else After(emitted + member.events, ParseMembersRest(s, member.pos, count + 1, opt))
  {
    hide ParseName, R.ParseValue, ParseMembersRest;
    var name := ParseName(s, i, opt);
    if name.error.None? {
      var value := R.ParseValue(s, name.pos, opt);
      if value.error.None? {
        var rest := ParseMembersRest(s, value.pos, count + 1, opt);
        AfterAfter(name.events, value.events, rest);
        AfterAfter(emitted, name.events + value.events, rest);
      }
    }
  }

  /** The shape of the iterative parser's stack: the outermost frame restores the start, and only roots have none. */
  ghost predicate Nested(state: State, stack: seq<Frame>) {
    && (|stack| > 0 ==> stack[0].state.StartState?)
    && (forall k :: 0 < k < |stack| ==> stack[k].state.ElementState? || stack[k].state.MemberValueState?)
    && (stack == [] <==> state.StartState? || state.FinishState?)
  }

  lemma StartNested()
    ensures Nested(StartState, [])
  {
  }

  /** One turn of the loop of `IterativeParse`. */
  lemma AfterTurn(s: string, c: Config, opt: Options, emitted: seq<Event>)
    requires c.pos < |s| && s[c.pos] != '\0'
    ensures var turn := I.Transit(s, c, Predict(c.state, Tokenize(s[c.pos])), opt);
            var whole := After(emitted, Run(s, c, opt));
            if turn.Stopped? then
              && whole.events == emitted
              && whole.error == Some(if turn.error.Some? then turn.error.value else ParseError(I.HandleError(c.state), c.pos))
            else if opt.stopWhenDone && turn.config.state.FinishState? then whole == Done(turn.config.pos, emitted + turn.events)
            else
              var skip := Skip(s, turn.config.pos, opt);
              whole == After(emitted + turn.events,
                             if skip.error.Some? then skip else Run(s, turn.config.(pos := skip.pos), opt))
  {
    hide I.Transit, Predict, Tokenize, Skip;
    var turn := I.Transit(s, c, Predict(c.state, Tokenize(s[c.pos])), opt);
    if turn.Moved? {
      AfterAfter(emitted, turn.events, Resume(s, turn.config, opt));
    }
  }

  lemma AtEnd(s: string, c: Config, opt: Options)
    requires c.pos <= |s| && Peek(s, c.pos) == '\0'
    ensures Run(s, c, opt) == if c.state.FinishState? then Done(c.pos, []) else Fail(I.HandleError(c.state), c.pos)
  {
  }

  lemma StringFails(s: string, i: nat, isKey: bool)
    requires i < |s|
    ensures var p := R.ParseString(s, i, isKey);
            p.error.Some? ==> p.events == []
  {
  }

  lemma OneDigit(s: string, i: nat)
    requires i < |s| && IsDigit(s[i])
    ensures AllDigits(s[i..i + 1]) && Decimal(s[i..i + 1]) == Digit(s[i])
  {
    assert s[i..i + 1] == "" + [s[i]];
    DecimalLast("", s[i]);
  }

  /** The fraction digits that count, from the state after the integer digits. */
  lemma FractionIs(minus: bool, whole: string, fraction: string, digits: nat)
    requires AllDigits(whole) && AllDigits(fraction) && |whole| > 0
    requires if IntegerEvent(minus, Decimal(whole)).None? then digits >= 17 else digits == |whole| - 1
    ensures FractionDigits(minus, whole, fraction) ==
            if IntegerEvent(minus, Decimal(whole)).None? then DoubleFraction(fraction, digits, true)
            else IntegerFraction(fraction, Decimal(whole), digits)
  {
    EnoughDigits(fraction, 17);
    if digits >= 17 {
      EnoughDigits(fraction, digits);
    }
  }

  // ----- The class -----

  class GenericReader {
    const text: string
    const opt: Options
    /** The stream's position. */
    var pos: nat
    /** The calls made on the handler. */
    var events: seq<Event>
    /** The parse result. */
    var error: Option<ParseError>
    /** The states and counts of the iterative parser. */
    var stack: seq<Frame>

    constructor (text: string, opt: Options)
      ensures this.text == text && this.opt == opt
      ensures pos == 0 && events == [] && error.None? && stack == []
    {
      this.text, this.opt := text, opt;
      pos, events, error, stack := 0, [], None, [];
    }

    ghost predicate Ready()
      reads this
    {
      pos <= |text| && error.None?
    }

    /** What was done since `before` is what `p` says. */
    ghost predicate Went(before: seq<Event>, p: Parsed)
      reads this
    {
      && events == before + p.events
      && error == p.error
      && (error.None? ==> pos == p.pos <= |text|)
    }

    method SetParseError(code: ParseErrorCode, offset: nat)
      modifies this`error
      ensures error == Some(ParseError(code, offset))
    {
      error := Some(ParseError(code, offset));
    }

    method Consume(c: char) returns (taken: bool)
      requires pos <= |text| && c != '\0'
      modifies this`pos
      ensures taken == (Peek(text, old(pos)) == c)
      ensures pos == (if taken then old(pos) + 1 else old(pos)) <= |text|
    {
      taken := Peek(text, pos) == c;
      if taken {
        pos := pos + 1;
      }
    }

    method SkipWhitespace()
      requires pos <= |text|
      modifies this`pos
      ensures pos == R.SkipWhitespace(text, old(pos))
    {
      while IsSpace(Peek(text, pos))
        invariant old(pos) <= pos <= |text| && R.SkipWhitespace(text, pos) == R.SkipWhitespace(text, old(pos))
        decreases |text| - pos
      {
        pos := pos + 1;
      }
    }

    method SkipWhitespaceAndComments()
      requires Ready()
      modifies this`pos, this`error
      ensures Went(events, Skip(text, old(pos), opt))
    {
      hide BlockComment, LineComment;
      SkipWhitespace();
      if opt.comments {
        ghost var start := pos;
        while true
          invariant Ready() && SkipComments(text, pos) == SkipComments(text, start)
          decreases |text| - pos
        {
          var slash := Consume('/');
          if !slash {
            break;
          }
          var star := Consume('*');
          if star {
            SkipBlockComment();
            if error.Some? {
              return;
            }
          } else {
            var second := Consume('/');
            if second {
              SkipLineComment();
            } else {
              SetParseError(UnspecificSyntaxError, pos);
              return;
            }
          }
          SkipWhitespace();
        }
      }
    }

    method SkipBlockComment()
      requires Ready()
      modifies this`pos, this`error
      ensures Went(events, BlockComment(text, old(pos)))
    {
      while true
        invariant Ready() && BlockComment(text, pos) == BlockComment(text, old(pos))
        decreases |text| - pos
      {
        if Peek(text, pos) == '\0' {
          SetParseError(UnspecificSyntaxError, pos);
          return;
        }
        var star := Consume('*');
        if star {
          var slash := Consume('/');
          if slash {
            return;
          }
        } else {
          pos := pos + 1;
        }
      }
    }

    method SkipLineComment()
      requires pos <= |text|
      modifies this`pos
      ensures pos == LineComment(text, old(pos))
    {
      while Peek(text, pos) != '\0'
        invariant pos <= |text| && LineComment(text, pos) == LineComment(text, old(pos))
        decreases |text| - pos
      {
        pos := pos + 1;
        if text[pos - 1] == '\n' {
          return;
        }
      }
    }

    // ----- Literals and strings -----

    /** `ParseNull`, `ParseTrue` and `ParseFalse`: the letters of `word` are consumed while they match. */
    method ParseLiteral(word: string, e: Event)
      requires Ready() && |word| > 0 && '\0' !in word
      modifies this`pos, this`events, this`error
      ensures Went(old(events), R.ParseLiteral(text, old(pos), word, e))
    {
      var k := 0;
      ghost var start := pos;
      assert word[0..] == word;
      while k < |word| && Peek(text, pos) == word[k]
        invariant 0 <= k <= |word| && pos == start + k <= |text| && error.None? && events == old(events)
        invariant Matching(text, start, word) == k + Matching(text, pos, word[k..])
      {
        assert word[k..][1..] == word[k + 1..];
        k := k + 1;
        pos := pos + 1;
      }
      assert if k < |word| then word[k] in word && word[k..][0] == word[k] else word[k..] == [];
      if k == |word| {
        events := events + [e];
      } else {
        SetParseError(ValueInvalid, pos);
      }
    }

    /** Four hexadecimal digits. */
    method ParseHex4(escapeOffset: nat) returns (codepoint: int)
      requires Ready()
      modifies this`pos, this`error
      ensures var h := Hex4(text, old(pos));
              if h < 0 then error == Some(ParseError(StringUnicodeEscapeInvalidHex, escapeOffset))
              else codepoint == h && error.None? && pos == old(pos) + 4 <= |text|
    {
      codepoint := 0;
      ghost var start := pos;
      ghost var h0, h1 := HexValue(Peek(text, start)), HexValue(Peek(text, start + 1));
      ghost var h2, h3 := HexValue(Peek(text, start + 2)), HexValue(Peek(text, start + 3));
      var k := 0;
      while k < 4
        invariant 0 <= k <= 4 && Ready() && pos == start + k
        invariant k >= 1 ==> h0 >= 0
        invariant k >= 2 ==> h1 >= 0
        invariant k >= 3 ==> h2 >= 0
        invariant k >= 4 ==> h3 >= 0
        invariant codepoint == if k == 0 then 0
                               else if k == 1 then h0
                               else if k == 2 then h0 * 16 + h1
                               else if k == 3 then (h0 * 16 + h1) * 16 + h2
                               else ((h0 * 16 + h1) * 16 + h2) * 16 + h3
      {
        var c := Peek(text, pos);
        codepoint := codepoint * 16 + c as int;
        if '0' <= c <= '9' {
          codepoint := codepoint - '0' as int;
        } else if 'A' <= c <= 'F' {
          codepoint := codepoint - ('A' as int - 10);
        } else if 'a' <= c <= 'f' {
          codepoint := codepoint - ('a' as int - 10);
        } else {
          SetParseError(StringUnicodeEscapeInvalidHex, escapeOffset);
          return;
        }
        pos := pos + 1;
        k := k + 1;
      }
    }

    /** The outcome of scanning part of a string: its text, or the error. */
    ghost predicate Scanned(str: string, p: Piece)
      reads this
    {
      match p
      case Bad(e) => error == Some(e)
      case Piece(t, next) => str == t && error.None? && pos == next <= |text|
    }

    /** `\uXXXX`, or a surrogate pair, after the `u`. */
    method ParseUnicodeEscape(escapeOffset: nat) returns (str: string)
      requires Ready() && escapeOffset + 2 == pos
      modifies this`pos, this`error
      ensures Scanned(str, ParseUnicode(text, escapeOffset))
    {
      hide Hex4, Units;
      str := "";
      var codepoint := ParseHex4(escapeOffset);
      if error.Some? {
        return;
      }
      if 0xD800 <= codepoint <= 0xDFFF {
        if codepoint <= 0xDBFF {
          var backslash := Consume('\\');
          var u := false;
          if backslash {
            u := Consume('u');
          }
          if !backslash || !u {
            SetParseError(StringUnicodeSurrogateInvalid, escapeOffset);
            return;
          }
          var codepoint2 := ParseHex4(escapeOffset);
          if error.Some? {
            return;
          }
          if codepoint2 < 0xDC00 || codepoint2 > 0xDFFF {
            SetParseError(StringUnicodeSurrogateInvalid, escapeOffset);
            return;
          }
          codepoint := (codepoint - 0xD800) * 0x400 + (codepoint2 - 0xDC00) + 0x1_0000;
        } else {
          SetParseError(StringUnicodeSurrogateInvalid, escapeOffset);
          return;
        }
      }
      str := Units(codepoint);
    }

    /** An escape sequence, at its backslash. */
    method ParseEscape() returns (str: string)
      requires Ready() && Peek(text, pos) == '\\'
      modifies this`pos, this`error
      ensures Scanned(str, ParsePiece(text, old(pos)))
    {
      str := "";
      var escapeOffset := pos;
      pos := pos + 1;
      var e := Peek(text, pos);
      if Unescape(e).Some? {
        pos := pos + 1;
        str := [Unescape(e).value];
      } else if e == 'u' {
        pos := pos + 1;
        str := ParseUnicodeEscape(escapeOffset);
      } else {
        SetParseError(StringEscapeInvalid, escapeOffset);
      }
    }

    /** `ParseStringToStream`, after the opening quote. */
    method ParseStringToStream() returns (str: string)
      requires Ready()
      modifies this`pos, this`error
      ensures Scanned(str, ParseStringBody(text, old(pos)))
    {
      hide ParsePiece, ParseUnicode;
      str := "";
      ghost var start := pos;
      while true
        invariant Ready() && start <= pos
        invariant var whole, rest := ParseStringBody(text, start), ParseStringBody(text, pos);
                  whole == if rest.Bad? then rest else Piece(str + rest.text, rest.pos)
        decreases |text| - pos
      {
        ghost var here := pos;
        ghost var first := if Peek(text, pos) == '"' then Piece("", pos) else ParsePiece(text, pos);
        var c := Peek(text, pos);
        if c == '\\' {
          var t := ParseEscape();
          if error.Some? {
            return;
          }
          JoinPieces(text, here, str);
          str := str + t;
        } else if c == '"' {
          pos := pos + 1;
          assert str + "" == str;
          return;
        } else if c < ' ' {
          ControlPiece(text, pos);
          SetParseError(if c == '\0' then StringMissQuotationMark else StringInvalidEncoding, pos);
          return;
        } else {
          PlainPiece(text, pos);
          JoinPieces(text, here, str);
          pos := pos + 1;
          str := str + [c];
        }
      }
    }

    method ParseString(isKey: bool)
      requires Ready() && Peek(text, pos) == '"'
      modifies this`pos, this`events, this`error
      ensures Went(old(events), R.ParseString(text, old(pos), isKey))
    {
      pos := pos + 1;
      var str := ParseStringToStream();
      if error.Some? {
        return;
      }
      events := events + [if isKey then Key(str) else StringEvent(str)];
    }

    // ----- Numbers -----

    /** The first loop over the integer digits: a 32-bit accumulator, until a digit would pass its limit. */
    method ParseInt(minus: bool) returns (i: Uint32, use64bit: bool, significandDigit: nat)
      requires Ready() && IsDigit(Peek(text, pos)) && text[pos] != '0'
      modifies this`pos
      ensures Ready() && old(pos) < pos && AllDigits(text[old(pos)..pos])
      ensures i == Decimal(text[old(pos)..pos]) <= Limit32(minus) && significandDigit == pos - old(pos) - 1
      ensures DigitsEnd(text, old(pos)) == DigitsEnd(text, pos)
      ensures use64bit == IsDigit(Peek(text, pos))
      ensures use64bit ==> i * 10 + Digit(text[pos]) > Limit32(minus)
    {
      hide Decimal, DigitsEnd;
      ghost var start := pos;
      i := Digit(text[pos]);
      use64bit := false;
      significandDigit := 0;
      OneDigit(text, pos);
      DigitsGoOn(text, pos);
      pos := pos + 1;
      if minus {
        while IsDigit(Peek(text, pos))
          invariant start < pos <= |text| && AllDigits(text[start..pos]) && i == Decimal(text[start..pos]) <= Limit32(minus)
          invariant significandDigit == pos - start - 1 && !use64bit
          invariant DigitsEnd(text, start) == DigitsEnd(text, pos)
          decreases |text| - pos
        {
          if i >= 214748364 {
            if i != 214748364 || text[pos] > '8' {
              use64bit := true;
              break;
            }
          }
          DecimalNext(text, start, pos);
          DigitsGoOn(text, pos);
          i := i * 10 + Digit(text[pos]);
          pos := pos + 1;
          significandDigit := significandDigit + 1;
        }
      } else {
        while IsDigit(Peek(text, pos))
          invariant start < pos <= |text| && AllDigits(text[start..pos]) && i == Decimal(text[start..pos]) <= Limit32(minus)
          invariant significandDigit == pos - start - 1 && !use64bit
          invariant DigitsEnd(text, start) == DigitsEnd(text, pos)
          decreases |text| - pos
        {
          if i >= 429496729 {
            if i != 429496729 || text[pos] > '5' {
              use64bit := true;
              break;
            }
          }
          DecimalNext(text, start, pos);
          DigitsGoOn(text, pos);
          i := i * 10 + Digit(text[pos]);
          pos := pos + 1;
          significandDigit := significandDigit + 1;
        }
      }
    }

    /** The second loop: a 64-bit accumulator that goes on from `start`, until a digit would pass its limit. */
    method ParseInt64(minus: bool, i: Uint32, digits: nat, ghost start: nat)
      returns (i64: Uint64, useDouble: bool, significandDigit: nat)
      requires Ready() && start < pos && digits == pos - start - 1
      requires AllDigits(text[start..pos]) && i == Decimal(text[start..pos]) <= Limit32(minus)
      modifies this`pos
      ensures Ready() && old(pos) <= pos && AllDigits(text[start..pos])
      ensures i64 == Decimal(text[start..pos]) <= Limit64(minus)
      ensures DigitsEnd(text, old(pos)) == DigitsEnd(text, pos)
      ensures useDouble == IsDigit(Peek(text, pos)) && significandDigit == pos - start - 1
      ensures useDouble ==> i64 >= 0x0CCC_CCCC_CCCC_CCCC && i64 * 10 + Digit(text[pos]) > Limit64(minus)
    {
      hide Decimal, DigitsEnd;
      i64, useDouble, significandDigit := i, false, digits;
      if minus {
        while IsDigit(Peek(text, pos))
          invariant old(pos) <= pos <= |text| && AllDigits(text[start..pos]) && i64 == Decimal(text[start..pos]) <= Limit64(minus)
          invariant !useDouble && significandDigit == pos - start - 1
          invariant DigitsEnd(text, old(pos)) == DigitsEnd(text, pos)
          decreases |text| - pos
        {
          if i64 >= 0x0CCC_CCCC_CCCC_CCCC {
            if i64 != 0x0CCC_CCCC_CCCC_CCCC || text[pos] > '8' {
              useDouble := true;
              break;
            }
          }
          DecimalNext(text, start, pos);
          DigitsGoOn(text, pos);
          i64 := i64 * 10 + Digit(text[pos]);
          pos := pos + 1;
          significandDigit := significandDigit + 1;
        }
      } else {
        while IsDigit(Peek(text, pos))
          invariant old(pos) <= pos <= |text| && AllDigits(text[start..pos]) && i64 == Decimal(text[start..pos]) <= Limit64(minus)
          invariant !useDouble && significandDigit == pos - start - 1
          invariant DigitsEnd(text, old(pos)) == DigitsEnd(text, pos)
          decreases |text| - pos
        {
          if i64 >= 0x1999_9999_9999_9999 {
            if i64 != 0x1999_9999_9999_9999 || text[pos] > '5' {
              useDouble := true;
              break;
            }
          }
          DecimalNext(text, start, pos);
          DigitsGoOn(text, pos);
          i64 := i64 * 10 + Digit(text[pos]);
          pos := pos + 1;
          significandDigit := significandDigit + 1;
        }
      }
    }

    method SkipDigits()
      requires Ready()
      modifies this`pos
      ensures Ready() && pos == DigitsEnd(text, old(pos))
    {
      while IsDigit(Peek(text, pos))
        invariant old(pos) <= pos <= |text| && DigitsEnd(text, old(pos)) == DigitsEnd(text, pos)
        decreases |text| - pos
      {
        pos := pos + 1;
      }
    }

    /**
     The integer digits, in the narrowest accumulator that holds them: `i`,
     `i64`, or neither when only a double can.
     */
    method ParseWhole(minus: bool) returns (i: Uint32, i64: Uint64, use64bit: bool, useDouble: bool, significandDigit: nat)
      requires Ready() && IsDigit(Peek(text, pos))
      modifies this`pos
      ensures Ready() && pos == WholeEnd(text, old(pos))
      ensures var n := Decimal(text[old(pos)..pos]);
              && use64bit == (n > Limit32(minus))
              && useDouble == (n > Limit64(minus))
              && (!use64bit ==> i == n)
              && (use64bit && !useDouble ==> i64 == n)
      ensures if useDouble then significandDigit >= 17 else significandDigit == pos - old(pos) - 1
    {
      hide Decimal;
      i64, use64bit, useDouble, significandDigit := 0, false, false, 0;
      ghost var start := pos;
      if text[pos] == '0' {
        i := 0;
        OneDigit(text, pos);
        pos := pos + 1;
        return;
      }
      i, use64bit, significandDigit := ParseInt(minus);
      ghost var end := DigitsEnd(text, start);
      assert AllDigits(text[start..end]);
      if use64bit {
        LimitPassed(text, start, pos, end, Limit32(minus));
        i64, useDouble, significandDigit := ParseInt64(minus, i, significandDigit, start);
        if useDouble {
          ManyDigits(text[start..pos]);
          LimitPassed(text, start, pos, end, Limit64(minus));
          SkipDigits();
        }
      }
    }

    /** The fraction digits that enter an integer significand: up to the one that leaves 53 bits. */
    method ParseIntegerFraction(significand: Uint64, wholeDigits: nat)
      returns (i64: Uint64, expFrac: int, significandDigit: nat)
      requires Ready()
      modifies this`pos
      ensures Ready() && old(pos) <= pos && DigitsEnd(text, old(pos)) == DigitsEnd(text, pos)
      ensures expFrac <= 0 && (IsDigit(Peek(text, pos)) ==> i64 > 0)
      ensures var end := DigitsEnd(text, pos);
              && AllDigits(text[old(pos)..end]) && AllDigits(text[pos..end])
              && IntegerFraction(text[old(pos)..end], significand, wholeDigits)
                 == -expFrac + DoubleFraction(text[pos..end], significandDigit, true)
    {
      hide DigitsEnd;
      ghost var start, end := pos, DigitsEnd(text, pos);
      i64, expFrac, significandDigit := significand, 0, wholeDigits;
      while IsDigit(Peek(text, pos))
        invariant start <= pos <= end <= |text| && end == DigitsEnd(text, pos) && AllDigits(text[pos..end]) && expFrac <= 0
        invariant -expFrac + IntegerFraction(text[pos..end], i64, significandDigit)
                  == IntegerFraction(text[start..end], significand, wholeDigits)
        decreases |text| - pos
      {
        DigitsGoOn(text, pos);
        if i64 > 0x1F_FFFF_FFFF_FFFF {
          return;
        }
        assert text[pos..end][1..] == text[pos + 1..end];
        i64 := i64 * 10 + Digit(text[pos]);
        pos := pos + 1;
        expFrac := expFrac - 1;
        if i64 != 0 {
          significandDigit := significandDigit + 1;
        }
      }
      NoDigits(text, pos);
    }

    /** The fraction digits that enter a double significand, which stays positive: up to seventeen digits. */
    method ParseDoubleFraction(digits: nat, isPositive: bool) returns (expFrac: int)
      requires Ready() && (IsDigit(Peek(text, pos)) ==> isPositive)
      modifies this`pos
      ensures Ready() && pos == DigitsEnd(text, old(pos)) && AllDigits(text[old(pos)..pos])
      ensures -expFrac == DoubleFraction(text[old(pos)..pos], digits, true)
    {
      hide DigitsEnd;
      expFrac := 0;
      var significandDigit := digits;
      ghost var start, end := pos, DigitsEnd(text, pos);
      while IsDigit(Peek(text, pos))
        invariant start <= pos <= end <= |text| && end == DigitsEnd(text, pos) && AllDigits(text[pos..end])
        invariant -expFrac + DoubleFraction(text[pos..end], significandDigit, true) == DoubleFraction(text[start..end], digits, true)
        decreases |text| - pos
      {
        DigitsGoOn(text, pos);
        assert text[pos..end][1..] == text[pos + 1..end];
        if significandDigit < 17 {
          pos := pos + 1;
          expFrac := expFrac - 1;
          if isPositive {
            significandDigit := significandDigit + 1;
          }
        } else {
          pos := pos + 1;
        }
      }
      NoDigits(text, pos);
    }

    /** The digits after the point: how many of them enter the significand, negated. */
    method ParseFraction(useDouble: bool, significand: Uint64, wholeDigits: nat) returns (expFrac: int)
      requires Ready()
      modifies this`pos
      ensures Ready() && pos == DigitsEnd(text, old(pos))
      ensures AllDigits(text[old(pos)..pos])
      ensures -expFrac == if useDouble then DoubleFraction(text[old(pos)..pos], wholeDigits, true)
                          else IntegerFraction(text[old(pos)..pos], significand, wholeDigits)
    {
      hide DigitsEnd, IntegerFraction;
      expFrac := 0;
      var significandDigit, positive := wholeDigits, true;
      ghost var start, end := pos, DigitsEnd(text, pos);
      if !useDouble {
        var i64: Uint64;
        i64, expFrac, significandDigit := ParseIntegerFraction(significand, wholeDigits);
        positive := i64 > 0;
      }
      var more := ParseDoubleFraction(significandDigit, positive);
      expFrac := expFrac + more;
    }

    /**
     The digits of a negative exponent, read until they cannot matter. As long as
     fewer than 2 * 10^8 fraction digits count, neither the exponent nor its sum
     with them leaves a 32-bit int.
     */
    method ParseNegativeExponent(expFrac: int) returns (exp: int)
      requires Ready() && IsDigit(Peek(text, pos)) && expFrac <= 0
      modifies this`pos
      ensures Ready() && pos == DigitsEnd(text, old(pos))
      ensures -expFrac < 200_000_000 ==> 0 <= exp && FitsInt(exp) && FitsInt(-exp + expFrac)
      ensures exp == Decimal(text[old(pos)..pos]) || (expFrac + 2147483639) / 10 < exp <= Decimal(text[old(pos)..pos])
    {
      hide Decimal, DigitsEnd;
      ghost var start, end := pos, DigitsEnd(text, pos);
      OneDigit(text, pos);
      DigitsGoOn(text, pos);
      exp := Digit(text[pos]);
      pos := pos + 1;
      var maxExp := (expFrac + 2147483639) / 10;
      while IsDigit(Peek(text, pos))
        invariant start < pos <= end <= |text| && end == DigitsEnd(text, pos)
        invariant AllDigits(text[start..pos]) && exp == Decimal(text[start..pos])
        invariant -expFrac < 200_000_000 ==> exp <= maxExp
        decreases |text| - pos
      {
        DecimalNext(text, start, pos);
        DigitsGoOn(text, pos);
        exp := exp * 10 + Digit(text[pos]);
        pos := pos + 1;
        if exp > maxExp {
          DecimalGrows(text, start, pos, end);
          SkipDigits();
          return;
        }
      }
      NoDigits(text, pos);
    }

    /** The digits of a positive exponent, up to where the number is too big. */
    method ParsePositiveExponent(startOffset: nat, expFrac: int) returns (exp: int)
      requires Ready() && IsDigit(Peek(text, pos)) && expFrac <= 0
      modifies this`pos, this`error
      ensures var end := DigitsEnd(text, old(pos));
              if Decimal(text[old(pos)..end]) > 308 - expFrac then error == Some(ParseError(NumberTooBig, startOffset))
              else error.None? && pos == end && exp == Decimal(text[old(pos)..end])
      ensures -expFrac < 200_000_000 ==> 0 <= exp && FitsInt(exp) && FitsInt(exp + expFrac)
    {
      hide Decimal, DigitsEnd;
      ghost var start, end := pos, DigitsEnd(text, pos);
      OneDigit(text, pos);
      DigitsGoOn(text, pos);
      exp := Digit(text[pos]);
      pos := pos + 1;
      var maxExp := 308 - expFrac;
      while IsDigit(Peek(text, pos))
        invariant start < pos <= end <= |text| && end == DigitsEnd(text, pos) && error.None?
        invariant AllDigits(text[start..pos]) && exp == Decimal(text[start..pos]) <= maxExp
        decreases |text| - pos
      {
        DecimalNext(text, start, pos);
        DigitsGoOn(text, pos);
        exp := exp * 10 + Digit(text[pos]);
        pos := pos + 1;
        if exp > maxExp {
          DecimalGrows(text, start, pos, end);
          SetParseError(NumberTooBig, startOffset);
          return;
        }
      }
      NoDigits(text, pos);
    }

    /** The exponent part, if there is one. */
    method ParseExponent(startOffset: nat, expFrac: int) returns (present: bool, exp: int)
      requires Ready() && expFrac <= 0
      modifies this`pos, this`error
      ensures Went(events, R.ParseExponent(text, old(pos), startOffset, -expFrac))
      ensures present == (Peek(text, old(pos)) == 'e' || Peek(text, old(pos)) == 'E')
      ensures !present ==> pos == old(pos) && error.None?
      ensures present && error.None? ==> pos > old(pos)
      ensures -expFrac < 200_000_000 ==> FitsInt(exp) && FitsInt(exp + expFrac)
    {
      hide Decimal, DigitsEnd;
      exp := 0;
      present := Consume('e');
      if !present {
        present := Consume('E');
      }
      if !present {
        return;
      }
      var expMinus := false;
      var plus := Consume('+');
      if !plus {
        expMinus := Consume('-');
      }
      if IsDigit(Peek(text, pos)) {
        if expMinus {
          exp := ParseNegativeExponent(expFrac);
        } else {
          exp := ParsePositiveExponent(startOffset, expFrac);
        }
      } else {
        SetParseError(NumberMissExponent, pos);
      }
      assert Went(events, R.ParseExponent(text, old(pos), startOffset, -expFrac));
      if expMinus {
        exp := -exp;
      }
    }

    /** The point and the digits after it, if there is one. */
    method ParsePoint(ghost minus: bool, ghost whole: string, useDouble: bool, significand: Uint64, digits: nat)
      returns (dot: bool, expFrac: int)
      requires Ready() && AllDigits(whole) && |whole| > 0
      requires useDouble == IntegerEvent(minus, Decimal(whole)).None?
      requires if useDouble then digits >= 17 else digits == |whole| - 1 && significand == Decimal(whole)
      modifies this`pos, this`error
      ensures dot == (Peek(text, old(pos)) == '.')
      ensures !dot ==> Ready() && pos == old(pos) && expFrac == 0
      ensures expFrac <= 0 && (error.None? ==> -expFrac <= pos - old(pos) && pos <= |text|) && (error.Some? ==> expFrac == 0)
      ensures dot ==>
                if !IsDigit(Peek(text, old(pos) + 1)) then error == Some(ParseError(NumberMissFraction, old(pos) + 1))
                else
                  && Ready() && pos == DigitsEnd(text, old(pos) + 1)
                  && -expFrac == FractionDigits(minus, whole, text[old(pos) + 1..pos])
    {
      hide Decimal, FractionDigits, IntegerFraction, DoubleFraction, DigitsEnd;
      expFrac := 0;
      dot := Consume('.');
      if dot {
        if !IsDigit(Peek(text, pos)) {
          SetParseError(NumberMissFraction, pos);
          return;
        }
        ghost var start := pos;
        expFrac := ParseFraction(useDouble, significand, digits);
        FractionIs(minus, whole, text[start..pos], digits);
      }
    }

    /**
     A whole number. The exponent, the count of fraction digits and their sum stay
     in 32 bits for every literal, accepted or refused, that has fewer than
     2 * 10^8 characters before its exponent.
     */
    method ParseNumber() returns (ghost exponent: int, ghost fraction: int)
      requires Ready()
      modifies this`pos, this`events, this`error
      ensures Went(old(events), R.ParseNumber(text, old(pos), opt))
      ensures 0 <= -fraction <= SignificandEnd(text, old(pos)) - old(pos)
      ensures SignificandEnd(text, old(pos)) - old(pos) < 200_000_000 ==>
                FitsInt(exponent) && FitsInt(fraction) && FitsInt(exponent + fraction)
    {
      hide Decimal, DigitsEnd, WholeEnd, FractionDigits, R.ParseExponent, IntegerEvent, Limit32, Limit64;
      exponent, fraction := 0, 0;
      var startOffset := pos;
      var minus := Consume('-');
      ghost var j := pos;
      if !IsDigit(Peek(text, pos)) {
        SetParseError(ValueInvalid, pos);
        return;
      }
      var i, i64, use64bit, useDouble, significandDigit := ParseWhole(minus);
      ghost var whole := text[j..pos];
      BeyondLimit(minus, Decimal(whole));
      var dot, expFrac := ParsePoint(minus, whole, useDouble, if use64bit then i64 else i, significandDigit);
      if error.Some? {
        assert Went(old(events), R.ParseNumber(text, startOffset, opt));
        return;
      }
      var hasExponent, exp := ParseExponent(startOffset, expFrac);
      exponent, fraction := exp, expFrac;
      assert -expFrac <= SignificandEnd(text, startOffset) - startOffset;
      if error.Some? {
        return;
      }
      FinishNumber(startOffset, minus, useDouble || dot || hasExponent, use64bit, i, i64, Decimal(whole));
    }

    /** The event of a number that has been read, from the accumulator that holds the magnitude `n` if it is an integer. */
    method FinishNumber(startOffset: nat, minus: bool, isDouble: bool, use64bit: bool, i: Uint32, i64: Uint64, ghost n: nat)
      requires Ready() && startOffset <= pos
      requires !isDouble ==> use64bit == (n > Limit32(minus)) && n <= Limit64(minus) && if use64bit then i64 == n else i == n
      modifies this`events, this`error
      ensures !isDouble ==> IntegerEvent(minus, n).Some?
      ensures var literal := text[startOffset..pos];
              Went(old(events),
                   if !isDouble then Done(pos, [IntegerEvent(minus, n).value])
                   else if opt.tooBig(literal) then Fail(NumberTooBig, startOffset)
                   else Done(pos, [DoubleEvent(literal)]))
    {
      if isDouble {
        if opt.tooBig(text[startOffset..pos]) {
          SetParseError(NumberTooBig, startOffset);
          return;
        }
        events := events + [DoubleEvent(text[startOffset..pos])];
      } else if use64bit {
        events := events + [if minus then Int64Event(Negated64(i64)) else Uint64Event(i64)];
      } else {
        events := events + [if minus then IntEvent(Negated32(i)) else UintEvent(i)];
      }
    }

    // ----- Recursive descent -----

    method ParseValue()
      requires Ready()
      modifies this`pos, this`events, this`error
      ensures Went(old(events), R.ParseValue(text, old(pos), opt))
      decreases |text| - pos, 1
    {
      hide R.ParseObject, R.ParseArray, R.ParseNumber, R.ParseString, R.ParseLiteral;
      match Peek(text, pos)
      case 'n' => ParseLiteral("null", NullEvent);
      case 't' => ParseLiteral("true", BoolEvent(true));
      case 'f' => ParseLiteral("false", BoolEvent(false));
      case '"' => ParseString(false);
      case '{' => ParseObject();
      case '[' => ParseArray();
      case _ => ghost var exponent, fraction := ParseNumber();
    }

    method ParseArray()
      requires Ready() && Peek(text, pos) == '['
      modifies this`pos, this`events, this`error
      ensures Went(old(events), After([StartArray], R.ParseArray(text, old(pos) + 1, opt)))
      decreases |text| - pos, 0
    {
      hide R.ParseValue, Skip, ParseElements, ParseElementsRest;
      ghost var whole := After([StartArray], R.ParseArray(text, pos + 1, opt));
      pos := pos + 1;
      events := events + [StartArray];
      SkipWhitespaceAndComments();
      if error.Some? {
        return;
      }
      var closed := Consume(']');
      if closed {
        events := events + [EndArray(0)];
        return;
      }
      var elementCount := 0;
      ghost var before, emitted := old(events), [StartArray];
      while true
        invariant Ready() && old(pos) < pos && events == before + emitted
        invariant whole == After(emitted, ParseElements(text, pos, elementCount, opt))
        decreases |text| - pos
      {
        ghost var value := R.ParseValue(text, pos, opt);
        AfterElement(text, pos, elementCount, opt, emitted);
        ParseValue();
        if error.Some? {
          return;
        }
        emitted := emitted + value.events;
        elementCount := elementCount + 1;
        var more := EndElement(elementCount);
        if !more {
          return;
        }
      }
    }

    /** What follows an element; false if the array ended there. */
    method EndElement(elementCount: nat) returns (more: bool)
      requires Ready()
      modifies this`pos, this`events, this`error
      ensures var rest := ParseElementsRest(text, old(pos), elementCount, opt);
              if more then Ready() && old(pos) < pos && events == old(events) && rest == ParseElements(text, pos, elementCount, opt)
              else Went(old(events), rest)
    {
      hide Skip, ParseElements;
      more := false;
      SkipWhitespaceAndComments();
      if error.Some? {
        return;
      }
      var comma := Consume(',');
      if comma {
        SkipWhitespaceAndComments();
        if error.Some? {
          return;
        }
      } else {
        var closed := Consume(']');
        if closed {
          events := events + [EndArray(elementCount)];
        } else {
          SetParseError(ArrayMissCommaOrSquareBracket, pos);
        }
        return;
      }
      if opt.trailingCommas {
        if Peek(text, pos) == ']' {
          events := events + [EndArray(elementCount)];
          pos := pos + 1;
          return;
        }
      }
      more := true;
    }

    method ParseObject()
      requires Ready() && Peek(text, pos) == '{'
      modifies this`pos, this`events, this`error
      ensures Went(old(events), After([StartObject], R.ParseObject(text, old(pos) + 1, opt)))
      decreases |text| - pos, 0
    {
      hide MemberParsed, Skip, ParseMembers, ParseMembersRest;
      ghost var whole := After([StartObject], R.ParseObject(text, pos + 1, opt));
      pos := pos + 1;
      events := events + [StartObject];
      SkipWhitespaceAndComments();
      if error.Some? {
        return;
      }
      var closed := Consume('}');
      if closed {
        events := events + [EndObject(0)];
        return;
      }
      var memberCount := 0;
      ghost var before, emitted := old(events), [StartObject];
      while true
        invariant Ready() && old(pos) < pos && events == before + emitted
        invariant whole == After(emitted, ParseMembers(text, pos, memberCount, opt))
        decreases |text| - pos
      {
        ghost var member := MemberParsed(text, pos, opt);
        AfterMember(text, pos, memberCount, opt, emitted);
        ParseMember();
        if error.Some? {
          return;
        }
        emitted := emitted + member.events;
        memberCount := memberCount + 1;
        var more := EndMember(memberCount);
        if !more {
          return;
        }
      }
    }

    /** The name and the value of a member. */
    method ParseMember()
      requires Ready()
      modifies this`pos, this`events, this`error
      ensures Went(old(events), MemberParsed(text, old(pos), opt))
      decreases |text| - pos, 2
    {
      hide ParseName, R.ParseValue;
      ParseNameAndColon();
      if error.Some? {
        return;
      }
      ParseValue();
    }

    /** A member's name and colon, and the blanks before its value. */
    method ParseNameAndColon()
      requires Ready()
      modifies this`pos, this`events, this`error
      ensures Went(old(events), ParseName(text, old(pos), opt))
    {
      hide Skip, R.ParseString;
      if Peek(text, pos) != '"' {
        SetParseError(ObjectMissName, pos);
        return;
      }
      ParseString(true);
      if error.Some? {
        return;
      }
      SkipWhitespaceAndComments();
      if error.Some? {
        return;
      }
      var colon := Consume(':');
      if !colon {
        SetParseError(ObjectMissColon, pos);
        return;
      }
      SkipWhitespaceAndComments();
    }

    /** What follows a member; false if the object ended there. */
    method EndMember(memberCount: nat) returns (more: bool)
      requires Ready()
      modifies this`pos, this`events, this`error
      ensures var rest := ParseMembersRest(text, old(pos), memberCount, opt);
              if more then Ready() && old(pos) < pos && events == old(events) && rest == ParseMembers(text, pos, memberCount, opt)
              else Went(old(events), rest)
    {
      hide Skip, ParseMembers;
      more := false;
      SkipWhitespaceAndComments();
      if error.Some? {
        return;
      }
      var comma := Consume(',');
      if comma {
        SkipWhitespaceAndComments();
        if error.Some? {
          return;
        }
      } else {
        var closed := Consume('}');
        if closed {
          events := events + [EndObject(memberCount)];
        } else {
          SetParseError(ObjectMissCommaOrCurlyBracket, pos);
        }
        return;
      }
      if opt.trailingCommas {
        if Peek(text, pos) == '}' {
          events := events + [EndObject(memberCount)];
          pos := pos + 1;
          return;
        }
      }
      more := true;
    }

    /** `Parse` with recursive descent. */
    method Parse()
      requires pos == 0
      modifies this
      ensures Went(old(events), R.Parse(text, opt))
    {
      hide Skip, R.ParseValue;
      error := None;
      SkipWhitespaceAndComments();
      if error.Some? {
        return;
      }
      if Peek(text, pos) == '\0' {
        SetParseError(DocumentEmpty, pos);
        return;
      }
      ParseValue();
      if error.Some? || opt.stopWhenDone {
        return;
      }
      SkipWhitespaceAndComments();
      if error.Some? {
        return;
      }
      if Peek(text, pos) != '\0' {
        SetParseError(DocumentRootNotSingular, pos);
      }
    }

    // ----- The table-driven loop -----

    /** `Transit`: the stream and the stack move towards the predicted state. */
    method Transit(src: State, dst: State) returns (next: State)
      requires Ready() && pos < |text| && Nested(src, stack)
      requires dst == Predict(src, Tokenize(text[pos]))
      modifies this`pos, this`events, this`error, this`stack
      ensures var turn := I.Transit(text, Config(src, old(pos), old(stack)), dst, opt);
              if turn.Stopped? then
                next.ErrorState? && error == turn.error && events == old(events) && (turn.error.None? ==> pos == old(pos))
              else
                && Ready() && Config(next, pos, stack) == turn.config && events == old(events) + turn.events
                && !next.ErrorState? && Nested(next, stack)
    {
      hide R.ParseString, R.ParseNumber, R.ParseObject, R.ParseArray, R.ParseLiteral;
      assert events + [] == events;
      match dst
      case ErrorState =>
        next := dst;
      case ObjectInitialState =>
        stack := stack + [Frame(Enclosing(src), 0)];
        events := events + [StartObject];
        pos := pos + 1;
        next := dst;
      case ArrayInitialState =>
        stack := stack + [Frame(Enclosing(src), 0)];
        events := events + [StartArray];
        pos := pos + 1;
        next := dst;
      case MemberKeyState =>
        StringFails(text, pos, true);
        ParseString(true);
        next := if error.Some? then ErrorState else dst;
      case KeyValueDelimiterState =>
        pos := pos + 1;
        next := dst;
      case MemberValueState =>
        next := TransitScalar(dst);
      case ElementState =>
        next := TransitScalar(dst);
      case MemberDelimiterState =>
        CountElement();
        next := dst;
      case ElementDelimiterState =>
        CountElement();
        next := dst;
      case ObjectFinishState =>
        if !opt.trailingCommas && src.MemberDelimiterState? {
          SetParseError(ObjectMissName, pos);
          return ErrorState;
        }
        next := LeaveContainer(src.MemberValueState?, true);
      case ArrayFinishState =>
        if !opt.trailingCommas && src.ElementDelimiterState? {
          SetParseError(ValueInvalid, pos);
          return ErrorState;
        }
        next := LeaveContainer(src.ElementState?, false);
      case ValueState =>
        next := TransitScalar(FinishState);
      case _ =>
        assert false;
    }

    /** A value that is not a container. */
    method TransitScalar(dst: State) returns (next: State)
      requires Ready() && Peek(text, pos) != '{' && Peek(text, pos) != '['
      modifies this`pos, this`events, this`error
      ensures var p := ParseScalar(text, old(pos), opt);
              Went(old(events), p) && next == (if p.error.Some? then ErrorState else dst)
      ensures next.ErrorState? && !dst.ErrorState? ==> events == old(events)
    {
      assert events + [] == events;
      hide R.ParseString, R.ParseNumber, R.ParseObject, R.ParseArray, R.ParseLiteral;
      ScalarFails(text, pos, opt);
      ParseValue();
      next := if error.Some? then ErrorState else dst;
    }

    /** A comma: the count on top of the stack goes up. */
    method CountElement()
      requires pos < |text| && stack != []
      modifies this`pos, this`stack
      ensures pos == old(pos) + 1
      ensures var n := |old(stack)| - 1;
              stack == old(stack)[..n] + [old(stack)[n].(count := old(stack)[n].count + 1)]
    {
      pos := pos + 1;
      var n := |stack| - 1;
      stack := stack[..n] + [stack[n].(count := stack[n].count + 1)];
    }

    /** The end of a container; `last` tells that its last element has not been counted. */
    method LeaveContainer(last: bool, isObject: bool) returns (next: State)
      requires pos < |text| && stack != []
      modifies this`pos, this`stack, this`events
      ensures var top := old(stack)[|old(stack)| - 1];
              var c := top.count + if last then 1 else 0;
              && next == Restored(top) && stack == old(stack)[..|old(stack)| - 1] && pos == old(pos) + 1
              && events == old(events) + [if isObject then EndObject(c) else EndArray(c)]
    {
      var n := |stack| - 1;
      var c := stack[n].count;
      if last {
        c := c + 1;
      }
      next := stack[n].state;
      if next.StartState? {
        next := FinishState;
      }
      stack := stack[..n];
      events := events + [if isObject then EndObject(c) else EndArray(c)];
      pos := pos + 1;
    }

    method HandleError(src: State)
      modifies this`error
      ensures error == if old(error).Some? then old(error) else Some(ParseError(I.HandleError(src), pos))
    {
      if error.Some? {
        return;
      }
      SetParseError(I.HandleError(src), pos);
    }

    /** `IterativeParse`. */
    method IterativeParse()
      requires pos == 0 && stack == []
      modifies this
      ensures Went(old(events), I.IterativeParse(text, opt))
      ensures stack == []
    {
      hide Skip, I.Transit, Run, Predict, Tokenize, Nested;
      error := None;
      var state := StartState;
      SkipWhitespaceAndComments();
      if error.Some? {
        return;
      }
      ghost var emitted: seq<Event> := [];
      AfterNothing(Run(text, Config(state, pos, stack), opt));
      StartNested();
      while Peek(text, pos) != '\0'
        invariant Ready() && Nested(state, stack) && events == old(events) + emitted
        invariant After(emitted, Run(text, Config(state, pos, stack), opt)) == I.IterativeParse(text, opt)
        decreases |text| - pos
      {
        ghost var c := Config(state, pos, stack);
        AfterTurn(text, c, opt, emitted);
        var n := Predict(state, Tokenize(text[pos]));
        var d := Transit(state, n);
        if d.ErrorState? {
          HandleError(state);
          stack := [];
          return;
        }
        emitted := emitted + I.Transit(text, c, n, opt).events;
        state := d;
        if opt.stopWhenDone && state.FinishState? {
          stack := [];
          return;
        }
        SkipWhitespaceAndComments();
        if error.Some? {
          stack := [];
          return;
        }
      }
      AtEnd(text, Config(state, pos, stack), opt);
      if !state.FinishState? {
        HandleError(state);
      }
      stack := [];
    }
  }

  lemma ControlPiece(s: string, i: nat)
    requires i <= |s| && Peek(s, i) < ' '
    ensures ParsePiece(s, i) == BadPiece(if Peek(s, i) == '\0' then StringMissQuotationMark else StringInvalidEncoding, i)
  {
  }

  lemma PlainPiece(s: string, i: nat)
    requires i <= |s| && Peek(s, i) >= ' ' && Peek(s, i) != '\\' && Peek(s, i) != '"'
    ensures i < |s| && ParsePiece(s, i) == Piece([s[i]], i + 1)
  {
  }

  /** Going on with the rest of a string after a piece, `str` having been read before. */
  lemma JoinPieces(s: string, i: nat, str: string)
    requires i <= |s| && Peek(s, i) != '"' && ParsePiece(s, i).Piece?
    ensures var first := ParsePiece(s, i);
            var whole, rest := ParseStringBody(s, i), ParseStringBody(s, first.pos);
            if rest.Bad? then whole == rest
            else whole.Piece? && str + whole.text == str + first.text + rest.text && whole.pos == rest.pos
  {
    hide ParsePiece;
  }
}
