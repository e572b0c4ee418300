/**
 JSON Pointer (RFC 6901): the string and the URI fragment representation, parsed
 into tokens and written back. Strings are sequences of UTF-8 code units.
 */
module Pointers {
  import opened Arithmetic
  import opened Encodings
  import opened Json
  import opened Texts

  /** A 32-bit SizeType; the largest value marks a token that is no index. */
  type SizeType = n: int | 0 <= n < 0x1_0000_0000

  const INVALID_INDEX: SizeType := 0xFFFF_FFFF

  datatype Token = Token(name: string, index: SizeType)

  datatype PointerParseError =
    | TokenMustBeginWithSolidus
    | InvalidEscape
    | InvalidPercentEncoding
    | CharacterMustPercentEncode

  datatype Result<+T> = Ok(value: T) | Err(error: PointerParseError, offset: nat)

  // ----- Indices -----

  /** The conversion loop: a sum that wraps below the number before it is taken as an overflow. */
  function IndexFrom(name: string, n: SizeType): SizeType
    requires AllDigits(name)
    decreases |name|
  {
    if name == "" then n
    else
      var m := (n * 10 + Digit(name[0])) % 0x1_0000_0000;
      if m < n then INVALID_INDEX else IndexFrom(name[1..], m)
  }

  /** Digits only, at least one, and no leading zero before others. */
  predicate IsNumeral(name: string) {
    name != "" && AllDigits(name) && (|name| > 1 ==> name[0] != '0')
  }

  function IndexOf(name: string): SizeType {
    if IsNumeral(name) then IndexFrom(name, 0) else INVALID_INDEX
  }

  function MakeToken(name: string): Token {
    Token(name, IndexOf(name))
  }

  /** The number of the first `k` digits, as it wraps in 32 bits. */
  function Wrapped(t: string, k: nat): (r: SizeType)
    requires k <= |t| && AllDigits(t)
  {
    Decimal(t[..k]) % 0x1_0000_0000
  }

  /** With some digit the wrapped number gets smaller. */
  predicate OverflowNoticed(t: string, from: nat)
    requires AllDigits(t)
  {
    exists k :: from <= k < |t| && Wrapped(t, k + 1) < Wrapped(t, k)
  }

  lemma NextWrapped(t: string, k: nat)
    requires k < |t| && AllDigits(t)
    ensures Wrapped(t, k + 1) == (Wrapped(t, k) * 10 + Digit(t[k])) % 0x1_0000_0000
  {
    hide Decimal;
    assert t[..k + 1] == t[..k] + [t[k]];
    DecimalLast(t[..k], t[k]);
    WrapFirst(Decimal(t[..k]), Digit(t[k]));
  }

  lemma WrapFirst(n: nat, d: nat)
    ensures (n % 0x1_0000_0000 * 10 + d) % 0x1_0000_0000 == (n * 10 + d) % 0x1_0000_0000
  {
    var q, r := n / 0x1_0000_0000, n % 0x1_0000_0000;
    assert n * 10 + d == r * 10 + d + (q * 10) * 0x1_0000_0000;
  }

  /** The conversion loop from its digit `k` on. */
  lemma {:induction false} IndexFromDigit(t: string, k: nat)
    requires k <= |t| && AllDigits(t) && AllDigits(t[k..])
    ensures IndexFrom(t[k..], Wrapped(t, k)) == if OverflowNoticed(t, k) then INVALID_INDEX else Wrapped(t, |t|)
    decreases |t| - k
  {
    hide Wrapped;
    if k < |t| {
      assert t[k..][1..] == t[k + 1..];
      NextWrapped(t, k);
      IndexFromDigit(t, k + 1);
      assert OverflowNoticed(t, k) <==> Wrapped(t, k + 1) < Wrapped(t, k) || OverflowNoticed(t, k + 1);
    }
  }

  lemma NoDigits()
    ensures AllDigits("") && Decimal("") == 0
  {
  }

  /**
   The index of every numeral: its value as it wraps in 32 bits, unless the
   wrapped value of some first digits is smaller than without the last of them.
   */
  lemma NumeralIndexIs(name: string)
    requires IsNumeral(name)
    ensures IndexOf(name) == if OverflowNoticed(name, 0) then INVALID_INDEX else Decimal(name) % 0x1_0000_0000
  {
    hide Decimal, OverflowNoticed;
    NoDigits();
    assert name[..0] == "" && name[0..] == name && name[..|name|] == name;
    IndexFromDigit(name, 0);
  }

  /** A numeral that fits 32 bits is never taken for an overflow. */
  lemma FittingIsNotNoticed(name: string)
    requires AllDigits(name) && Decimal(name) <= 0xFFFF_FFFF
    ensures !OverflowNoticed(name, 0)
  {
    hide Decimal;
    forall k | 0 <= k < |name|
      ensures Wrapped(name, k + 1) >= Wrapped(name, k)
    {
      PrefixDecimal(name, k + 1);
      assert name[..k + 1] == name[..k] + [name[k]];
      DecimalLast(name[..k], name[k]);
    }
  }

  lemma {:induction false} PrefixDecimal(t: string, k: nat)
    requires k <= |t| && AllDigits(t)
    ensures Decimal(t[..k]) <= Decimal(t)
    decreases |t|
  {
    if k == |t| {
      assert t[..k] == t;
    } else {
      PrefixDecimal(t[..|t| - 1], k);
      assert t[..|t| - 1][..k] == t[..k];
    }
  }

  /** A numeral's index is its value exactly if that fits; the largest value is the marker. */
  lemma NumeralIndex(name: string)
    requires IsNumeral(name)
    ensures IndexOf(name) == Decimal(name) <==> Decimal(name) <= 0xFFFF_FFFF
  {
    hide OverflowNoticed, Decimal;
    NumeralIndexIs(name);
    if Decimal(name) <= 0xFFFF_FFFF {
      FittingIsNotNoticed(name);
    }
  }

  /**
   A numeral that does not fit 32 bits is refused as an index if and only if the
   overflow is noticed at one of its digits, or its wrapped value is the marker.
   */
  lemma OversizedIsRefused(name: string)
    requires IsNumeral(name) && Decimal(name) > 0xFFFF_FFFF
    ensures IndexOf(name) == INVALID_INDEX <==> OverflowNoticed(name, 0) || Decimal(name) % 0x1_0000_0000 == 0xFFFF_FFFF
  {
    NumeralIndexIs(name);
  }

  /** Nothing but the array-index of RFC 6901, section 4, is an index: "0", or digits that do not begin with one. */
  lemma NotAnIndex(name: string)
    requires name == "" || (name[0] == '0' && name != "0") || exists k :: 0 <= k < |name| && !('0' <= name[k] <= '9')
    ensures IndexOf(name) == INVALID_INDEX
  {
    if |name| == 1 {
      assert name == [name[0]];
    }
  }

  /** 5 * 10^zeros. */
  function FiveAndZeros(zeros: nat): (t: string)
    ensures IsNumeral(t)
  {
    "5" + ZeroDigits(zeros)
  }

  function ZeroDigits(n: nat): (t: string)
    ensures |t| == n && AllDigits(t)
  {
    if n == 0 then "" else "0" + ZeroDigits(n - 1)
  }

  lemma ZeroStep(zeros: nat, n: SizeType)
    requires zeros > 0
    ensures var m := (n * 10) % 0x1_0000_0000;
            IndexFrom(ZeroDigits(zeros), n) == if m < n then INVALID_INDEX else IndexFrom(ZeroDigits(zeros - 1), m)
  {
    assert ZeroDigits(zeros)[0] == '0' && ZeroDigits(zeros)[1..] == ZeroDigits(zeros - 1);
  }

  /** So the overflow test is not a range check: 5000000000 wraps to an index of its own. */
  lemma WrappedIndex(zeros: nat)
    requires zeros == 9
    ensures IndexOf(FiveAndZeros(zeros)) == 705032704
  {
    hide IndexFrom, ZeroDigits;
    FirstFive(zeros);
    ZeroStep(zeros, 5);
    ZeroStep(zeros - 1, 50);
    ZeroStep(zeros - 2, 500);
    ZeroStep(zeros - 3, 5000);
    ZeroStep(zeros - 4, 50000);
    ZeroStep(zeros - 5, 500000);
    ZeroStep(zeros - 6, 5000000);
    ZeroStep(zeros - 7, 50000000);
    ZeroStep(zeros - 8, 500000000);
    NoZeros(zeros - 9, 705032704);
  }

  lemma FirstFive(zeros: nat)
    ensures IndexOf(FiveAndZeros(zeros)) == IndexFrom(ZeroDigits(zeros), 5)
  {
    assert FiveAndZeros(zeros)[1..] == ZeroDigits(zeros);
  }

  lemma NoZeros(zeros: nat, n: SizeType)
    requires zeros == 0
    ensures IndexFrom(ZeroDigits(zeros), n) == n
  {
  }

  // ----- Parsing -----

  predicate NeedPercentEncode(c: char) {
    !(('0' <= c <= '9') || ('A' <= c <= 'Z') || ('a' <= c <= 'z') || c == '-' || c == '.' || c == '_' || c == '~')
  }

  /** A percent triplet at `i`. */
  predicate IsTriplet(s: string, i: nat) {
    i + 3 <= |s| && s[i] == '%' && HexValue(s[i + 1]) >= 0 && HexValue(s[i + 2]) >= 0
  }

  function TripletByte(s: string, i: nat): byte
    requires IsTriplet(s, i)
  {
    HexValue(s[i + 1]) * 16 + HexValue(s[i + 2])
  }

  /** RFC 3986, section 2.1: two hexadecimal digits that denote the byte. */
  lemma TripletIs(s: string, i: nat)
    ensures IsTriplet(s, i) <==> i + 3 <= |s| && s[i] == '%' && IsHexadecimal(s[i + 1..i + 3])
    ensures IsTriplet(s, i) ==> TripletByte(s, i) == Hexadecimal(s[i + 1..i + 3])
  {
    if i + 3 <= |s| {
      assert s[i + 1..i + 3] == [s[i + 1], s[i + 2]];
      TwoDigits(s[i + 1], s[i + 2]);
    }
  }

  /** The bytes of the percent triplets that start at `i`. */
  function Triplets(s: string, i: nat): (r: seq<byte>)
    ensures i + 3 * |r| <= |s| || |r| == 0
    decreases |s| - i
  {
    if IsTriplet(s, i) then [TripletByte(s, i)] + Triplets(s, i + 3) else []
  }

  function FromBytes(bs: seq<byte>): (r: string)
    ensures |r| == |bs|
  {
    seq(|bs|, i requires 0 <= i < |bs| => bs[i] as char)
  }

  /** The code units of a name; a character that is none becomes a byte no UTF-8 text has. */
  function ToBytes(t: string): (r: seq<byte>)
    ensures |r| == |t|
  {
    seq(|t|, i requires 0 <= i < |t| => if t[i] as int < 0x100 then t[i] as int else 0xFF)
  }

  /** `~0` and `~1`: the character `c` has been read, and `j` is the next position. */
  function UnescapeAt(s: string, c: char, j: nat): Result<(string, nat)> {
    if c != '~' then Ok(([c], j))
    else if j < |s| && s[j] == '0' then Ok(("~", j + 1))
    else if j < |s| && s[j] == '1' then Ok(("/", j + 1))
    else Err(InvalidEscape, j)
  }

  /** One turn of the loop over a token's characters: what it appends to the name, and the next position. */
  function NamePiece(s: string, i: nat, fragment: bool): (r: Result<(string, nat)>)
    requires i < |s|
    ensures r.Ok? ==> i < r.value.1 <= |s| && 1 <= |r.value.0| <= r.value.1 - i
  {
    if fragment && s[i] == '%' then
      var bytes := Triplets(s, i);
      var d := DecodeUtf8(bytes);
      if bytes == [] || !d.ok then Err(InvalidPercentEncoding, i)
      else
        DecodeAcceptsOnly(bytes);
        if d.taken > 1 then Ok((FromBytes(bytes[..d.taken]), i + 3 * d.taken))
        else UnescapeAt(s, bytes[0] as char, i + 3)
    else if fragment && NeedPercentEncode(s[i]) then Err(CharacterMustPercentEncode, i)
    else UnescapeAt(s, s[i], i + 1)
  }

  /** The rest of a token's name from `i` on, and the position of the next solidus or the end. */
  function NameAt(s: string, i: nat, fragment: bool): (r: Result<(string, nat)>)
    requires i <= |s|
    ensures r.Ok? ==> i <= r.value.1 <= |s| && (r.value.1 < |s| ==> s[r.value.1] == '/')
    ensures r.Ok? ==> |r.value.0| <= r.value.1 - i
    decreases |s| - i
  {
    if i == |s| || s[i] == '/' then Ok(("", i))
    else
      var first := NamePiece(s, i, fragment);
      if first.Err? then Err(first.error, first.offset)
      else
        var rest := NameAt(s, first.value.1, fragment);
        if rest.Err? then rest else Ok((first.value.0 + rest.value.0, rest.value.1))
  }

  /** The tokens from the solidus at `i` on. */
  function TokensAt(s: string, i: nat, fragment: bool): Result<seq<Token>>
    requires i <= |s| && (i < |s| ==> s[i] == '/')
    decreases |s| - i
  {
    if i == |s| then Ok([])
    else
      var name := NameAt(s, i + 1, fragment);
      if name.Err? then Err(name.error, name.offset)
      else
        var rest := TokensAt(s, name.value.1, fragment);
        if rest.Err? then rest else Ok([MakeToken(name.value.0)] + rest.value)
  }

  /** `Parse`. */
  function Parse(s: string): Result<seq<Token>> {
    var fragment := s != "" && s[0] == '#';
    var i := if fragment then 1 else 0;
    if i < |s| && s[i] != '/' then Err(TokenMustBeginWithSolidus, i) else TokensAt(s, i, fragment)
  }

  // ----- What an error says -----

  /** A tilde, raw or encoded, ends at `o`. */
  predicate TildeBefore(s: string, o: nat, fragment: bool) {
    || (1 <= o <= |s| && s[o - 1] == '~')
    || (fragment && 3 <= o <= |s| && IsTriplet(s, o - 3) && TripletByte(s, o - 3) == 0x7E)
  }

  /** What is wrong with the text at the offset of an error. */
  predicate Fault(s: string, code: PointerParseError, o: nat, fragment: bool) {
    match code
    case TokenMustBeginWithSolidus => false
    case InvalidEscape => TildeBefore(s, o, fragment) && !(o < |s| && (s[o] == '0' || s[o] == '1'))
    case InvalidPercentEncoding => fragment && o < |s| && s[o] == '%' && (Triplets(s, o) == [] || !DecodeUtf8(Triplets(s, o)).ok)
    case CharacterMustPercentEncode => fragment && o < |s| && s[o] != '/' && s[o] != '%' && NeedPercentEncode(s[o])
  }

  lemma {:induction false} NameFault(s: string, i: nat, fragment: bool)
    requires i <= |s| && NameAt(s, i, fragment).Err?
    ensures var e := NameAt(s, i, fragment); i <= e.offset <= |s| && Fault(s, e.error, e.offset, fragment)
    decreases |s| - i
  {
    hide DecodeUtf8, NeedPercentEncode;
    var first := NamePiece(s, i, fragment);
    if first.Ok? {
      hide NamePiece, Triplets;
      NameFault(s, first.value.1, fragment);
    }
  }

  lemma {:induction false} TokensFault(s: string, i: nat, fragment: bool)
    requires i <= |s| && (i < |s| ==> s[i] == '/') && TokensAt(s, i, fragment).Err?
    ensures var e := TokensAt(s, i, fragment); i <= e.offset <= |s| && Fault(s, e.error, e.offset, fragment)
    decreases |s| - i
  {
    hide NameAt, MakeToken, Fault;
    if NameAt(s, i + 1, fragment).Err? {
      NameFault(s, i + 1, fragment);
    } else {
      TokensFault(s, NameAt(s, i + 1, fragment).value.1, fragment);
    }
  }

  /** The code and the offset of every error name what is wrong there. */
  lemma ParseFault(s: string)
    requires Parse(s).Err?
    ensures var e := Parse(s);
            var fragment := s != "" && s[0] == '#';
            var start := if fragment then 1 else 0;
            if start < |s| && s[start] != '/' then e == Err(TokenMustBeginWithSolidus, start)
            else start <= e.offset <= |s| && Fault(s, e.error, e.offset, fragment)
  {
    hide TokensAt, Fault;
    var start := if s != "" && s[0] == '#' then 1 else 0;
    if start == |s| || s[start] == '/' {
      TokensFault(s, start, start == 1);
    }
  }

  // ----- Writing -----

  function Percent(b: byte): string {
    ['%', HexDigit(b / 16), HexDigit(b % 16)]
  }

  /** A byte is written as two upper-case digits that denote it. */
  lemma PercentIs(b: byte)
    ensures var t := Percent(b);
            && |t| == 3 && t[0] == '%' && t[1] in UPPER_HEX && t[2] in UPPER_HEX
            && IsHexadecimal(t[1..]) && Hexadecimal(t[1..]) == b
  {
    var t := Percent(b);
    assert t[1..] == [t[1], t[2]];
    HexValues(b / 16, t[1]);
    HexValues(b % 16, t[2]);
    TwoDigits(t[1], t[2]);
    HexDigitValue(b / 16);
    HexDigitValue(b % 16);
  }

  function Percents(bs: seq<byte>): (r: string)
    ensures |r| == 3 * |bs|
  {
    if bs == [] then "" else Percent(bs[0]) + Percents(bs[1..])
  }

  /** The name's characters from the first on; none if a code unit starts no UTF-8 sequence. */
  function NameText(name: string, fragment: bool): Option<string>
    decreases |name|
  {
    if name == "" then Some("")
    else if name[0] == '~' then Prepend("~0", NameText(name[1..], fragment))
    else if name[0] == '/' then Prepend("~1", NameText(name[1..], fragment))
    else if fragment && NeedPercentEncode(name[0]) then
      var bytes := ToBytes(name);
      var d := DecodeUtf8(bytes);
      if !d.ok then None
      else
        DecodeAcceptsOnly(bytes);
        Prepend(Percents(bytes[..d.taken]), NameText(name[d.taken..], fragment))
    else Prepend([name[0]], NameText(name[1..], fragment))
  }

  function Prepend(t: string, rest: Option<string>): Option<string> {
    if rest.None? then None else Some(t + rest.value)
  }

  function TokensText(tokens: seq<Token>, fragment: bool): Option<string> {
    if tokens == [] then Some("")
    else
      var name := NameText(tokens[0].name, fragment);
      var rest := TokensText(tokens[1..], fragment);
      if name.None? || rest.None? then None else Some("/" + name.value + rest.value)
  }

  /** `Stringify`. */
  function Stringify(tokens: seq<Token>, fragment: bool): Option<string> {
    if fragment then Prepend("#", TokensText(tokens, true)) else TokensText(tokens, false)
  }

  // ----- What is parsed is written back -----

  lemma {:induction false} NameRewritten(s: string, i: nat)
    requires i <= |s| && NameAt(s, i, false).Ok?
    ensures var (name, end) := NameAt(s, i, false).value; NameText(name, false) == Some(s[i..end])
    decreases |s| - i
  {
    if i < |s| && s[i] != '/' {
      var (text, next) := NamePiece(s, i, false).value;
      NameRewritten(s, next);
      var (rest, end) := NameAt(s, next, false).value;
      assert (text + rest)[0] == text[0] && (text + rest)[1..] == rest;
      assert s[i..end] == s[i..next] + s[next..end];
      assert s[i..next] == if s[i] == '~' then ['~', s[i + 1]] else [s[i]];
    } else {
      assert s[i..i] == "";
    }
  }

  lemma {:induction false} TokensRewritten(s: string, i: nat)
    requires i <= |s| && (i < |s| ==> s[i] == '/') && TokensAt(s, i, false).Ok?
    ensures TokensText(TokensAt(s, i, false).value, false) == Some(s[i..])
    decreases |s| - i
  {
    if i == |s| {
      assert s[i..] == "";
    } else {
      hide NameAt, NameText, TokensText, IndexOf;
      var (name, end) := NameAt(s, i + 1, false).value;
      var rest := TokensAt(s, end, false).value;
      NameRewritten(s, i + 1);
      TokensRewritten(s, end);
      TextFirst(MakeToken(name), rest, false);
      SolidusFirst(s, i, end);
    }
  }

  lemma SolidusFirst(s: string, i: nat, end: nat)
    requires i < end <= |s| && s[i] == '/'
    ensures s[i..] == "/" + s[i + 1..end] + s[end..]
  {
  }

  lemma TextFirst(first: Token, rest: seq<Token>, fragment: bool)
    ensures var name, text := NameText(first.name, fragment), TokensText(rest, fragment);
            name.Some? && text.Some? ==> TokensText([first] + rest, fragment) == Some("/" + name.value + text.value)
  {
    assert ([first] + rest)[1..] == rest;
  }

  /** Writing the tokens of a string representation gives the string back. */
  lemma ParsedIsRewritten(s: string)
    requires Parse(s).Ok? && !(s != "" && s[0] == '#')
    ensures Stringify(Parse(s).value, false) == Some(s)
  {
    TokensRewritten(s, 0);
    assert s[0..] == s;
  }

  // ----- What an escape stands for -----

  /** The text with `sub` for each tilde that `second` follows, and that character. */
  function Replaced(t: string, second: char, sub: char): string
    decreases |t|
  {
    if t == "" then ""
    else if |t| >= 2 && t[0] == '~' && t[1] == second then [sub] + Replaced(t[2..], second, sub)
    else [t[0]] + Replaced(t[1..], second, sub)
  }

  lemma ReplacedFirst(c: char, t: string, second: char, sub: char)
    requires c != '~' || t == "" || t[0] != second
    ensures Replaced([c] + t, second, sub) == [c] + Replaced(t, second, sub)
  {
    assert ([c] + t)[1..] == t;
  }

  lemma ReplacedEscape(t: string, second: char, sub: char)
    ensures Replaced(['~', second] + t, second, sub) == [sub] + Replaced(t, second, sub)
  {
    assert (['~', second] + t)[2..] == t;
  }

  function Unescaped(t: string): string {
    Replaced(Replaced(t, '1', '/'), '0', '~')
  }

  lemma PieceUnescaped(piece: string, text: string, raw: string)
    requires (|piece| == 1 && piece[0] != '~' && text == piece) || (piece == "~1" && text == "/") || (piece == "~0" && text == "~")
    ensures Unescaped(piece + raw) == text + Unescaped(raw)
  {
    hide Replaced;
    var once := Replaced(raw, '1', '/');
    if piece[0] != '~' {
      assert piece == [piece[0]];
      ReplacedFirst(piece[0], raw, '1', '/');
      ReplacedFirst(piece[0], once, '0', '~');
    } else if piece == "~1" {
      assert piece == ['~', '1'];
      ReplacedEscape(raw, '1', '/');
      ReplacedFirst('/', once, '0', '~');
    } else {
      assert piece + raw == ['~'] + (['0'] + raw);
      ReplacedFirst('~', ['0'] + raw, '1', '/');
      ReplacedFirst('0', raw, '1', '/');
      assert ['~'] + (['0'] + once) == ['~', '0'] + once;
      ReplacedEscape(once, '0', '~');
    }
  }

  /** RFC 6901, section 4: a name is its text with `/` for `~1`, and then with `~` for `~0`. */
  lemma {:induction false} NameIsUnescaped(s: string, i: nat)
    requires i <= |s| && NameAt(s, i, false).Ok?
    ensures var (name, end) := NameAt(s, i, false).value; name == Unescaped(s[i..end])
    decreases |s| - i
  {
    if i < |s| && s[i] != '/' {
      hide Unescaped;
      var (text, next) := NamePiece(s, i, false).value;
      NameIsUnescaped(s, next);
      var end := NameAt(s, next, false).value.1;
      assert s[i..end] == s[i..next] + s[next..end];
      assert s[i..next] == if s[i] == '~' then [s[i], s[i + 1]] else [s[i]];
      PieceUnescaped(s[i..next], text, s[next..end]);
    } else {
      assert s[i..i] == "";
    }
  }

  const UPPER_CASE := "ABCDEFGHIJKLMNOPQRSTUVWXYZ"
  const LOWER_CASE := "abcdefghijklmnopqrstuvwxyz"

  lemma UpperCase(c: char)
    ensures c in UPPER_CASE <==> 'A' <= c <= 'Z'
  {
    assert forall k :: 0 <= k < 26 ==> UPPER_CASE[k] as int == 'A' as int + k;
    if 'A' <= c <= 'Z' {
      assert UPPER_CASE[c as int - 'A' as int] == c;
    }
  }

  lemma LowerCase(c: char)
    ensures c in LOWER_CASE <==> 'a' <= c <= 'z'
  {
    assert forall k :: 0 <= k < 26 ==> LOWER_CASE[k] as int == 'a' as int + k;
    if 'a' <= c <= 'z' {
      assert LOWER_CASE[c as int - 'a' as int] == c;
    }
  }

  /** RFC 3986, section 2.3: exactly the unreserved characters are written to a fragment as they are. */
  lemma UnreservedIsRaw(c: char)
    ensures NeedPercentEncode(c) <==> c !in UPPER_CASE && c !in LOWER_CASE && c !in DECIMALS && c !in "-._~"
  {
    UpperCase(c);
    LowerCase(c);
    DecimalDigits(c);
    hide UPPER_CASE, LOWER_CASE, DECIMALS;
  }

  // ----- What is written is parsed back -----

  /** Tokens as parsing makes them. */
  predicate Parsed(tokens: seq<Token>) {
    forall k :: 0 <= k < |tokens| ==> tokens[k].index == IndexOf(tokens[k].name)
  }

  lemma {:induction false} TripletsAt(s: string, i: nat, bs: seq<byte>)
    requires At(s, i, Percents(bs))
    ensures bs <= Triplets(s, i)
    decreases |bs|
  {
    if bs != [] {
      var first, rest := Percent(bs[0]), Percents(bs[1..]);
      AtConcat(s, i, first, rest);
      AtIndex(s, i, first, 0);
      AtIndex(s, i, first, 1);
      AtIndex(s, i, first, 2);
      HexDigitValue(bs[0] / 16);
      HexDigitValue(bs[0] % 16);
      TripletsAt(s, i + 3, bs[1..]);
      assert bs == [bs[0]] + bs[1..];
    }
  }

  lemma BytesBack(t: string, n: nat)
    requires n <= |t| && DecodeUtf8(ToBytes(t)).ok && DecodeUtf8(ToBytes(t)).taken == n
    ensures FromBytes(ToBytes(t)[..n]) == t[..n]
    ensures n == 1 ==> ToBytes(t)[0] as char == t[0]
  {
    var bytes := ToBytes(t);
    DecodeAcceptsOnly(bytes);
    assert forall k :: 0 <= k < n ==> bytes[..n][k] == bytes[k] != 0xFF;
    assert forall k :: 0 <= k < n ==> FromBytes(bytes[..n])[k] == t[k];
  }

  /** A percent-encoded character is decoded again. */
  lemma PercentPiece(s: string, i: nat, name: string)
    requires name != "" && NeedPercentEncode(name[0]) && DecodeUtf8(ToBytes(name)).ok
    requires var n := DecodeUtf8(ToBytes(name)).taken; n <= |name| && At(s, i, Percents(ToBytes(name)[..n]))
    ensures var n := DecodeUtf8(ToBytes(name)).taken;
            i < |s| && s[i] != '/' && NamePiece(s, i, true) == Ok((name[..n], i + 3 * n))
  {
    hide DecodeUtf8;
    var bytes := ToBytes(name);
    var n := DecodeUtf8(bytes).taken;
    DecodeAcceptsOnly(bytes);
    var bs := bytes[..n];
    TripletsAt(s, i, bs);
    var all := Triplets(s, i);
    assert all[..n] == bs;
    DecodeAcceptsAll(all, n);
    BytesBack(name, n);
    assert Percents(bs) == Percent(bs[0]) + Percents(bs[1..]);
    AtIndex(s, i, Percents(bs), 0);
    assert name[..1] == [name[0]];
  }

  /** What a name's text begins with, and the number of characters that it stands for. */
  function FirstText(name: string, fragment: bool): (r: (string, nat))
    requires name != "" && NameText(name, fragment).Some?
    ensures |r.0| > 0 && 0 < r.1 <= |name|
    ensures NameText(name[r.1..], fragment).Some?
    ensures fragment && NeedPercentEncode(name[0]) && name[0] != '/' ==> DecodeUtf8(ToBytes(name)).ok
    ensures NameText(name, fragment).value == r.0 + NameText(name[r.1..], fragment).value
  {
    if name[0] == '~' then ("~0", 1)
    else if name[0] == '/' then ("~1", 1)
    else if fragment && NeedPercentEncode(name[0]) then
      var bytes := ToBytes(name);
      DecodeAcceptsOnly(bytes);
      (Percents(bytes[..DecodeUtf8(bytes).taken]), DecodeUtf8(bytes).taken)
    else ([name[0]], 1)
  }

  /** The name's text, wherever it stands before a solidus or the end, is parsed into the name. */
  lemma {:induction false} NameReparsed(name: string, s: string, i: nat, fragment: bool)
    requires NameText(name, fragment).Some?
    requires var t := NameText(name, fragment).value; At(s, i, t) && (i + |t| < |s| ==> s[i + |t|] == '/')
    ensures NameAt(s, i, fragment) == Ok((name, i + |NameText(name, fragment).value|))
    decreases |name|
  {
    hide *;
    if name == "" {
      EmptyName(s, i, fragment);
    } else {
      var (t, n) := FirstText(name, fragment);
      var rest := name[n..];
      AtConcat(s, i, t, NameText(rest, fragment).value);
      PieceReparsed(name, s, i, fragment);
      NameReparsed(rest, s, i + |t|, fragment);
      NameGoesOn(s, i, fragment, name[..n], i + |t|);
      assert name == name[..n] + rest;
    }
  }

  lemma EmptyName(s: string, i: nat, fragment: bool)
    ensures NameText("", fragment) == Some("")
    ensures At(s, i, "") && (i < |s| ==> s[i] == '/') ==> NameAt(s, i, fragment) == Ok(("", i))
  {
  }

  lemma NameGoesOn(s: string, i: nat, fragment: bool, text: string, next: nat)
    requires i < |s| && s[i] != '/' && NamePiece(s, i, fragment) == Ok((text, next))
    ensures var rest := NameAt(s, next, fragment);
            rest.Ok? ==> NameAt(s, i, fragment) == Ok((text + rest.value.0, rest.value.1))
  {
    hide NamePiece;
  }

  lemma EscapedPiece(s: string, i: nat, c: char, fragment: bool)
    requires (c == '~' || c == '/') && At(s, i, if c == '~' then "~0" else "~1")
    ensures i < |s| && s[i] != '/' && NamePiece(s, i, fragment) == Ok(([c], i + 2))
  {
    var t := if c == '~' then "~0" else "~1";
    AtIndex(s, i, t, 0);
    AtIndex(s, i, t, 1);
  }

  lemma OrdinaryPiece(s: string, i: nat, c: char, fragment: bool)
    requires c != '~' && c != '/' && !(fragment && NeedPercentEncode(c)) && At(s, i, [c])
    ensures i < |s| && s[i] != '/' && NamePiece(s, i, fragment) == Ok(([c], i + 1))
  {
    AtIndex(s, i, [c], 0);
  }

  lemma PieceReparsed(name: string, s: string, i: nat, fragment: bool)
    requires name != "" && NameText(name, fragment).Some? && At(s, i, FirstText(name, fragment).0)
    ensures var (t, n) := FirstText(name, fragment);
            i < |s| && s[i] != '/' && NamePiece(s, i, fragment) == Ok((name[..n], i + |t|))
  {
    hide NameText, DecodeUtf8, Percents, NamePiece, At, NeedPercentEncode, ToBytes;
    FirstCharacter(name);
    if name[0] == '~' || name[0] == '/' {
      EscapedPiece(s, i, name[0], fragment);
    } else if fragment && NeedPercentEncode(name[0]) {
      DecodeAcceptsOnly(ToBytes(name));
      PercentPiece(s, i, name);
    } else {
      OrdinaryPiece(s, i, name[0], fragment);
    }
  }

  lemma FirstCharacter(name: string)
    requires name != ""
    ensures name[..1] == [name[0]]
  {
  }

  lemma {:induction false} TokensReparsed(tokens: seq<Token>, s: string, i: nat, fragment: bool)
    requires Parsed(tokens) && TokensText(tokens, fragment).Some?
    requires At(s, i, TokensText(tokens, fragment).value) && i + |TokensText(tokens, fragment).value| == |s|
    ensures (i < |s| ==> s[i] == '/') && TokensAt(s, i, fragment) == Ok(tokens)
    decreases |tokens|
  {
    hide *;
    if tokens == [] {
      NoTokens(s, fragment);
    } else {
      TokensFirst(tokens, fragment);
      var name, rest := NameText(tokens[0].name, fragment).value, TokensText(tokens[1..], fragment).value;
      AtThree(s, i, "/", name, rest);
      var end := i + 1 + |name|;
      TokensReparsed(tokens[1..], s, end, fragment);
      NameReparsed(tokens[0].name, s, i + 1, fragment);
      TokensGoOn(tokens, s, i, fragment, end);
    }
  }

  lemma NoTokens(s: string, fragment: bool)
    ensures TokensText([], fragment) == Some("") && TokensAt(s, |s|, fragment) == Ok([])
  {
  }

  lemma TokensFirst(tokens: seq<Token>, fragment: bool)
    requires tokens != [] && Parsed(tokens) && TokensText(tokens, fragment).Some?
    ensures Parsed(tokens[1..])
    ensures NameText(tokens[0].name, fragment).Some? && TokensText(tokens[1..], fragment).Some?
    ensures TokensText(tokens, fragment).value
         == "/" + NameText(tokens[0].name, fragment).value + TokensText(tokens[1..], fragment).value
  {
  }

  lemma TokensGoOn(tokens: seq<Token>, s: string, i: nat, fragment: bool, end: nat)
    requires tokens != [] && Parsed(tokens) && At(s, i, "/") && i < end <= |s| && (end < |s| ==> s[end] == '/')
    requires NameAt(s, i + 1, fragment) == Ok((tokens[0].name, end)) && TokensAt(s, end, fragment) == Ok(tokens[1..])
    ensures s[i] == '/' && TokensAt(s, i, fragment) == Ok(tokens)
  {
    hide NameAt, IndexOf;
    AtIndex(s, i, "/", 0);
    assert tokens == [MakeToken(tokens[0].name)] + tokens[1..];
  }

  /** Parsing what was written gives the tokens back, in either representation. */
  lemma WrittenIsReparsed(tokens: seq<Token>, fragment: bool)
    requires Parsed(tokens) && Stringify(tokens, fragment).Some?
    ensures Parse(Stringify(tokens, fragment).value) == Ok(tokens)
  {
    hide NameText;
    var s := Stringify(tokens, fragment).value;
    if fragment {
      assert s[1..|s|] == TokensText(tokens, true).value;
      TokensReparsed(tokens, s, 1, true);
    } else {
      assert s[0..|s|] == s;
      TokensReparsed(tokens, s, 0, false);
    }
  }

  /** The string representation never fails to be written. */
  lemma {:induction false} StringNeverFails(tokens: seq<Token>)
    ensures Stringify(tokens, false).Some?
  {
    if tokens != [] {
      NameNeverFails(tokens[0].name);
      StringNeverFails(tokens[1..]);
    }
  }

  lemma {:induction false} NameNeverFails(name: string)
    ensures NameText(name, false).Some?
    decreases |name|
  {
    if name != "" {
      NameNeverFails(name[1..]);
    }
  }

  lemma PrefixDecodes(bs: seq<byte>, t: string)
    requires IsUtf8Char(bs)
    ensures var d := DecodeUtf8(ToBytes(FromBytes(bs) + t)); d.ok && d.taken == |bs|
  {
    var all := ToBytes(FromBytes(bs) + t);
    assert forall k :: 0 <= k < |bs| ==> all[k] == bs[k];
    assert all[..|bs|] == bs;
    DecodeAcceptsAll(all, |bs|);
  }

  /** The name read from a fragment can be written to one. */
  lemma {:induction false} FragmentNameText(s: string, i: nat)
    requires i <= |s| && NameAt(s, i, true).Ok?
    ensures NameText(NameAt(s, i, true).value.0, true).Some?
    decreases |s| - i
  {
    if i < |s| && s[i] != '/' {
      hide DecodeUtf8, Triplets, NeedPercentEncode;
      var (text, next) := NamePiece(s, i, true).value;
      var rest := NameAt(s, next, true).value.0;
      FragmentNameText(s, next);
      FragmentPiece(s, i, rest);
      assert (text + rest)[|text|..] == rest;
    }
  }

  /** What one turn reads from a fragment is one ASCII character or one longer UTF-8 sequence. */
  lemma FragmentPiece(s: string, i: nat, rest: string)
    requires i < |s| && s[i] != '/' && NamePiece(s, i, true).Ok?
    ensures var text := NamePiece(s, i, true).value.0;
            && text != ""
            && (|text| > 1 ==> text[0] != '~' && text[0] != '/')
            && (NeedPercentEncode(text[0]) ==>
                  var d := DecodeUtf8(ToBytes(text + rest)); d.ok && d.taken == |text|)
            && (!NeedPercentEncode(text[0]) ==> |text| == 1)
  {
    var text := NamePiece(s, i, true).value.0;
    if |text| == 1 {
      PieceIsAscii(s, i);
      assert FromBytes([text[0] as int]) == text;
      PrefixDecodes([text[0] as int], rest);
    } else {
      var bytes := Triplets(s, i);
      hide Triplets, DecodeUtf8;
      DecodeAcceptsOnly(bytes);
      PrefixDecodes(bytes[..DecodeUtf8(bytes).taken], rest);
    }
  }

  lemma PieceIsAscii(s: string, i: nat)
    requires i < |s| && s[i] != '/' && NamePiece(s, i, true).Ok? && |NamePiece(s, i, true).value.0| == 1
    ensures NamePiece(s, i, true).value.0[0] as int < 0x80
  {
    hide DecodeUtf8, Triplets;
    if s[i] == '%' {
      DecodeAcceptsOnly(Triplets(s, i));
    }
  }

  lemma {:induction false} FragmentTokensText(s: string, i: nat)
    requires i <= |s| && (i < |s| ==> s[i] == '/') && TokensAt(s, i, true).Ok?
    ensures TokensText(TokensAt(s, i, true).value, true).Some? && Parsed(TokensAt(s, i, true).value)
    decreases |s| - i
  {
    if i < |s| {
      hide NameAt, NameText, TokensText, IndexOf;
      var (name, end) := NameAt(s, i + 1, true).value;
      FragmentNameText(s, i + 1);
      FragmentTokensText(s, end);
      TextFirst(MakeToken(name), TokensAt(s, end, true).value, true);
    }
  }

  /** The tokens of a fragment can be written as a fragment, which is parsed into the same tokens. */
  lemma FragmentRoundTrip(s: string)
    requires Parse(s).Ok? && s != "" && s[0] == '#'
    ensures var t := Stringify(Parse(s).value, true); t.Some? && Parse(t.value) == Parse(s)
  {
    hide TokensAt, TokensText;
    FragmentTokensText(s, 1);
    WrittenIsReparsed(Parse(s).value, true);
  }

  // ----- The class -----

  /** A token as it is stored: where its name begins in the name buffer, its length and its index. */
  datatype TokenEntry = TokenEntry(name: nat, length: nat, index: SizeType)

  function Solidi(s: string): nat {
    if s == "" then 0 else (if s[0] == '/' then 1 else 0) + Solidi(s[1..])
  }

  method CountSolidi(source: string) returns (count: nat)
    ensures count == Solidi(source)
  {
    count := 0;
    var i := 0;
    assert source[0..] == source;
    while i < |source|
      invariant 0 <= i <= |source| && count + Solidi(source[i..]) == Solidi(source)
    {
      assert source[i..][1..] == source[i + 1..];
      if source[i] == '/' {
        count := count + 1;
      }
      i := i + 1;
    }
  }

  class GenericPointer {
    /** As many characters as the source has. */
    const nameBuffer: array<char>
    /** As many tokens as the source has solidi. */
    const tokens: array<TokenEntry>
    var tokenCount: nat
    var parseErrorOffset: nat
    var parseErrorCode: Option<PointerParseError>

    ghost predicate InBuffer(count: nat, name: nat)
      reads tokens
    {
      && count <= tokens.Length && name <= nameBuffer.Length
      && forall k :: 0 <= k < count ==> tokens[k].name + tokens[k].length <= name
    }

    ghost function TokenAt(k: nat): Token
      requires k < tokens.Length && tokens[k].name + tokens[k].length <= nameBuffer.Length
      reads tokens, nameBuffer
    {
      Token(nameBuffer[tokens[k].name..tokens[k].name + tokens[k].length], tokens[k].index)
    }

    /** The first `count` tokens. */
    ghost function Tokens(count: nat): (r: seq<Token>)
      requires InBuffer(count, nameBuffer.Length)
      reads tokens, nameBuffer
      ensures |r| == count
    {
      seq(count, k requires 0 <= k < count && InBuffer(count, nameBuffer.Length) reads tokens, nameBuffer => TokenAt(k))
    }

    /**
     A percent-encoded UTF-8 sequence: its bytes are copied to the name buffer,
     where they fit even if they turn out not to be well-formed.
     */
    method ReadPercent(source: string, at: nat, from: nat) returns (len: nat)
      requires nameBuffer.Length == |source| && from < at < |source| && source[at] == '%' && parseErrorCode.None?
      modifies nameBuffer, this`parseErrorCode
      ensures forall k :: 0 <= k < from ==> nameBuffer[k] == old(nameBuffer[k])
      ensures var bytes := Triplets(source, at);
              if bytes == [] || !DecodeUtf8(bytes).ok then parseErrorCode == Some(InvalidPercentEncoding)
              else
                && parseErrorCode.None? && len == DecodeUtf8(bytes).taken <= |bytes| && from + len < at + 3 * len
                && nameBuffer[from..from + len] == FromBytes(bytes[..len])
    {
      hide DecodeUtf8, Triplets;
      var bytes := Triplets(source, at);
      var ok, copied := ValidateUtf8(bytes);
      len := |copied|;
      CopiedFits(source, at, copied);
      forall k | 0 <= k < len {
        nameBuffer[from + k] := copied[k] as char;
      }
      if ok && bytes != [] {
        DecodeAcceptsOnly(bytes);
        assert nameBuffer[from..from + len] == FromBytes(bytes[..len]);
      }
      if !ok || len > |bytes| {
        parseErrorCode := Some(InvalidPercentEncoding);
      }
    }

    /** `~0` and `~1`, after the tilde. */
    method ReadEscape(source: string, at: nat) returns (c: char, i: nat)
      requires at <= |source| && parseErrorCode.None?
      modifies this`parseErrorCode
      ensures var r := UnescapeAt(source, '~', at);
              if r.Err? then parseErrorCode == Some(r.error) && i == r.offset
              else parseErrorCode.None? && r.value == ([c], i) && i <= |source|
    {
      i, c := at, '~';
      if i < |source| {
        c := source[i];
        if c == '0' {
          c := '~';
        } else if c == '1' {
          c := '/';
        } else {
          parseErrorCode := Some(InvalidEscape);
          return;
        }
        i := i + 1;
      } else {
        parseErrorCode := Some(InvalidEscape);
      }
    }

    /** One turn of the loop over a token's characters; `isDigit` tells that it read a digit. */
    method ReadPiece(source: string, at: nat, from: nat, fragment: bool) returns (i: nat, name: nat, isDigit: bool)
      requires nameBuffer.Length == |source| && from < at < |source| && parseErrorCode.None?
      modifies nameBuffer, this`parseErrorCode
      ensures forall k :: 0 <= k < from ==> nameBuffer[k] == old(nameBuffer[k])
      ensures var piece := NamePiece(source, at, fragment);
              if piece.Err? then parseErrorCode == Some(piece.error) && i == piece.offset
              else
                && parseErrorCode.None? && i == piece.value.1 && name == from + |piece.value.0| < i
                && nameBuffer[from..name] == piece.value.0 && isDigit == AllDigits(piece.value.0)
    {
      hide DecodeUtf8, Triplets, NeedPercentEncode, AllDigits;
      i, name, isDigit := at, from, false;
      var c := source[i];
      if fragment {
        if c == '%' {
          var len := ReadPercent(source, i, from);
          if parseErrorCode.Some? {
            return;
          }
          DecodeAcceptsOnly(Triplets(source, at));
          i := i + 3 * len - 1;
          if len == 1 {
            c := nameBuffer[name];
            assert nameBuffer[from..from + 1][0] == c;
          } else {
            LongSequence(Triplets(source, at)[..len]);
            name := name + len;
            i := i + 1;
            return;
          }
        } else if NeedPercentEncode(c) {
          parseErrorCode := Some(CharacterMustPercentEncode);
          return;
        }
      }
      i := i + 1;
      if c == '~' {
        c, i := ReadEscape(source, i);
        if parseErrorCode.Some? {
          return;
        }
      }
      isDigit := '0' <= c <= '9';
      OneDigit(c);
      nameBuffer[name] := c;
      name := name + 1;
    }

    /** The loop over a token's characters; `isNumber` tells that all of them are digits. */
    method ReadName(source: string, at: nat, from: nat, fragment: bool) returns (i: nat, name: nat, isNumber: bool)
      requires nameBuffer.Length == |source| && from < at <= |source| && parseErrorCode.None?
      modifies nameBuffer, this`parseErrorCode
      ensures forall k :: 0 <= k < from ==> nameBuffer[k] == old(nameBuffer[k])
      ensures var whole := NameAt(source, at, fragment);
              if whole.Err? then parseErrorCode == Some(whole.error) && i == whole.offset
              else
                && parseErrorCode.None? && i == whole.value.1 && name == from + |whole.value.0| < i <= |source|
                && nameBuffer[from..name] == whole.value.0 && isNumber == AllDigits(whole.value.0)
    {
      hide NamePiece, NameAt, ReadSoFar, AllDigits;
      i, name, isNumber := at, from, true;
      assert nameBuffer[from..name] == "";
      assert AllDigits("") by { EmptyDigits(); }
      StartReading(source, at, fragment);
      while i < |source| && source[i] != '/'
        invariant from <= name < i <= |source| && parseErrorCode.None?
        invariant forall k :: 0 <= k < from ==> nameBuffer[k] == old(nameBuffer[k])
        invariant isNumber == AllDigits(nameBuffer[from..name])
        invariant ReadSoFar(source, at, i, nameBuffer[from..name], fragment)
        decreases |source| - i
      {
        ghost var before, start, here := nameBuffer[from..name], name, i;
        var isDigit;
        i, name, isDigit := ReadPiece(source, i, name, fragment);
        ReadMore(source, at, here, before, fragment);
        if parseErrorCode.Some? {
          return;
        }
        ghost var piece := nameBuffer[start..name];
        assert nameBuffer[from..start] == before;
        assert nameBuffer[from..name] == nameBuffer[from..start] + piece;
        DigitsJoined(before, piece);
        isNumber := isNumber && isDigit;
      }
      ReadAll(source, at, i, nameBuffer[from..name], fragment);
    }

    /** The conversion of a numeral's characters. */
    method ToIndex(from: nat, length: nat) returns (index: SizeType)
      requires from + length <= nameBuffer.Length && AllDigits(nameBuffer[from..from + length])
      ensures index == IndexFrom(nameBuffer[from..from + length], 0)
    {
      ghost var name := nameBuffer[from..from + length];
      assert name[0..] == name;
      var n: SizeType := 0;
      var j := 0;
      while j < length
        invariant 0 <= j <= length && IndexFrom(name[j..], n) == IndexFrom(name, 0)
      {
        assert name[j..][1..] == name[j + 1..] && name[j] == nameBuffer[from + j];
        var m: SizeType := (n * 10 + Digit(nameBuffer[from + j])) % 0x1_0000_0000;
        if m < n {
          return INVALID_INDEX;
        }
        n := m;
        j := j + 1;
      }
      return n;
    }

    /** Stores a token whose name has been read, and the index that its characters spell. */
    method StoreToken(token: nat, from: nat, length: nat, allDigits: bool)
      requires from + length <= nameBuffer.Length && token < tokens.Length
      requires allDigits == AllDigits(nameBuffer[from..from + length])
      modifies tokens
      ensures forall k :: 0 <= k < tokens.Length && k != token ==> tokens[k] == old(tokens[k])
      ensures tokens[token].name == from && tokens[token].length == length
      ensures TokenAt(token) == MakeToken(nameBuffer[from..from + length])
    {
      hide IndexFrom;
      var isNumber := allDigits;
      if length == 0 {
        isNumber := false;
      }
      assert length > 0 ==> nameBuffer[from..from + length][0] == nameBuffer[from];
      if isNumber && length > 1 && nameBuffer[from] == '0' {
        isNumber := false;
      }
      var index: SizeType := INVALID_INDEX;
      if isNumber {
        index := ToIndex(from, length);
      }
      tokens[token] := TokenEntry(from, length, index);
    }

    /** One token, after its solidus: its characters, the terminator and its entry. */
    method ReadToken(source: string, at: nat, from: nat, token: nat, fragment: bool) returns (i: nat, name: nat)
      requires nameBuffer.Length == |source| && from < at <= |source| && parseErrorCode.None?
      requires token < tokens.Length && InBuffer(token, from)
      modifies nameBuffer, tokens, this`parseErrorCode
      ensures var whole := NameAt(source, at, fragment);
              if whole.Err? then parseErrorCode == Some(whole.error) && i == whole.offset
              else
                && parseErrorCode.None? && i == whole.value.1 && from < name <= i
                && InBuffer(token + 1, name)
                && Tokens(token + 1) == old(Tokens(token)) + [MakeToken(whole.value.0)]
    {
      hide NameAt, MakeToken;
      ghost var before := Tokens(token);
      var isNumber;
      i, name, isNumber := ReadName(source, at, from, fragment);
      if parseErrorCode.Some? {
        return;
      }
      var length := name - from;
      ghost var text := nameBuffer[from..name];
      nameBuffer[name] := '\0';
      name := name + 1;
      assert nameBuffer[from..from + length] == text;
      StoreToken(token, from, length, isNumber);
      forall k | 0 <= k < token
        ensures TokenAt(k) == before[k]
      {
        assert nameBuffer[tokens[k].name..tokens[k].name + tokens[k].length]
            == old(nameBuffer[tokens[k].name..tokens[k].name + tokens[k].length]);
      }
    }

    constructor (source: string)
      ensures match Parse(source)
              case Ok(ts) => parseErrorCode.None? && InBuffer(tokenCount, |source|) && nameBuffer.Length == |source| && Tokens(tokenCount) == ts
              case Err(error, offset) => parseErrorCode == Some(error) && parseErrorOffset == offset && tokenCount == 0
    {
      var count := CountSolidi(source);
      nameBuffer := new char[|source|](_ => '\0');
      tokens := new TokenEntry[count](_ => TokenEntry(0, 0, INVALID_INDEX));
      tokenCount := count;
      parseErrorOffset, parseErrorCode := 0, None;
      new;
      ParseTokens(source);
    }

    /** `Parse`, once the buffers are there. */
    method ParseTokens(source: string)
      requires nameBuffer.Length == |source| && tokens.Length == tokenCount == Solidi(source) && parseErrorCode.None?
      modifies nameBuffer, tokens, this`parseErrorCode, this`parseErrorOffset, this`tokenCount
      ensures match Parse(source)
              case Ok(ts) => parseErrorCode.None? && InBuffer(tokenCount, |source|) && Tokens(tokenCount) == ts
              case Err(error, offset) => parseErrorCode == Some(error) && parseErrorOffset == offset && tokenCount == 0
    {
      hide NameAt, IndexOf;
      var i := 0;
      var uriFragment := false;
      if source != "" && source[0] == '#' {
        uriFragment := true;
        i := 1;
      }
      if i != |source| && source[i] != '/' {
        parseErrorCode := Some(TokenMustBeginWithSolidus);
        Fail(i);
        return;
      }
      var token: nat, name: nat := 0, 0;
      SolidiFrom(source, i);
      assert Tokens(0) == [];
      ParseFrom(source);
      while i < |source|
        invariant name <= i <= |source| && (i < |source| ==> source[i] == '/') && parseErrorCode.None?
        invariant token + Solidi(source[i..]) == Solidi(source) == tokens.Length == tokenCount
        invariant InBuffer(token, name)
        invariant var rest := TokensAt(source, i, uriFragment);
                  Parse(source) == if rest.Err? then rest else Ok(Tokens(token) + rest.value)
        decreases |source| - i
      {
        ghost var done, here := Tokens(token), i;
        SolidiAfter(source, i, uriFragment);
        i, name := ReadToken(source, i + 1, name, token, uriFragment);
        TokenRead(source, here, uriFragment, done);
        if parseErrorCode.Some? {
          Fail(i);
          return;
        }
        token := token + 1;
      }
      assert source[i..] == "";
      assert Tokens(token) + [] == Tokens(token);
    }

    method Fail(offset: nat)
      modifies this`tokenCount, this`parseErrorOffset
      ensures tokenCount == 0 && parseErrorOffset == offset
    {
      tokenCount := 0;
      parseErrorOffset := offset;
    }
  }

  /** The bytes that `Validate` copies stay inside the buffer, whether or not they are well-formed. */
  lemma CopiedFits(s: string, i: nat, copied: seq<byte>)
    requires i < |s| && |copied| == DecodeUtf8(Triplets(s, i)).taken
    ensures Triplets(s, i) == [] ==> |copied| == 1
    ensures i + (if Triplets(s, i) == [] then 0 else 3) <= |s|
    ensures |copied| <= 4
  {
  }

  /** The loop of a token has gone from `at` to `i` and read `name`. */
  ghost predicate ReadSoFar(s: string, at: nat, i: nat, name: string, fragment: bool)
    requires at <= |s| && i <= |s|
  {
    var whole, rest := NameAt(s, at, fragment), NameAt(s, i, fragment);
    whole == if rest.Err? then rest else Ok((name + rest.value.0, rest.value.1))
  }

  lemma OneDigit(c: char)
    ensures AllDigits([c]) <==> '0' <= c <= '9'
  {
    assert [c][0] == c;
  }

  /** The first byte of a longer sequence is no digit. */
  lemma LongSequence(bs: seq<byte>)
    requires IsUtf8Char(bs) && |bs| > 1
    ensures !AllDigits(FromBytes(bs))
  {
    assert FromBytes(bs)[0] as int >= 0x80;
  }

  lemma EmptyDigits()
    ensures AllDigits("")
  {
  }

  lemma ReadAll(s: string, at: nat, i: nat, name: string, fragment: bool)
    requires at <= |s| && i <= |s| && (i < |s| ==> s[i] == '/') && ReadSoFar(s, at, i, name, fragment)
    ensures NameAt(s, at, fragment) == Ok((name, i))
  {
    assert name + "" == name;
  }

  lemma StartReading(s: string, at: nat, fragment: bool)
    requires at <= |s|
    ensures ReadSoFar(s, at, at, "", fragment)
  {
    hide NameAt;
    var rest := NameAt(s, at, fragment);
    if rest.Ok? {
      assert "" + rest.value.0 == rest.value.0;
    }
  }

  /** Parsing reads tokens from the start, after the number sign of a fragment. */
  lemma ParseFrom(s: string)
    ensures var fragment := s != "" && s[0] == '#';
            var i := if fragment then 1 else 0;
            (i < |s| ==> s[i] == '/') ==>
              var rest := TokensAt(s, i, fragment);
              Parse(s) == if rest.Err? then rest else Ok([] + rest.value)
  {
    hide TokensAt;
    var fragment := s != "" && s[0] == '#';
    var i := if fragment then 1 else 0;
    if i == |s| || s[i] == '/' {
      var rest := TokensAt(s, i, fragment);
      if rest.Ok? {
        assert [] + rest.value == rest.value;
      }
    }
  }

  lemma ReadMore(s: string, at: nat, i: nat, name: string, fragment: bool)
    requires at <= |s| && i < |s| && s[i] != '/' && ReadSoFar(s, at, i, name, fragment)
    ensures var piece := NamePiece(s, i, fragment);
            if piece.Err? then NameAt(s, at, fragment) == Err(piece.error, piece.offset)
            else ReadSoFar(s, at, piece.value.1, name + piece.value.0, fragment)
  {
    hide NamePiece;
    var piece := NamePiece(s, i, fragment);
    if piece.Ok? {
      var rest := NameAt(s, piece.value.1, fragment);
      if rest.Ok? {
        assert name + piece.value.0 + rest.value.0 == name + (piece.value.0 + rest.value.0);
      }
    }
  }

  lemma DigitsJoined(a: string, b: string)
    ensures AllDigits(a + b) <==> AllDigits(a) && AllDigits(b)
  {
    if AllDigits(a + b) {
      assert forall k :: 0 <= k < |a| ==> a[k] == (a + b)[k];
      assert forall k :: 0 <= k < |b| ==> b[k] == (a + b)[|a| + k];
    }
  }

  lemma SolidiFrom(s: string, i: nat)
    requires i <= |s| && i <= 1 && (i == 1 ==> s[0] != '/')
    ensures Solidi(s[i..]) == Solidi(s)
  {
    assert i == 0 ==> s[i..] == s;
  }

  /** The solidus of a token is the only one up to the next token. */
  lemma {:induction false} SolidiAfter(s: string, i: nat, fragment: bool)
    requires i < |s| && s[i] == '/'
    ensures Solidi(s[i..]) >= 1
    ensures var name := NameAt(s, i + 1, fragment); name.Ok? ==> Solidi(s[i..]) == 1 + Solidi(s[name.value.1..])
  {
    assert s[i..][1..] == s[i + 1..];
    NoSolidi(s, i + 1, fragment);
  }

  lemma {:induction false} NoSolidi(s: string, i: nat, fragment: bool)
    requires i <= |s|
    ensures var name := NameAt(s, i, fragment); name.Ok? ==> Solidi(s[i..]) == Solidi(s[name.value.1..])
    decreases |s| - i
  {
    if i < |s| && s[i] != '/' {
      var piece := NamePiece(s, i, fragment);
      if piece.Ok? {
        PlainUpTo(s, i, fragment);
        SolidiSkip(s, i, piece.value.1);
        hide NamePiece;
        NoSolidi(s, piece.value.1, fragment);
      }
    }
  }

  lemma PlainUpTo(s: string, i: nat, fragment: bool)
    requires i < |s| && s[i] != '/' && NamePiece(s, i, fragment).Ok?
    ensures forall k :: i <= k < NamePiece(s, i, fragment).value.1 ==> s[k] != '/'
  {
    hide DecodeUtf8;
    if fragment && s[i] == '%' {
      var bytes := Triplets(s, i);
      DecodeAcceptsOnly(bytes);
      TripletsPlain(s, i, DecodeUtf8(bytes).taken);
    }
  }

  lemma {:induction false} TripletsPlain(s: string, i: nat, n: nat)
    requires n <= |Triplets(s, i)|
    ensures forall k :: i <= k < i + 3 * n ==> s[k] != '/'
    decreases n
  {
    if n > 0 {
      TripletsPlain(s, i + 3, n - 1);
    }
  }

  lemma {:induction false} SolidiSkip(s: string, i: nat, j: nat)
    requires i <= j <= |s| && forall k :: i <= k < j ==> s[k] != '/'
    ensures Solidi(s[i..]) == Solidi(s[j..])
    decreases j - i
  {
    if i < j {
      assert s[i..][1..] == s[i + 1..];
      SolidiSkip(s, i + 1, j);
    }
  }

  /** One turn of the loop over tokens. */
  lemma TokenRead(s: string, i: nat, fragment: bool, done: seq<Token>)
    requires i < |s| && s[i] == '/'
    ensures var name := NameAt(s, i + 1, fragment);
            var all := TokensAt(s, i, fragment);
            if name.Err? then all == Err(name.error, name.offset)
            else
              var rest := TokensAt(s, name.value.1, fragment);
              if rest.Err? then all == rest
              else all.Ok? && done + all.value == done + [MakeToken(name.value.0)] + rest.value
  {
    hide NameAt, IndexOf;
  }
}