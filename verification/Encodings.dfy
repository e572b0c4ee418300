/**
 UTF-8 and UTF-16 over code units, one code point at a time, and transcoding of
 whole strings. A stream that is taken from past its end yields 0.
 */
module Encodings {

  type byte = n: int | 0 <= n < 0x100

  /** A UTF-16 code unit. */
  type unit = n: int | 0 <= n < 0x1_0000

  predicate IsScalar(c: int) {
    0 <= c < 0xD800 || 0xE000 <= c <= 0x10FFFF
  }

  /** A Unicode scalar value. */
  type Scalar = c: int | 0 <= c < 0xD800 || 0xE000 <= c <= 0x10FFFF

  /** One decoding step: whether it succeeded, the code point, and the number of units taken. */
  datatype Decoded = Decoded(ok: bool, codepoint: int, taken: nat)

  // ----- UTF-8 -----

  /** `UTF8::Encode`, up to 0x10FFFF. */
  function EncodeUtf8(c: int): (r: seq<byte>)
    requires 0 <= c <= 0x10FFFF
    ensures 1 <= |r| <= 4
  {
    if c <= 0x7F then [c]
    else if c <= 0x7FF then [0xC0 + c / 64, 0x80 + c % 64]
    else if c <= 0xFFFF then [0xE0 + c / 4096, 0x80 + c / 64 % 64, 0x80 + c % 64]
    else [0xF0 + c / 262144, 0x80 + c / 4096 % 64, 0x80 + c / 64 % 64, 0x80 + c % 64]
  }

  /** The class of a byte: 0x10, 0x40 and 0x20 split the continuation bytes, so that a mask tests several classes. */
  function GetRange(c: byte): bv8 {
    if c < 0x80 then 0
    else if c < 0x90 then 0x10
    else if c < 0xA0 then 0x40
    else if c < 0xC0 then 0x20
    else if c < 0xC2 then 8
    else if c < 0xE0 then 2
    else if c == 0xE0 then 10
    else if c < 0xED then 3
    else if c == 0xED then 4
    else if c < 0xF0 then 3
    else if c == 0xF0 then 11
    else if c < 0xF4 then 6
    else if c == 0xF4 then 5
    else 8
  }

  predicate InClass(c: byte, mask: bv8) {
    GetRange(c) & mask != 0
  }

  const TAIL: bv8 := 0x70

  /** The masks for the bytes after a leading byte of that class; none if no sequence starts with it. */
  function TailMasks(kind: bv8): (r: seq<bv8>)
    ensures |r| <= 3
  {
    if kind == 2 then [TAIL]
    else if kind == 3 then [TAIL, TAIL]
    else if kind == 4 then [0x50, TAIL]
    else if kind == 5 then [0x10, TAIL, TAIL]
    else if kind == 6 then [TAIL, TAIL, TAIL]
    else if kind == 10 then [0x20, TAIL]
    else if kind == 11 then [0x60, TAIL, TAIL]
    else []
  }

  /** `(0xFF >> type) & c`, the code point bits of a leading byte. */
  function LeadBits(kind: bv8, c: byte): int {
    if kind == 2 then c % 64
    else if kind == 3 then c % 32
    else if kind == 4 then c % 16
    else if kind == 5 then c % 8
    else if kind == 6 then c % 4
    else 0
  }

  function Take(s: seq<byte>, i: nat): byte {
    if i < |s| then s[i] else 0
  }

  /** One tail byte: `RAPIDJSON_COPY` and `RAPIDJSON_TRANS`. */
  function DecodeStep(s: seq<byte>, mask: bv8, d: Decoded): Decoded {
    var c := Take(s, d.taken);
    Decoded(d.ok && InClass(c, mask), d.codepoint * 64 + c % 64, d.taken + 1)
  }

  /** `UTF8::Decode` after the leading byte: every tail byte is taken, whether or not it fits. */
  function DecodeTail(s: seq<byte>, masks: seq<bv8>, d: Decoded): (r: Decoded)
    ensures r.taken == d.taken + |masks|
    decreases |masks|
  {
    if masks == [] then d else DecodeTail(s, masks[1..], DecodeStep(s, masks[0], d))
  }

  function DecodeUtf8(s: seq<byte>): (r: Decoded)
    ensures 1 <= r.taken <= 4
  {
    var c := Take(s, 0);
    if c < 0x80 then Decoded(true, c, 1)
    else
      var masks := TailMasks(GetRange(c));
      if masks == [] then Decoded(false, 0, 1)
      else DecodeTail(s, masks, Decoded(true, LeadBits(GetRange(c), c), 1))
  }

  /** `UTF8::Validate`: the verdict and the bytes copied to the output. */
  method ValidateUtf8(s: seq<byte>) returns (ok: bool, copied: seq<byte>)
    ensures ok == DecodeUtf8(s).ok
    ensures |copied| == DecodeUtf8(s).taken
    ensures forall i :: 0 <= i < |copied| ==> copied[i] == Take(s, i)
  {
    var c := Take(s, 0);
    copied := [c];
    if c < 0x80 {
      return true, copied;
    }
    var masks := TailMasks(GetRange(c));
    if masks == [] {
      return false, copied;
    }
    ok := true;
    ghost var d := Decoded(true, LeadBits(GetRange(c), c), 1);
    for k := 0 to |masks|
      invariant |copied| == d.taken == k + 1 && ok == d.ok
      invariant forall i :: 0 <= i < |copied| ==> copied[i] == Take(s, i)
      invariant DecodeTail(s, masks[k..], d) == DecodeUtf8(s)
    {
      c := Take(s, k + 1);
      copied := copied + [c];
      ok := ok && InClass(c, masks[k]);
      d := DecodeStep(s, masks[k], d);
      assert masks[k..][1..] == masks[k + 1..];
    }
  }

  /** The productions UTF8-1 to UTF8-4 of RFC 3629, section 4. */
  predicate IsTail(c: byte) { 0x80 <= c <= 0xBF }

  predicate IsUtf8Char(s: seq<byte>) {
    || (|s| == 1 && s[0] <= 0x7F)
    || (|s| == 2 && 0xC2 <= s[0] <= 0xDF && IsTail(s[1]))
    || (|s| == 3 && IsTail(s[2]) &&
        (|| (s[0] == 0xE0 && 0xA0 <= s[1] <= 0xBF)
         || (0xE1 <= s[0] <= 0xEC && IsTail(s[1]))
         || (s[0] == 0xED && 0x80 <= s[1] <= 0x9F)
         || (0xEE <= s[0] <= 0xEF && IsTail(s[1]))))
    || (|s| == 4 && IsTail(s[2]) && IsTail(s[3]) &&
        (|| (s[0] == 0xF0 && 0x90 <= s[1] <= 0xBF)
         || (0xF1 <= s[0] <= 0xF3 && IsTail(s[1]))
         || (s[0] == 0xF4 && 0x80 <= s[1] <= 0x8F)))
  }

  lemma MaskMeaning(c: byte)
    ensures InClass(c, TAIL) <==> IsTail(c)
    ensures InClass(c, 0x50) <==> 0x80 <= c <= 0x9F
    ensures InClass(c, 0x10) <==> 0x80 <= c <= 0x8F
    ensures InClass(c, 0x20) <==> 0xA0 <= c <= 0xBF
    ensures InClass(c, 0x60) <==> 0x90 <= c <= 0xBF
  {
  }

  lemma DecodeOneTail(s: seq<byte>, m: bv8, d: Decoded)
    ensures DecodeTail(s, [m], d) == DecodeStep(s, m, d)
  {
    assert [m][1..] == [];
  }

  lemma DecodeTwoTails(s: seq<byte>, m: bv8, m': bv8, d: Decoded)
    ensures DecodeTail(s, [m, m'], d) == DecodeStep(s, m', DecodeStep(s, m, d))
  {
    assert [m, m'][1..] == [m'];
    DecodeOneTail(s, m', DecodeStep(s, m, d));
  }

  lemma DecodeThreeTails(s: seq<byte>, m: bv8, m': bv8, m'': bv8, d: Decoded)
    ensures DecodeTail(s, [m, m', m''], d) == DecodeStep(s, m'', DecodeStep(s, m', DecodeStep(s, m, d)))
  {
    assert [m, m', m''][1..] == [m', m''];
    DecodeTwoTails(s, m', m'', DecodeStep(s, m, d));
  }

  /** The decoder without its masks, by the leading byte. */
  function DecodeByLead(c: byte, c1: byte, c2: byte, c3: byte): Decoded {
    if c < 0x80 then Decoded(true, c, 1)
    else if c < 0xC2 || c > 0xF4 then Decoded(false, 0, 1)
    else if c < 0xE0 then Decoded(IsTail(c1), c % 64 * 64 + c1 % 64, 2)
    else if c < 0xF0 then
      Decoded((c == 0xE0 ==> c1 >= 0xA0) && (c == 0xED ==> c1 <= 0x9F) && IsTail(c1) && IsTail(c2),
              ((if c == 0xE0 then 0 else if c == 0xED then c % 16 else c % 32) * 64 + c1 % 64) * 64 + c2 % 64, 3)
    else
      Decoded((c == 0xF0 ==> c1 >= 0x90) && (c == 0xF4 ==> c1 <= 0x8F) && IsTail(c1) && IsTail(c2) && IsTail(c3),
              (((if c == 0xF0 then 0 else if c == 0xF4 then c % 8 else c % 4) * 64 + c1 % 64) * 64 + c2 % 64) * 64 + c3 % 64, 4)
  }

  lemma DecodeIsByLead(s: seq<byte>)
    ensures DecodeUtf8(s) == DecodeByLead(Take(s, 0), Take(s, 1), Take(s, 2), Take(s, 3))
  {
    var c := Take(s, 0);
    MaskMeaning(Take(s, 1));
    MaskMeaning(Take(s, 2));
    MaskMeaning(Take(s, 3));
    if c >= 0x80 && TailMasks(GetRange(c)) != [] {
      var ms, d := TailMasks(GetRange(c)), Decoded(true, LeadBits(GetRange(c), c), 1);
      if |ms| == 1 {
        DecodeOneTail(s, ms[0], d);
        assert ms == [ms[0]];
      } else if |ms| == 2 {
        DecodeTwoTails(s, ms[0], ms[1], d);
        assert ms == [ms[0], ms[1]];
      } else {
        DecodeThreeTails(s, ms[0], ms[1], ms[2], d);
        assert ms == [ms[0], ms[1], ms[2]];
      }
    }
  }

  lemma DecodeAcceptsOnly(s: seq<byte>)
    requires s != [] && DecodeUtf8(s).ok
    ensures DecodeUtf8(s).taken <= |s| && IsUtf8Char(s[..DecodeUtf8(s).taken])
  {
    DecodeIsByLead(s);
  }

  lemma DecodeAcceptsAll(s: seq<byte>, n: nat)
    requires n <= |s| && IsUtf8Char(s[..n])
    ensures DecodeUtf8(s).ok && DecodeUtf8(s).taken == n
  {
    DecodeIsByLead(s);
    assert s[..n][0] == s[0];
    assert n > 1 ==> s[..n][1] == s[1];
    assert n > 2 ==> s[..n][2] == s[2];
    assert n > 3 ==> s[..n][3] == s[3];
  }

  /** Decoding accepts exactly the well-formed sequences of RFC 3629 at the head of the stream. */
  lemma DecodeAccepts(s: seq<byte>)
    requires s != []
    ensures DecodeUtf8(s).ok <==> exists n :: 1 <= n <= |s| && IsUtf8Char(s[..n])
    ensures DecodeUtf8(s).ok ==> DecodeUtf8(s).taken <= |s| && IsUtf8Char(s[..DecodeUtf8(s).taken])
  {
    if DecodeUtf8(s).ok {
      DecodeAcceptsOnly(s);
    }
    if n :| 1 <= n <= |s| && IsUtf8Char(s[..n]) {
      DecodeAcceptsAll(s, n);
    }
  }

  /** Decoding inverts encoding, whatever follows. */
  lemma DecodeEncode(c: Scalar, rest: seq<byte>)
    ensures DecodeUtf8(EncodeUtf8(c) + rest) == Decoded(true, c, |EncodeUtf8(c)|)
  {
    var e, s := EncodeUtf8(c), EncodeUtf8(c) + rest;
    DecodeIsByLead(s);
    assert forall i :: 0 <= i < |e| ==> Take(s, i) == e[i];
    EncodeFitsLead(c, Take(s, 1), Take(s, 2), Take(s, 3));
  }

  /** A code point from its base-64 digits. */
  lemma Digits64(c: nat)
    ensures c == c / 64 * 64 + c % 64
    ensures c == (c / 4096 * 64 + c / 64 % 64) * 64 + c % 64
    ensures c == ((c / 262144 * 64 + c / 4096 % 64) * 64 + c / 64 % 64) * 64 + c % 64
  {
    assert c / 64 / 64 == c / 4096 && c / 4096 / 64 == c / 262144;
    assert c / 64 == c / 4096 * 64 + c / 64 % 64;
    assert c / 4096 == c / 262144 * 64 + c / 4096 % 64;
  }

  lemma EncodeFitsLead2(c: Scalar)
    requires 0x80 <= c <= 0x7FF
    ensures DecodeByLead(0xC0 + c / 64, 0x80 + c % 64, 0, 0) == Decoded(true, c, 2)
  {
    Digits64(c);
    assert (0xC0 + c / 64) % 64 == c / 64;
  }

  lemma EncodeFitsLead3(c: Scalar)
    requires 0x800 <= c <= 0xFFFF
    ensures DecodeByLead(0xE0 + c / 4096, 0x80 + c / 64 % 64, 0x80 + c % 64, 0) == Decoded(true, c, 3)
  {
    Digits64(c);
    LeadOfThree(c / 4096);
  }

  lemma EncodeFitsLead4(c: Scalar)
    requires 0x1_0000 <= c
    ensures DecodeByLead(0xF0 + c / 262144, 0x80 + c / 4096 % 64, 0x80 + c / 64 % 64, 0x80 + c % 64) == Decoded(true, c, 4)
  {
    Digits64(c);
    LeadOfFour(c / 262144);
  }

  lemma EncodeFitsLead(c: Scalar, c1: byte, c2: byte, c3: byte)
    requires var e := EncodeUtf8(c); (|e| > 1 ==> e[1] == c1) && (|e| > 2 ==> e[2] == c2) && (|e| > 3 ==> e[3] == c3)
    ensures DecodeByLead(EncodeUtf8(c)[0], c1, c2, c3) == Decoded(true, c, |EncodeUtf8(c)|)
  {
    if c <= 0x7F {
    } else if c <= 0x7FF {
      EncodeFitsLead2(c);
    } else if c <= 0xFFFF {
      EncodeFitsLead3(c);
    } else {
      EncodeFitsLead4(c);
    }
  }

  lemma LeadOfThree(q: nat)
    requires q < 16
    ensures (0xE0 + q) % 32 == q && (q == 13 ==> (0xE0 + q) % 16 == q)
  {
  }

  lemma LeadOfFour(q: nat)
    requires q <= 4
    ensures (0xF0 + q) % 8 == q && (q < 4 ==> (0xF0 + q) % 4 == q)
  {
  }

  /** The base-64 digits of a code point put together from them. */
  lemma DigitsOf(a: nat, b: nat, c: nat, d: nat)
    requires b < 64 && c < 64 && d < 64
    ensures var x := ((a * 64 + b) * 64 + c) * 64 + d;
            x / 262144 == a && x / 4096 % 64 == b && x / 64 % 64 == c && x % 64 == d
  {
    var x := ((a * 64 + b) * 64 + c) * 64 + d;
    assert x / 64 == (a * 64 + b) * 64 + c;
    assert x / 64 / 64 == a * 64 + b && x / 64 / 64 == x / 4096;
    assert x / 4096 / 64 == a && x / 4096 / 64 == x / 262144;
  }

  lemma TailBits(c: byte)
    requires IsTail(c)
    ensures c == 0x80 + c % 64
  {
  }

  lemma LeadFitsEncode2(c: byte, c1: byte)
    requires 0xC2 <= c < 0xE0 && IsTail(c1)
    ensures var x := c % 64 * 64 + c1 % 64;
            0x80 <= x <= 0x7FF && EncodeUtf8(x) == [c, c1]
  {
    TailBits(c1);
    DigitsOf(0, 0, c % 64, c1 % 64);
  }

  lemma LeadFitsEncode3(c: byte, c1: byte, c2: byte)
    requires 0xE0 <= c < 0xF0 && (c == 0xE0 ==> c1 >= 0xA0) && (c == 0xED ==> c1 <= 0x9F) && IsTail(c1) && IsTail(c2)
    ensures var x := ((c - 0xE0) * 64 + c1 % 64) * 64 + c2 % 64;
            0x800 <= x <= 0xFFFF && IsScalar(x) && EncodeUtf8(x) == [c, c1, c2]
  {
    TailBits(c1);
    TailBits(c2);
    DigitsOf(0, c - 0xE0, c1 % 64, c2 % 64);
  }

  lemma LeadFitsEncode4(c: byte, c1: byte, c2: byte, c3: byte)
    requires 0xF0 <= c <= 0xF4 && (c == 0xF0 ==> c1 >= 0x90) && (c == 0xF4 ==> c1 <= 0x8F)
    requires IsTail(c1) && IsTail(c2) && IsTail(c3)
    ensures var x := (((c - 0xF0) * 64 + c1 % 64) * 64 + c2 % 64) * 64 + c3 % 64;
            0x1_0000 <= x <= 0x10FFFF && EncodeUtf8(x) == [c, c1, c2, c3]
  {
    TailBits(c1);
    TailBits(c2);
    TailBits(c3);
    DigitsOf(c - 0xF0, c1 % 64, c2 % 64, c3 % 64);
  }

  lemma LeadFitsEncode(c: byte, c1: byte, c2: byte, c3: byte)
    requires DecodeByLead(c, c1, c2, c3).ok
    ensures var d := DecodeByLead(c, c1, c2, c3);
            IsScalar(d.codepoint) && EncodeUtf8(d.codepoint) == [c, c1, c2, c3][..d.taken]
  {
    if c < 0x80 {
    } else if c < 0xE0 {
      LeadFitsEncode2(c, c1);
    } else if c < 0xF0 {
      LeadOfThree(c - 0xE0);
      LeadFitsEncode3(c, c1, c2);
    } else {
      LeadOfFour(c - 0xF0);
      LeadFitsEncode4(c, c1, c2, c3);
    }
  }

  /** Encoding a scalar value gives a well-formed sequence. */
  lemma EncodeIsWellFormed(c: Scalar)
    ensures IsUtf8Char(EncodeUtf8(c))
  {
    DecodeEncode(c, []);
    assert EncodeUtf8(c) + [] == EncodeUtf8(c);
    DecodeAcceptsOnly(EncodeUtf8(c));
    assert EncodeUtf8(c)[..|EncodeUtf8(c)|] == EncodeUtf8(c);
  }

  /** Encoding inverts decoding, so the decoded value is scalar and the encoding is shortest. */
  lemma EncodeDecode(s: seq<byte>)
    requires s != [] && DecodeUtf8(s).ok
    ensures var d := DecodeUtf8(s);
            IsScalar(d.codepoint) && d.taken <= |s| && EncodeUtf8(d.codepoint) == s[..d.taken]
  {
    DecodeIsByLead(s);
    DecodeAcceptsOnly(s);
    LeadFitsEncode(Take(s, 0), Take(s, 1), Take(s, 2), Take(s, 3));
    assert [Take(s, 0), Take(s, 1), Take(s, 2), Take(s, 3)][..DecodeUtf8(s).taken] == s[..DecodeUtf8(s).taken];
  }

  /** RFC 3629, section 3: the bytes of a code point, by the bits that each of them carries. */
  predicate IsUtf8Of(s: seq<byte>, c: int) {
    || (|s| == 1 && c == s[0] && 0 <= c <= 0x7F)
    || (|s| == 2 && 0x80 <= c <= 0x7FF && IsTail(s[1]) && c == (s[0] as int - 0xC0) * 0x40 + (s[1] as int - 0x80))
    || (|s| == 3 && 0x800 <= c <= 0xFFFF && IsTail(s[1]) && IsTail(s[2])
        && c == (s[0] as int - 0xE0) * 0x1000 + (s[1] as int - 0x80) * 0x40 + (s[2] as int - 0x80))
    || (|s| == 4 && 0x1_0000 <= c <= 0x10FFFF && IsTail(s[1]) && IsTail(s[2]) && IsTail(s[3])
        && c == (s[0] as int - 0xF0) * 0x4_0000 + (s[1] as int - 0x80) * 0x1000 + (s[2] as int - 0x80) * 0x40 + (s[3] as int - 0x80))
  }

  /** What is encoded are the bytes of the code point, and there are no others. */
  lemma EncodeUtf8Is(c: int, s: seq<byte>)
    requires 0 <= c <= 0x10FFFF
    ensures IsUtf8Of(s, c) <==> s == EncodeUtf8(c)
  {
    Digits64(c);
    hide EncodeUtf8;
    if IsUtf8Of(s, c) {
      BytesAreEncoded(c, s);
    }
    if s == EncodeUtf8(c) {
      EncodedAreBytes(c);
    }
  }

  lemma EncodedAreBytes(c: int)
    requires 0 <= c <= 0x10FFFF
    ensures IsUtf8Of(EncodeUtf8(c), c)
  {
    Digits64(c);
  }

  lemma BytesAreEncoded(c: int, s: seq<byte>)
    requires IsUtf8Of(s, c)
    ensures s == EncodeUtf8(c)
  {
    if |s| == 2 {
      DigitsOf(0, 0, s[0] - 0xC0, s[1] - 0x80);
    } else if |s| == 3 {
      DigitsOf(0, s[0] - 0xE0, s[1] - 0x80, s[2] - 0x80);
    } else if |s| == 4 {
      DigitsOf(s[0] - 0xF0, s[1] - 0x80, s[2] - 0x80, s[3] - 0x80);
    }
  }

  /** The decoder takes exactly the bytes of a scalar value, and yields that value. */
  lemma DecodeUtf8Is(s: seq<byte>, n: nat, c: int)
    requires s != []
    ensures DecodeUtf8(s) == Decoded(true, c, n) <==> 1 <= n <= |s| && IsScalar(c) && IsUtf8Of(s[..n], c)
  {
    hide DecodeUtf8, EncodeUtf8, IsUtf8Of;
    if DecodeUtf8(s) == Decoded(true, c, n) {
      EncodeDecode(s);
      EncodeUtf8Is(c, s[..n]);
    }
    if 1 <= n <= |s| && IsScalar(c) && IsUtf8Of(s[..n], c) {
      EncodeUtf8Is(c, s[..n]);
      DecodeEncode(c, s[n..]);
      assert s[..n] + s[n..] == s;
    }
  }

  // ----- UTF-16 -----

  function EncodeUtf16(c: Scalar): (r: seq<unit>)
    ensures 1 <= |r| <= 2
  {
    if c <= 0xFFFF then [c] else [0xD800 + (c - 0x10000) / 1024, 0xDC00 + (c - 0x10000) % 1024]
  }

  function TakeUnit(s: seq<unit>, i: nat): unit {
    if i < |s| then s[i] else 0
  }

  function DecodeUtf16(s: seq<unit>): (r: Decoded)
    ensures 1 <= r.taken <= 2
  {
    var c := TakeUnit(s, 0);
    if c < 0xD800 || c > 0xDFFF then Decoded(true, c, 1)
    else if c <= 0xDBFF then
      var d := TakeUnit(s, 1);
      Decoded(0xDC00 <= d <= 0xDFFF, c % 1024 * 1024 + d % 1024 + 0x10000, 2)
    else Decoded(false, 0, 1)
  }

  lemma DecodeEncodeUtf16(c: Scalar, rest: seq<unit>)
    ensures DecodeUtf16(EncodeUtf16(c) + rest) == Decoded(true, c, |EncodeUtf16(c)|)
  {
    if c > 0xFFFF {
      var v := c - 0x10000;
      assert v == v / 1024 * 1024 + v % 1024 && 0 <= v / 1024 < 1024;
    }
  }

  lemma EncodeDecodeUtf16(s: seq<unit>)
    requires s != [] && DecodeUtf16(s).ok
    ensures var d := DecodeUtf16(s);
            IsScalar(d.codepoint) && d.taken <= |s| && EncodeUtf16(d.codepoint) == s[..d.taken]
  {
  }

  /** RFC 2781, section 2: the units of a scalar value, a surrogate pair beyond the basic plane. */
  predicate IsUtf16Of(w: seq<unit>, c: int) {
    || (|w| == 1 && c == w[0] && !(0xD800 <= c <= 0xDFFF))
    || (|w| == 2 && 0xD800 <= w[0] <= 0xDBFF && 0xDC00 <= w[1] <= 0xDFFF
        && c == 0x1_0000 + (w[0] as int - 0xD800) * 0x400 + (w[1] as int - 0xDC00))
  }

  /** What is encoded are the units of the scalar value, and there are no others. */
  lemma EncodeUtf16Is(c: Scalar, w: seq<unit>)
    ensures IsUtf16Of(w, c) <==> w == EncodeUtf16(c)
  {
    if c > 0xFFFF {
      var v := c - 0x1_0000;
      assert v == v / 1024 * 1024 + v % 1024 && 0 <= v / 1024 < 1024;
      if IsUtf16Of(w, c) {
        HalvesOf(w[0] - 0xD800, w[1] - 0xDC00);
      }
    }
  }

  lemma HalvesOf(high: nat, low: nat)
    requires low < 1024
    ensures (high * 0x400 + low) / 1024 == high && (high * 0x400 + low) % 1024 == low
  {
  }

  /** The decoder takes exactly the units of a scalar value, and yields that value. */
  lemma DecodeUtf16Is(s: seq<unit>, n: nat, c: int)
    requires s != []
    ensures DecodeUtf16(s) == Decoded(true, c, n) <==> 1 <= n <= |s| && IsUtf16Of(s[..n], c)
  {
    hide DecodeUtf16, EncodeUtf16;
    if DecodeUtf16(s) == Decoded(true, c, n) {
      EncodeDecodeUtf16(s);
      EncodeUtf16Is(c, s[..n]);
    }
    if 1 <= n <= |s| && IsUtf16Of(s[..n], c) {
      EncodeUtf16Is(c, s[..n]);
      DecodeEncodeUtf16(c, s[n..]);
      assert s[..n] + s[n..] == s;
    }
  }

  // ----- Transcoding whole strings -----

  /** A string of well-formed sequences: the encoding of some scalar values. */
  function EncodeAllUtf8(cs: seq<Scalar>): seq<byte> {
    if cs == [] then [] else EncodeUtf8(cs[0]) + EncodeAllUtf8(cs[1..])
  }

  function EncodeAllUtf16(cs: seq<Scalar>): seq<unit> {
    if cs == [] then [] else EncodeUtf16(cs[0]) + EncodeAllUtf16(cs[1..])
  }

  /** `Transcoder<UTF8, UTF16>::Transcode` until the input ends or a step fails. */
  method TranscodeToUtf16(s: seq<byte>) returns (ok: bool, out: seq<unit>, ghost cs: seq<Scalar>)
    ensures ok ==> s == EncodeAllUtf8(cs) && out == EncodeAllUtf16(cs)
    ensures !ok ==> forall ds :: s != EncodeAllUtf8(ds)
  {
    var i := 0;
    ok, out, cs := true, [], [];
    while i < |s| && ok
      invariant i <= |s|
      invariant s[..i] == EncodeAllUtf8(cs) && out == EncodeAllUtf16(cs)
      invariant !ok ==> forall ds :: s != EncodeAllUtf8(ds)
      decreases |s| - i, ok
    {
      var d := DecodeUtf8(s[i..]);
      if d.ok {
        EncodeDecode(s[i..]);
        out := out + EncodeUtf16(d.codepoint);
        assert s[..i + d.taken] == s[..i] + s[i..][..d.taken];
        AppendUtf8(cs, d.codepoint);
        AppendUtf16(cs, d.codepoint);
        cs := cs + [d.codepoint];
        i := i + d.taken;
      } else {
        forall ds: seq<Scalar>
          ensures s != EncodeAllUtf8(ds)
        {
          if s == EncodeAllUtf8(ds) {
            assert s == s[..i] + s[i..];
            StuckNowhere(cs, ds, s[i..]);
          }
        }
        ok := false;
      }
    }
    assert ok ==> s[..i] == s;
  }

  lemma {:induction false} AppendUtf8(cs: seq<Scalar>, c: Scalar)
    ensures EncodeAllUtf8(cs + [c]) == EncodeAllUtf8(cs) + EncodeUtf8(c)
  {
    if cs != [] {
      AppendUtf8(cs[1..], c);
      assert (cs + [c])[1..] == cs[1..] + [c];
    }
  }

  lemma {:induction false} AppendUtf16(cs: seq<Scalar>, c: Scalar)
    ensures EncodeAllUtf16(cs + [c]) == EncodeAllUtf16(cs) + EncodeUtf16(c)
  {
    if cs != [] {
      AppendUtf16(cs[1..], c);
      assert (cs + [c])[1..] == cs[1..] + [c];
    }
  }

  /** If a well-formed string starts with whole encodings, the next decoding step cannot fail. */
  lemma {:induction false} StuckNowhere(cs: seq<Scalar>, ds: seq<Scalar>, rest: seq<byte>)
    requires EncodeAllUtf8(cs) + rest == EncodeAllUtf8(ds) && rest != []
    ensures DecodeUtf8(rest).ok
  {
    if ds != [] {
      DecodeEncode(ds[0], EncodeAllUtf8(ds[1..]));
      if cs == [] {
        assert EncodeAllUtf8(cs) + rest == rest;
      } else {
        assert EncodeAllUtf8(cs) + rest == EncodeUtf8(cs[0]) + (EncodeAllUtf8(cs[1..]) + rest);
        DecodeEncode(cs[0], EncodeAllUtf8(cs[1..]) + rest);
        assert (EncodeAllUtf8(cs) + rest)[|EncodeUtf8(cs[0])|..] == EncodeAllUtf8(cs[1..]) + rest;
        assert EncodeAllUtf8(ds)[|EncodeUtf8(ds[0])|..] == EncodeAllUtf8(ds[1..]);
        StuckNowhere(cs[1..], ds[1..], rest);
      }
    }
  }

  /** `Transcoder<UTF16, UTF8>::Transcode` until the input ends or a step fails. */
  method TranscodeToUtf8(s: seq<unit>) returns (ok: bool, out: seq<byte>)
    ensures forall cs: seq<Scalar> :: s == EncodeAllUtf16(cs) ==> ok && out == EncodeAllUtf8(cs)
  {
    hide EncodeUtf8, EncodeUtf16, DecodeUtf16;
    var i := 0;
    ok, out := true, [];
    ghost var done: seq<Scalar> := [];
    while i < |s| && ok
      invariant i <= |s|
      invariant ok ==> s[..i] == EncodeAllUtf16(done) && out == EncodeAllUtf8(done)
      invariant !ok ==> forall cs :: s != EncodeAllUtf16(cs)
      decreases |s| - i, ok
    {
      var d := DecodeUtf16(s[i..]);
      if d.ok {
        EncodeDecodeUtf16(s[i..]);
        out := out + EncodeUtf8(d.codepoint);
        assert s[..i + d.taken] == s[..i] + s[i..][..d.taken];
        AppendUtf8(done, d.codepoint);
        AppendUtf16(done, d.codepoint);
        done := done + [d.codepoint];
        i := i + d.taken;
      } else {
        forall cs: seq<Scalar>
          ensures s != EncodeAllUtf16(cs)
        {
          if s == EncodeAllUtf16(cs) {
            assert s == s[..i] + s[i..];
            StuckNowhereUtf16(done, cs, s[i..]);
          }
        }
        ok := false;
      }
    }
    if ok {
      assert s[..i] == s;
      forall cs: seq<Scalar> | s == EncodeAllUtf16(cs)
        ensures EncodeAllUtf8(cs) == out
      {
        EncodeAllUtf16Injective(cs, done);
      }
    }
  }

  lemma {:induction false} StuckNowhereUtf16(cs: seq<Scalar>, ds: seq<Scalar>, rest: seq<unit>)
    requires EncodeAllUtf16(cs) + rest == EncodeAllUtf16(ds) && rest != []
    ensures DecodeUtf16(rest).ok
  {
    if ds != [] {
      DecodeEncodeUtf16(ds[0], EncodeAllUtf16(ds[1..]));
      if cs == [] {
        assert EncodeAllUtf16(cs) + rest == rest;
      } else {
        assert EncodeAllUtf16(cs) + rest == EncodeUtf16(cs[0]) + (EncodeAllUtf16(cs[1..]) + rest);
        DecodeEncodeUtf16(cs[0], EncodeAllUtf16(cs[1..]) + rest);
        assert (EncodeAllUtf16(cs) + rest)[|EncodeUtf16(cs[0])|..] == EncodeAllUtf16(cs[1..]) + rest;
        assert EncodeAllUtf16(ds)[|EncodeUtf16(ds[0])|..] == EncodeAllUtf16(ds[1..]);
        StuckNowhereUtf16(cs[1..], ds[1..], rest);
      }
    }
  }

  /** The UTF-16 form determines the scalar values. */
  lemma {:induction false} EncodeAllUtf16Injective(cs: seq<Scalar>, ds: seq<Scalar>)
    requires EncodeAllUtf16(cs) == EncodeAllUtf16(ds)
    ensures cs == ds
  {
    if cs != [] && ds != [] {
      DecodeEncodeUtf16(cs[0], EncodeAllUtf16(cs[1..]));
      DecodeEncodeUtf16(ds[0], EncodeAllUtf16(ds[1..]));
      assert EncodeAllUtf16(cs)[|EncodeUtf16(cs[0])|..] == EncodeAllUtf16(cs[1..]);
      assert EncodeAllUtf16(ds)[|EncodeUtf16(ds[0])|..] == EncodeAllUtf16(ds[1..]);
      EncodeAllUtf16Injective(cs[1..], ds[1..]);
      assert cs == [cs[0]] + cs[1..] && ds == [ds[0]] + ds[1..];
    }
  }

  /** Transcoding a string to UTF-16 and back is the identity on well-formed UTF-8, and fails on nothing else. */
  method RoundTrip(s: seq<byte>) returns (ok: bool, back: seq<byte>)
    ensures ok <==> exists cs: seq<Scalar> :: s == EncodeAllUtf8(cs)
    ensures ok ==> back == s
  {
    var there, wide, cs := TranscodeToUtf16(s);
    back := [];
    ok := there;
    if there {
      ok, back := TranscodeToUtf8(wide);
    }
  }
}
