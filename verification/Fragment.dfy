/**
 URI fragments by section 6 of RFC 6901: a fragment is percent-decoded, and the
 text so obtained is read as a string representation. The parser does not decode
 first; it decodes while it reads. This module says when the two agree.
 */
module Fragments {
  import opened Encodings
  import opened Json
  import opened Pointers
  import opened Texts

  // ----- Decoding first -----

  /** The percent-decoded code units from `i` on. */
  function PercentDecoded(s: string, i: nat): string
    decreases |s| - i
  {
    if i >= |s| then ""
    else if IsTriplet(s, i) then [TripletByte(s, i) as char] + PercentDecoded(s, i + 3)
    else [s[i]] + PercentDecoded(s, i + 1)
  }

  /** A text read as a string representation, also if it begins with a number sign. */
  function StringTokens(u: string): Result<seq<Token>> {
    if u != "" && u[0] != '/' then Err(TokenMustBeginWithSolidus, 0) else TokensAt(u, 0, false)
  }

  // ----- What a caller can look for -----

  /** UTF-8 text, by the productions of RFC 3629. */
  ghost predicate IsUtf8(bs: seq<byte>)
    decreases |bs|
  {
    bs == [] || exists n :: 1 <= n <= |bs| && IsUtf8Char(bs[..n]) && IsUtf8(bs[n..])
  }

  /** Each run of triplets from `i` on is UTF-8. */
  ghost predicate RunsAreUtf8(s: string, i: nat)
    decreases |s| - i
  {
    i >= |s| ||
    if IsTriplet(s, i) then
      IsUtf8(Triplets(s, i)) && RunsAreUtf8(s, i + 3 * |Triplets(s, i)|)
    else RunsAreUtf8(s, i + 1)
  }

  /** Each percent sign from `i` on begins a triplet. */
  predicate PercentsAreTriplets(s: string, i: nat) {
    forall k :: i <= k < |s| && s[k] == '%' ==> IsTriplet(s, k)
  }

  /** No triplet from `i` on stands for a solidus. */
  predicate NoEncodedSolidus(s: string, i: nat) {
    forall k :: i <= k < |s| && IsTriplet(s, k) ==> TripletByte(s, k) != 0x2F
  }

  /** The position after the character that begins at `k`. */
  function After(s: string, k: nat): nat {
    if IsTriplet(s, k) then k + 3 else k + 1
  }

  predicate IsTilde(s: string, k: nat)
    requires k < |s|
  {
    s[k] == '~' || (IsTriplet(s, k) && TripletByte(s, k) == 0x7E)
  }

  /** No tilde from `i` on, raw or encoded, has a percent sign after it. */
  predicate EscapesEndRaw(s: string, i: nat) {
    forall k :: i <= k < |s| && IsTilde(s, k) && After(s, k) < |s| ==> s[After(s, k)] != '%'
  }

  /** A raw character from `i` on, other than a solidus, is one that the parser does not want encoded. */
  predicate RawIsAllowed(s: string, i: nat) {
    forall k :: i <= k < |s| && s[k] != '/' && s[k] != '%' ==> !NeedPercentEncode(s[k])
  }

  /** All that holds of an accepted fragment from `i` on, without regard to the tokens. */
  ghost predicate Acceptable(s: string, i: nat) {
    PercentsAreTriplets(s, i) && EscapesEndRaw(s, i) && RawIsAllowed(s, i) && RunsAreUtf8(s, i)
  }

  // ----- Small facts -----

  lemma TripletsFirst(s: string, i: nat)
    requires IsTriplet(s, i)
    ensures var r := Triplets(s, i);
            r != [] && r[0] == TripletByte(s, i) && r[1..] == Triplets(s, i + 3) && i + 3 * |r| <= |s|
  {
  }

  /** The triplets after the first `n` of a run. */
  lemma {:induction false} TripletsSkip(s: string, i: nat, n: nat)
    requires n <= |Triplets(s, i)|
    ensures Triplets(s, i)[n..] == Triplets(s, i + 3 * n)
    ensures n > 0 ==> i + 3 * n <= |s|
    decreases n
  {
    if n > 0 {
      TripletsFirst(s, i);
      TripletsSkip(s, i + 3, n - 1);
      assert Triplets(s, i)[n..] == Triplets(s, i)[1..][n - 1..];
    }
  }

  /** The k-th triplet of a run. */
  lemma TripletInRun(s: string, i: nat, k: nat)
    requires k < |Triplets(s, i)|
    ensures IsTriplet(s, i + 3 * k) && TripletByte(s, i + 3 * k) == Triplets(s, i)[k]
  {
    TripletsSkip(s, i, k);
    assert Triplets(s, i)[k..][0] == Triplets(s, i)[k];
  }

  lemma FromFirstByte(bs: seq<byte>, n: nat)
    requires 0 < n <= |bs|
    ensures FromBytes(bs[..n]) == [bs[0] as char] + FromBytes(bs[1..][..n - 1])
  {
  }

  lemma {:induction false} DecodedRun(s: string, i: nat, n: nat)
    requires n <= |Triplets(s, i)|
    ensures PercentDecoded(s, i) == FromBytes(Triplets(s, i)[..n]) + PercentDecoded(s, i + 3 * n)
    decreases n
  {
    hide Triplets, FromBytes, TripletByte;
    if n > 0 {
      var bs := Triplets(s, i);
      TripletInRun(s, i, 0);
      TripletsFirst(s, i);
      DecodedRun(s, i + 3, n - 1);
      FromFirstByte(bs, n);
    }
  }

  /** UTF-8 text begins with one sequence, which the decoder takes, and goes on as UTF-8 text. */
  lemma Utf8First(bs: seq<byte>)
    requires bs != []
    ensures IsUtf8(bs) <==>
              var d := DecodeUtf8(bs); d.ok && d.taken <= |bs| && IsUtf8Char(bs[..d.taken]) && IsUtf8(bs[d.taken..])
  {
    hide DecodeUtf8, IsUtf8Char;
    if IsUtf8(bs) {
      var n :| 1 <= n <= |bs| && IsUtf8Char(bs[..n]) && IsUtf8(bs[n..]);
      DecodeAcceptsAll(bs, n);
    }
  }

  /** Runs from `i` on are UTF-8 if and only if the first triplets of a run are and the others of it. */
  lemma RunsFirst(s: string, i: nat, n: nat)
    requires IsTriplet(s, i) && DecodeUtf8(Triplets(s, i)).ok && DecodeUtf8(Triplets(s, i)).taken == n
    ensures n <= |Triplets(s, i)| && (RunsAreUtf8(s, i) <==> RunsAreUtf8(s, i + 3 * n))
  {
    hide DecodeUtf8, IsUtf8, IsUtf8Char, Triplets;
    TripletsFirst(s, i);
    var bs := Triplets(s, i);
    DecodeAcceptsOnly(bs);
    Utf8First(bs);
    TripletsSkip(s, i, n);
    if n < |bs| {
      TripletInRun(s, i, n);
    } else {
      assert IsUtf8([]) by { NothingIsUtf8(); }
    }
  }

  lemma NothingIsUtf8()
    ensures IsUtf8([])
  {
  }

  // ----- An acceptable fragment is read as its decoded text -----

  /** The text `u` from `m` on is what `s` from `i` on decodes to, and `s` is acceptable there. */
  ghost predicate Reads(s: string, i: nat, u: string, m: nat) {
    i <= |s| && m <= |u| && u[m..] == PercentDecoded(s, i) && Acceptable(s, i) && NoEncodedSolidus(s, i)
  }

  /** A character that is no triplet is read on both sides. */
  lemma ReadsRaw(s: string, i: nat, u: string, m: nat)
    requires Reads(s, i, u, m) && i < |s| && s[i] != '%'
    ensures m < |u| && u[m] == s[i] && Reads(s, i + 1, u, m + 1)
  {
    assert u[m..][0] == s[i] && u[m + 1..] == u[m..][1..];
  }

  /** The triplets of one UTF-8 sequence are read on one side and its bytes on the other. */
  lemma ReadsTriplets(s: string, i: nat, u: string, m: nat)
    requires Reads(s, i, u, m) && i < |s| && s[i] == '%'
    ensures var bs := Triplets(s, i);
            && bs != [] && DecodeUtf8(bs).ok
            && var n := DecodeUtf8(bs).taken;
            && n <= |bs| && IsUtf8Char(bs[..n]) && i + 3 * n <= |s| && m + n <= |u|
            && u[m..m + n] == FromBytes(bs[..n]) && Reads(s, i + 3 * n, u, m + n)
  {
    hide DecodeUtf8, IsUtf8Char, Triplets, FromBytes, IsUtf8, PercentDecoded, TripletByte;
    var bs := Triplets(s, i);
    TripletsFirst(s, i);
    Utf8First(bs);
    var n := DecodeUtf8(bs).taken;
    RunsFirst(s, i, n);
    DecodedRun(s, i, n);
    TripletsSkip(s, i, n);
    assert u[m..m + n] == u[m..][..n];
    assert u[m + n..] == u[m..][n..];
  }

  /** An escape reads alike on both sides, if its second character is raw. */
  lemma UnescapeAgrees(s: string, c: char, j: nat, u: string, m: nat)
    requires Reads(s, j, u, m) && (c == '~' && j < |s| ==> s[j] != '%')
    ensures var a, b := UnescapeAt(s, c, j), UnescapeAt(u, c, m);
            && (a.Ok? <==> b.Ok?)
            && (a.Ok? ==> a.value.0 == b.value.0 && Reads(s, a.value.1, u, b.value.1))
  {
    hide Acceptable, NoEncodedSolidus;
    if c == '~' {
      if j < |s| {
        ReadsRaw(s, j, u, m);
      } else {
        assert PercentDecoded(s, j) == "" && |u[m..]| == |u| - m;
      }
    }
  }

  /** A character of a string representation that is neither a tilde nor a solidus stands for itself. */
  lemma PlainCharacter(u: string, m: nat)
    requires m < |u| && u[m] != '~' && u[m] != '/'
    ensures var a, b := NameAt(u, m, false), NameAt(u, m + 1, false);
            && (a.Ok? <==> b.Ok?)
            && (a.Ok? ==> a.value == ([u[m]] + b.value.0, b.value.1))
  {
    assert NamePiece(u, m, false) == Ok(([u[m]], m + 1));
  }

  lemma {:induction false} PlainCharacters(u: string, m: nat, n: nat)
    requires m + n <= |u| && forall k :: m <= k < m + n ==> u[k] != '~' && u[k] != '/'
    ensures var a, b := NameAt(u, m, false), NameAt(u, m + n, false);
            && (a.Ok? <==> b.Ok?)
            && (a.Ok? ==> a.value == (u[m..m + n] + b.value.0, b.value.1))
    decreases n
  {
    hide NameAt;
    var b := NameAt(u, m + n, false);
    if n == 0 {
      assert b.Ok? ==> u[m..m] + b.value.0 == b.value.0;
    } else {
      PlainCharacter(u, m);
      PlainCharacters(u, m + 1, n - 1);
      assert u[m..m + n] == [u[m]] + u[m + 1..m + n];
      assert b.Ok? ==> [u[m]] + (u[m + 1..m + n] + b.value.0) == u[m..m + n] + b.value.0;
    }
  }

  /** One turn on the fragment: it fails with the other side, or both go on from corresponding positions. */
  ghost predicate PieceAgrees(s: string, i: nat, u: string, m: nat, m': nat)
    requires i < |s| && m <= |u|
  {
    var a, b := NamePiece(s, i, true), NameAt(u, m, false);
    if a.Err? then b.Err?
    else
      && Reads(s, a.value.1, u, m')
      && var c := NameAt(u, m', false);
      && (b.Ok? <==> c.Ok?)
      && (b.Ok? ==> b.value == (a.value.0 + c.value.0, c.value.1))
  }

  lemma CharacterAgrees(s: string, i: nat, c: char, j: nat, u: string, m: nat) returns (m': nat)
    requires Reads(s, j, u, m + 1) && (c == '~' && j < |s| ==> s[j] != '%')
    requires i < |s| && NamePiece(s, i, true) == UnescapeAt(s, c, j)
    requires m < |u| && u[m] == c && c != '/'
    ensures PieceAgrees(s, i, u, m, m')
  {
    hide Reads, NeedPercentEncode;
    UnescapeAgrees(s, c, j, u, m + 1);
    var a, b := NamePiece(s, i, true), UnescapeAt(u, c, m + 1);
    assert NamePiece(u, m, false) == b;
    hide UnescapeAt;
    hide NamePiece;
    m' := if b.Ok? then b.value.1 else m;
  }

  lemma PieceAgreement(s: string, i: nat, u: string, m: nat) returns (m': nat)
    requires Reads(s, i, u, m) && i < |s| && s[i] != '/'
    ensures PieceAgrees(s, i, u, m, m')
  {
    hide DecodeUtf8, Triplets, FromBytes, PercentDecoded, RunsAreUtf8, NeedPercentEncode, UnescapeAt;
    if s[i] == '%' {
      ReadsTriplets(s, i, u, m);
      TripletsFirst(s, i);
      var bs := Triplets(s, i);
      var n := DecodeUtf8(bs).taken;
      if n == 1 {
        SingleByte(s, i, u, m);
        m' := CharacterAgrees(s, i, bs[0] as char, i + 3, u, m);
      } else {
        LongBytes(bs[..n]);
        m' := m + n;
        forall k | m <= k < m + n
          ensures u[k] != '~' && u[k] != '/'
        {
          assert u[m..m + n][k - m] == u[k];
        }
        PlainCharacters(u, m, n);
      }
    } else {
      ReadsRaw(s, i, u, m);
      assert s[i] == '~' ==> IsTilde(s, i);
      m' := CharacterAgrees(s, i, s[i], i + 1, u, m);
    }
  }

  /** The bytes of a longer sequence are no ASCII characters. */
  lemma LongBytes(bs: seq<byte>)
    requires IsUtf8Char(bs) && |bs| > 1
    ensures forall k :: 0 <= k < |bs| ==> FromBytes(bs)[k] as int >= 0x80
  {
  }

  lemma SingleByte(s: string, i: nat, u: string, m: nat)
    requires Acceptable(s, i) && NoEncodedSolidus(s, i) && IsTriplet(s, i) && m < |u|
    requires u[m..m + 1] == FromBytes(Triplets(s, i)[..1])
    ensures var c := Triplets(s, i)[0] as char;
            u[m] == c && c != '/' && (c == '~' && i + 3 < |s| ==> s[i + 3] != '%')
  {
    TripletsFirst(s, i);
    assert u[m..m + 1][0] == u[m] && u[m] as int == TripletByte(s, i);
    assert u[m] == '~' ==> IsTilde(s, i);
  }

  /** A name reads alike. */
  lemma {:induction false} NameAgreement(s: string, i: nat, u: string, m: nat)
    requires Reads(s, i, u, m)
    ensures var a, b := NameAt(s, i, true), NameAt(u, m, false);
            && (a.Ok? <==> b.Ok?)
            && (a.Ok? ==> a.value.0 == b.value.0 && Reads(s, a.value.1, u, b.value.1))
    decreases |s| - i
  {
    hide NamePiece;
    if i == |s| {
      assert m == |u| by { assert PercentDecoded(s, i) == ""; }
    } else if s[i] == '/' {
      ReadsRaw(s, i, u, m);
    } else {
      hide Reads;
      var m' := PieceAgreement(s, i, u, m);
      var a := NamePiece(s, i, true);
      if a.Ok? {
        NameAgreement(s, a.value.1, u, m') by { assert Reads(s, a.value.1, u, m'); }
      }
    }
  }

  lemma {:induction false} TokensAgreement(s: string, i: nat, u: string, m: nat)
    requires Reads(s, i, u, m) && (i < |s| ==> s[i] == '/')
    ensures m < |u| ==> u[m] == '/'
    ensures var a, b := TokensAt(s, i, true), TokensAt(u, m, false);
            (a.Ok? <==> b.Ok?) && (a.Ok? ==> a == b)
    decreases |s| - i
  {
    hide NameAt, MakeToken;
    if i == |s| {
      assert m == |u| by { assert PercentDecoded(s, i) == ""; }
    } else {
      ReadsRaw(s, i, u, m);
      hide Reads;
      NameAgreement(s, i + 1, u, m + 1);
      var a := NameAt(s, i + 1, true);
      if a.Ok? {
        TokensAgreement(s, a.value.1, u, NameAt(u, m + 1, false).value.1);
      }
    }
  }

  // ----- What an accepted fragment looks like -----

  lemma HexDigitsArePlain(c: char)
    requires HexValue(c) >= 0
    ensures c != '%' && c != '/' && c != '~' && !NeedPercentEncode(c)
  {
  }

  /** A raw character before an acceptable rest. */
  lemma RawFirst(s: string, i: nat)
    requires i < |s| && s[i] != '%' && Acceptable(s, i + 1)
    requires s[i] == '/' || !NeedPercentEncode(s[i])
    requires s[i] == '~' && i + 1 < |s| ==> s[i + 1] != '%'
    ensures Acceptable(s, i)
  {
    hide NeedPercentEncode;
  }

  /** One triplet before an acceptable rest, runs aside. */
  lemma TripletFirst(s: string, i: nat)
    requires IsTriplet(s, i)
    requires PercentsAreTriplets(s, i + 3) && EscapesEndRaw(s, i + 3) && RawIsAllowed(s, i + 3)
    requires TripletByte(s, i) == 0x7E && i + 3 < |s| ==> s[i + 3] != '%'
    ensures PercentsAreTriplets(s, i) && EscapesEndRaw(s, i) && RawIsAllowed(s, i)
  {
    hide NeedPercentEncode, HexValue;
    HexDigitsArePlain(s[i + 1]);
    HexDigitsArePlain(s[i + 2]);
  }

  /** The triplets of a longer sequence before an acceptable rest, runs aside. */
  lemma {:induction false} LongSequenceFirst(s: string, i: nat, n: nat)
    requires n <= |Triplets(s, i)| && forall k :: 0 <= k < n ==> Triplets(s, i)[k] != 0x7E
    requires PercentsAreTriplets(s, i + 3 * n) && EscapesEndRaw(s, i + 3 * n) && RawIsAllowed(s, i + 3 * n)
    ensures PercentsAreTriplets(s, i) && EscapesEndRaw(s, i) && RawIsAllowed(s, i)
    decreases n
  {
    if n > 0 {
      hide Triplets, PercentsAreTriplets, EscapesEndRaw, RawIsAllowed;
      TripletInRun(s, i, 0);
      TripletsFirst(s, i);
      var bs := Triplets(s, i);
      assert forall k :: 0 <= k < n - 1 ==> bs[1..][k] == bs[k + 1];
      LongSequenceFirst(s, i + 3, n - 1);
      TripletFirst(s, i);
    }
  }

  lemma PieceIsAcceptable(s: string, i: nat)
    requires i < |s| && s[i] != '/' && NamePiece(s, i, true).Ok? && Acceptable(s, NamePiece(s, i, true).value.1)
    ensures Acceptable(s, i)
  {
    hide DecodeUtf8, Triplets, NeedPercentEncode, RunsAreUtf8, PercentsAreTriplets, EscapesEndRaw, RawIsAllowed;
    if s[i] == '%' {
      var bs := Triplets(s, i);
      var n := DecodeUtf8(bs).taken;
      DecodeAcceptsOnly(bs);
      TripletInRun(s, i, 0);
      if n == 1 {
        EscapedFirst(s, bs[0] as char, i + 3);
        TripletFirst(s, i);
      } else {
        assert forall k :: 0 <= k < n ==> bs[..n][k] == bs[k] >= 0x80;
        LongSequenceFirst(s, i, n);
      }
      RunsFirst(s, i, n);
    } else {
      EscapedFirst(s, s[i], i + 1);
      RawFirst(s, i);
    }
  }

  /** What an escape reads after its tilde is a raw digit. */
  lemma EscapedFirst(s: string, c: char, j: nat)
    requires UnescapeAt(s, c, j).Ok? && Acceptable(s, UnescapeAt(s, c, j).value.1)
    ensures Acceptable(s, j) && (c == '~' ==> j < |s| && s[j] != '%')
  {
    hide Acceptable;
    if c == '~' {
      RawFirst(s, j);
    }
  }

  lemma {:induction false} NameIsAcceptable(s: string, i: nat)
    requires i <= |s| && NameAt(s, i, true).Ok? && Acceptable(s, NameAt(s, i, true).value.1)
    ensures Acceptable(s, i)
    decreases |s| - i
  {
    hide NamePiece, Acceptable;
    if i < |s| && s[i] != '/' {
      NameIsAcceptable(s, NamePiece(s, i, true).value.1);
      PieceIsAcceptable(s, i);
    }
  }

  lemma NothingIsAcceptable(s: string)
    ensures Acceptable(s, |s|)
  {
  }

  lemma {:induction false} TokensAreAcceptable(s: string, i: nat)
    requires i <= |s| && (i < |s| ==> s[i] == '/') && TokensAt(s, i, true).Ok?
    ensures Acceptable(s, i)
    decreases |s| - i
  {
    hide NameAt, Acceptable, MakeToken;
    if i == |s| {
      NothingIsAcceptable(s);
    } else {
      TokensAreAcceptable(s, NameAt(s, i + 1, true).value.1);
      NameIsAcceptable(s, i + 1);
      RawFirst(s, i);
    }
  }

  // ----- An encoded solidus makes the decoded text have more tokens -----

  /** There is a token for each solidus. */
  lemma {:induction false} TokenCount(s: string, i: nat, fragment: bool)
    requires i <= |s| && (i < |s| ==> s[i] == '/') && TokensAt(s, i, fragment).Ok?
    ensures |TokensAt(s, i, fragment).value| == Solidi(s[i..])
    decreases |s| - i
  {
    hide NameAt, MakeToken;
    if i < |s| {
      SolidiAfter(s, i, fragment);
      TokenCount(s, NameAt(s, i + 1, fragment).value.1, fragment);
    }
  }

  lemma SolidiFirst(c: char, t: string)
    ensures Solidi([c] + t) == (if c == '/' then 1 else 0) + Solidi(t)
  {
    assert ([c] + t)[1..] == t;
  }

  /** Decoding keeps the solidi that are there; it adds none if and only if none is encoded. */
  lemma {:induction false} DecodedSolidi(s: string, i: nat)
    requires i <= |s|
    ensures Solidi(PercentDecoded(s, i)) >= Solidi(s[i..])
    ensures Solidi(PercentDecoded(s, i)) == Solidi(s[i..]) <==> NoEncodedSolidus(s, i)
    decreases |s| - i
  {
    hide Solidi, HexValue;
    if i == |s| {
      assert s[i..] == "" && PercentDecoded(s, i) == "";
    } else if IsTriplet(s, i) {
      HexDigitsArePlain(s[i + 1]);
      HexDigitsArePlain(s[i + 2]);
      SolidiSkip(s, i, i + 3);
      DecodedSolidi(s, i + 3);
      SolidiFirst(TripletByte(s, i) as char, PercentDecoded(s, i + 3));
      assert forall k :: k >= i && k < |s| && IsTriplet(s, k) ==> k == i || k >= i + 3;
    } else {
      DecodedSolidi(s, i + 1);
      SolidiFirst(s[i], PercentDecoded(s, i + 1));
      SolidiFirst(s[i], s[i + 1..]);
      assert s[i..] == [s[i]] + s[i + 1..];
    }
  }

  // ----- The theorem -----

  /**
   A fragment is parsed into the tokens of its decoded text if and only if that
   text is a valid string representation and the fragment has only well-formed
   triplets, only UTF-8 in its runs of triplets, no encoded solidus, no escape
   whose second character is encoded, and no raw character that the parser wants
   encoded.
   */
  lemma FragmentMeansItsDecodedText(s: string)
    requires s != "" && s[0] == '#'
    ensures var u := PercentDecoded(s, 1);
            Parse(s).Ok? && Parse(s) == StringTokens(u)
            <==>
            && StringTokens(u).Ok?
            && PercentsAreTriplets(s, 1) && RunsAreUtf8(s, 1) && NoEncodedSolidus(s, 1)
            && EscapesEndRaw(s, 1) && RawIsAllowed(s, 1)
  {
    hide TokensAt, RunsAreUtf8, PercentsAreTriplets, EscapesEndRaw, RawIsAllowed;
    var u := PercentDecoded(s, 1);
    assert u[0..] == u;
    if Acceptable(s, 1) && NoEncodedSolidus(s, 1) && (|s| > 1 ==> s[1] == '/') {
      TokensAgreement(s, 1, u, 0);
    }
    if Parse(s).Ok? && Parse(s) == StringTokens(u) {
      hide PercentDecoded;
      TokensAreAcceptable(s, 1);
      TokenCount(s, 1, true);
      TokenCount(u, 0, false);
      DecodedSolidi(s, 1);
    }
  }

  /** A fragment that is accepted has the tokens of its decoded text if and only if it encodes no solidus. */
  lemma AcceptedFragment(s: string)
    requires s != "" && s[0] == '#' && Parse(s).Ok?
    ensures Parse(s) == StringTokens(PercentDecoded(s, 1)) <==> NoEncodedSolidus(s, 1)
  {
    hide TokensAt, NoEncodedSolidus;
    FragmentMeansItsDecodedText(s);
    var u := PercentDecoded(s, 1);
    if NoEncodedSolidus(s, 1) {
      TokensAreAcceptable(s, 1);
      assert u[0..] == u;
      TokensAgreement(s, 1, u, 0);
    }
  }

  // ----- One fragment for each way to part from section 6 -----

  lemma EmptyToken(u: string, m: nat)
    requires m + 1 == |u| && u[m] == '/'
    ensures TokensAt(u, m, false) == Ok([MakeToken("")])
  {
    assert NameAt(u, m + 1, false) == Ok(("", m + 1)) && TokensAt(u, m + 1, false) == Ok([]);
    assert [MakeToken("")] + [] == [MakeToken("")];
  }

  /** A single token that is read in one turn. */
  lemma OneToken(s: string, i: nat, fragment: bool, name: string)
    requires i + 1 < |s| && s[i] == '/' && s[i + 1] != '/' && NamePiece(s, i + 1, fragment) == Ok((name, |s|))
    ensures TokensAt(s, i, fragment) == Ok([MakeToken(name)])
  {
    assert NameAt(s, |s|, fragment) == Ok(("", |s|)) && name + "" == name;
    assert NameAt(s, i + 1, fragment) == Ok((name, |s|)) && TokensAt(s, |s|, fragment) == Ok([]);
    assert [MakeToken(name)] + [] == [MakeToken(name)];
  }

  /** The fragment of an escape whose second character is encoded is refused. */
  lemma EncodedTilde(s: string)
    requires s == "#/%7E%31"
    ensures Parse(s) == Err(InvalidEscape, 5)
    ensures PercentDecoded(s, 1) == "/~1" && StringTokens("/~1") == Ok([MakeToken("/")])
  {
    assert HexValue('7') == 7 && HexValue('E') == 14 && HexValue('3') == 3 && HexValue('1') == 1;
    assert IsTriplet(s, 2) && IsTriplet(s, 5);
    var bytes := Triplets(s, 2);
    assert bytes[0] == 0x7E;
    DecodeIsByLead(bytes);
    assert NamePiece(s, 2, true) == UnescapeAt(s, '~', 5);
    assert NameAt(s, 2, true) == Err(InvalidEscape, 5);
    assert PercentDecoded(s, 8) == "" && PercentDecoded(s, 5) == "1" && PercentDecoded(s, 2) == "~1";
    OneToken("/~1", 0, false, "/");
  }

  /** The fragment of an encoded solidus has one token, where its decoded text has two. */
  lemma EncodedSolidus(s: string)
    requires s == "#/%2F"
    ensures Parse(s) == Ok([MakeToken("/")])
    ensures PercentDecoded(s, 1) == "//" && StringTokens("//") == Ok([MakeToken(""), MakeToken("")])
  {
    assert HexValue('2') == 2 && HexValue('F') == 15;
    assert IsTriplet(s, 2) && !IsTriplet(s, 5);
    var bytes := Triplets(s, 2);
    assert bytes[0] == 0x2F;
    DecodeIsByLead(bytes);
    OneToken(s, 1, true, "/");
    assert PercentDecoded(s, 5) == "" && PercentDecoded(s, 2) == "/";
    EmptyToken("//", 1);
    assert NameAt("//", 1, false) == Ok(("", 1)) && TokensAt("//", 0, false) == Ok([MakeToken("")] + [MakeToken("")]);
    assert [MakeToken("")] + [MakeToken("")] == [MakeToken(""), MakeToken("")];
  }

  /** The fragment of a raw exclamation mark, which RFC 3986 lets a fragment hold, is refused. */
  lemma RawReserved(s: string)
    requires s == "#/!"
    ensures Parse(s) == Err(CharacterMustPercentEncode, 2)
    ensures PercentDecoded(s, 1) == "/!" && StringTokens("/!") == Ok([MakeToken("!")])
  {
    assert NameAt(s, 2, true) == Err(CharacterMustPercentEncode, 2);
    assert PercentDecoded(s, 3) == "" && PercentDecoded(s, 2) == "!";
    OneToken("/!", 0, false, "!");
  }
}
