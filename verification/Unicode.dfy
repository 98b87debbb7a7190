/** `\u` escapes: UTF-16 code units in, UTF-8 bytes out. */
module Unicode {
  import opened Json
  import opened Text
  import opened Parse
  import opened RoundTrip

  /** Unicode scalar values other than zero, which a C string cannot hold. */
  predicate Scalar(c: nat) {
    0 < c < 0x11_0000 && !HighSurrogate(c) && !LowSurrogate(c)
  }

  /** Code units of a scalar value: section 2.1 of RFC 2781. */
  function Units(c: CodePoint): seq<nat> {
    if c < 0x1_0000 then [c]
    else [0xD800 + (c - 0x1_0000) / 0x400, 0xDC00 + (c - 0x1_0000) % 0x400]
  }

  /** Four hexadecimal digits, each of either case. */
  predicate HexFor(h: string, u: nat) {
    u < 0x1_0000 && |h| == 4 && LowerName(h) == Hex4(u)
  }

  /** One escape, or two for a surrogate pair. */
  predicate Escapes(e: string, c: CodePoint) {
    if c < 0x1_0000 then |e| == 6 && e[..2] == "\\u" && HexFor(e[2..], c)
    else
      && |e| == 12 && e[..2] == "\\u" && HexFor(e[2..6], Units(c)[0])
      && e[6..8] == "\\u" && HexFor(e[8..], Units(c)[1])
  }

  function Concat(es: seq<string>): string {
    if es == [] then "" else es[0] + Concat(es[1..])
  }

  function Utf8s(cs: seq<CodePoint>): string {
    if cs == [] then "" else Utf8(cs[0]) + Utf8s(cs[1..])
  }

  // ----- an independent reader of UTF-8

  predicate Continuation(c: char) {
    0x80 <= c as int < 0xC0
  }

  /** First character of a byte string read as in section 3 of RFC 3629, longer forms than needed excluded, and
      the rest. */
  function DecodeUtf8(s: string): Option<(nat, string)> {
    if s == [] then None
    else
      var b := s[0] as nat;
      if b < 0x80 then Some((b, s[1..]))
      else if 0xC0 <= b < 0xE0 && |s| >= 2 && Continuation(s[1]) then
        AtLeast(0x80, b % 0x20 * 0x40 + s[1] as nat % 0x40, s[2..])
      else if 0xE0 <= b < 0xF0 && |s| >= 3 && Continuation(s[1]) && Continuation(s[2]) then
        AtLeast(0x800, b % 0x10 * 0x1000 + s[1] as nat % 0x40 * 0x40 + s[2] as nat % 0x40, s[3..])
      else if 0xF0 <= b < 0xF8 && |s| >= 4 && Continuation(s[1]) && Continuation(s[2]) && Continuation(s[3]) then
        AtLeast(0x1_0000, b % 8 * 0x4_0000 + s[1] as nat % 0x40 * 0x1000 + s[2] as nat % 0x40 * 0x40 + s[3] as nat % 0x40, s[4..])
      else None
  }

  function AtLeast(low: nat, c: nat, rest: string): Option<(nat, string)> {
    if low <= c < 0x11_0000 then Some((c, rest)) else None
  }

  lemma DecodeTwo(a: nat, b: nat, rest: string)
    requires a < 0x20 && b < 0x40 && 0x80 <= a * 0x40 + b
    ensures DecodeUtf8([Byte(0xC0 + a), Byte(0x80 + b)] + rest) == Some((a * 0x40 + b, rest))
  {
    assert ([Byte(0xC0 + a), Byte(0x80 + b)] + rest)[2..] == rest;
  }

  lemma DecodeThree(a: nat, b: nat, c: nat, rest: string)
    requires a < 0x10 && b < 0x40 && c < 0x40 && 0x800 <= a * 0x1000 + b * 0x40 + c
    ensures DecodeUtf8([Byte(0xE0 + a), Byte(0x80 + b), Byte(0x80 + c)] + rest)
         == Some((a * 0x1000 + b * 0x40 + c, rest))
  {
    var s := [Byte(0xE0 + a), Byte(0x80 + b), Byte(0x80 + c)] + rest;
    assert s[3..] == rest;
    assert s[0] as nat == 0xE0 + a && s[1] as nat == 0x80 + b && s[2] as nat == 0x80 + c;
    assert (0xE0 + a) % 0x10 == a;
    Remainders(0, 0, b, c);
  }

  lemma DecodeFour(a: nat, b: nat, c: nat, d: nat, rest: string)
    requires a < 8 && b < 0x40 && c < 0x40 && d < 0x40 && 0x1_0000 <= a * 0x4_0000 + b * 0x1000 + c * 0x40 + d < 0x11_0000
    ensures DecodeUtf8([Byte(0xF0 + a), Byte(0x80 + b), Byte(0x80 + c), Byte(0x80 + d)] + rest)
         == Some((a * 0x4_0000 + b * 0x1000 + c * 0x40 + d, rest))
  {
    var s := [Byte(0xF0 + a), Byte(0x80 + b), Byte(0x80 + c), Byte(0x80 + d)] + rest;
    assert s[4..] == rest;
    assert s[0] as nat == 0xF0 + a && s[1] as nat == 0x80 + b && s[2] as nat == 0x80 + c && s[3] as nat == 0x80 + d;
    Remainders(a, b, c, d);
  }

  lemma Remainders(a: nat, b: nat, c: nat, d: nat)
    requires a < 8 && b < 0x40 && c < 0x40 && d < 0x40
    ensures (0xF0 + a) % 8 == a && (0x80 + b) % 0x40 == b && (0x80 + c) % 0x40 == c && (0x80 + d) % 0x40 == d
  {
  }

  lemma Utf8RoundTrip(c: CodePoint, rest: string)
    ensures DecodeUtf8(Utf8(c) + rest) == Some((c, rest))
  {
    if c < 0x80 {
      assert (Utf8(c) + rest)[1..] == rest;
    } else {
      hide DecodeUtf8;
      if c < 0x800 {
        DecodeTwo(c / 0x40, c % 0x40, rest);
      } else if c < 0x1_0000 {
        ThreeDigits(c);
        DecodeThree(c / 0x1000, c / 0x40 % 0x40, c % 0x40, rest);
      } else {
        FourDigits(c);
        DecodeFour(c / 0x4_0000, c / 0x1000 % 0x40, c / 0x40 % 0x40, c % 0x40, rest);
      }
    }
  }

  lemma ThreeDigits(c: nat)
    requires c < 0x1_0000
    ensures c / 0x1000 < 0x10
    ensures c / 0x1000 * 0x1000 + c / 0x40 % 0x40 * 0x40 + c % 0x40 == c
  {
  }

  lemma FourDigits(c: nat)
    requires c < 0x11_0000
    ensures c / 0x4_0000 < 8
    ensures c / 0x4_0000 * 0x4_0000 + c / 0x1000 % 0x40 * 0x1000 + c / 0x40 % 0x40 * 0x40 + c % 0x40 == c
  {
    var q := c / 0x40;
    var r := q / 0x40;
    assert r == c / 0x1000 && r / 0x40 == c / 0x4_0000;
    assert c == 0x40 * q + c % 0x40 && q == 0x40 * r + q % 0x40 && r == 0x40 * (r / 0x40) + r % 0x40;
  }

  /** Different sequences of code points give different bytes. */
  lemma {:induction false} Utf8sInjective(cs: seq<CodePoint>, ds: seq<CodePoint>)
    requires Utf8s(cs) == Utf8s(ds)
    ensures cs == ds
    decreases |cs|
  {
    if cs != [] { Utf8RoundTrip(cs[0], Utf8s(cs[1..])); }
    if ds != [] { Utf8RoundTrip(ds[0], Utf8s(ds[1..])); }
    if cs != [] && ds != [] {
      Utf8sInjective(cs[1..], ds[1..]);
      assert cs == [cs[0]] + cs[1..] && ds == [ds[0]] + ds[1..];
    }
  }

  // ----- surrogates

  /** Joining a surrogate pair as in section 2.2 of RFC 2781 undoes the split. */
  lemma SurrogatesRoundTrip(c: CodePoint)
    requires c >= 0x1_0000
    ensures HighSurrogate(Units(c)[0]) && LowSurrogate(Units(c)[1])
    ensures JoinSurrogates(Units(c)[0], Units(c)[1]) == c
  {
  }

  // ----- hexadecimal digits

  /** The digits are those of "0123456789abcdef" in either case, and no other character is one. */
  lemma HexValueIs(c: char, d: nat)
    ensures HexValue(c) == Some(d) <==> d < 16 && Lower(c) == "0123456789abcdef"[d]
    ensures d < 16 ==> HexChar(d) == "0123456789abcdef"[d]
  {
  }

  lemma HexDigits(n: nat, i: nat) returns (d: nat)
    requires n < 0x1_0000 && i < 4
    ensures d < 16 && Hex4(n)[i] == HexChar(d)
    ensures d == if i == 0 then n / 0x1000 else if i == 1 then n / 0x100 % 0x10 else if i == 2 then n / 0x10 % 0x10 else n % 0x10
  {
    d := if i == 0 then n / 0x1000 else if i == 1 then n / 0x100 % 0x10 else if i == 2 then n / 0x10 % 0x10 else n % 0x10;
  }

  lemma HexAt(h: string, u: nat, i: nat) returns (d: nat)
    requires HexFor(h, u) && i < 4
    ensures d < 16 && HexValue(h[i]) == Some(d)
    ensures d == if i == 0 then u / 0x1000 else if i == 1 then u / 0x100 % 0x10 else if i == 2 then u / 0x10 % 0x10 else u % 0x10
  {
    d := HexDigits(u, i);
    assert LowerName(h)[i] == Lower(h[i]);
    HexValueIs(h[i], d);
    hide HexValue, HexChar, Hex4, Lower;
  }

  lemma ParseHexFor(h: string, u: nat, rest: string)
    requires HexFor(h, u)
    ensures ParseHex4(h + rest) == u
  {
    var a := HexAt(h, u, 0);
    var b := HexAt(h, u, 1);
    var c := HexAt(h, u, 2);
    var d := HexAt(h, u, 3);
    Hex4Value(u);
    var s := h + rest;
    assert s[0] == h[0] && s[1] == h[1] && s[2] == h[2] && s[3] == h[3];
    hide HexValue, HexFor;
  }

  /** What is read as a number that is not 0 is such digits. */
  lemma HexParsed(s: string)
    requires ParseHex4(s) != 0
    ensures |s| >= 4 && HexFor(s[..4], ParseHex4(s))
  {
    hide *;
    var a, b, c, d := HexPieces(s);
    HexValueIs(s[0], a);
    HexValueIs(s[1], b);
    HexValueIs(s[2], c);
    HexValueIs(s[3], d);
    FourHex(a, b, c, d);
    HexForBy(s[..4], ParseHex4(s), a, b, c, d);
  }

  lemma HexPieces(s: string) returns (a: nat, b: nat, c: nat, d: nat)
    requires ParseHex4(s) != 0
    ensures |s| >= 4 && HexValue(s[0]) == Some(a) && HexValue(s[1]) == Some(b) && HexValue(s[2]) == Some(c) && HexValue(s[3]) == Some(d)
    ensures ParseHex4(s) == 0x1000 * a + 0x100 * b + 0x10 * c + d
  {
    a, b, c, d := HexValue(s[0]).value, HexValue(s[1]).value, HexValue(s[2]).value, HexValue(s[3]).value;
    hide HexValue;
  }

  lemma HexForBy(h: string, u: nat, a: nat, b: nat, c: nat, d: nat)
    requires |h| == 4 && a < 16 && b < 16 && c < 16 && d < 16 && u < 0x1_0000
    requires u / 0x1000 == a && u / 0x100 % 0x10 == b && u / 0x10 % 0x10 == c && u % 0x10 == d
    requires Lower(h[0]) == HexChar(a) && Lower(h[1]) == HexChar(b) && Lower(h[2]) == HexChar(c) && Lower(h[3]) == HexChar(d)
    ensures HexFor(h, u)
  {
    hide Lower, HexChar;
    assert LowerName(h) == [Lower(h[0]), Lower(h[1]), Lower(h[2]), Lower(h[3])];
  }

  lemma FourHex(a: nat, b: nat, c: nat, d: nat)
    requires a < 16 && b < 16 && c < 16 && d < 16
    ensures var u := 0x1000 * a + 0x100 * b + 0x10 * c + d;
      u < 0x1_0000 && u / 0x1000 == a && u / 0x100 % 0x10 == b && u / 0x10 % 0x10 == c && u % 0x10 == d
  {
    var u := 0x1000 * a + 0x100 * b + 0x10 * c + d;
    assert u / 0x10 == 0x100 * a + 0x10 * b + c && u / 0x100 == 0x10 * a + b;
  }

  // ----- the decoding loop on escapes

  /** An escape for a scalar value is read whatever follows it. */
  lemma ParseScalar(c: CodePoint, e: string, rest: string)
    requires Scalar(c) && Escapes(e, c)
    ensures |e| in {6, 12} && e[0] == '\\' && e[1] == 'u' && ParseUnicode(e + rest) == Some((c, |e|))
  {
    var b := e + rest;
    EscapeParts(e, c, rest);
    hide ParseHex4, HexFor;
    if c < 0x1_0000 {
      ParseHexFor(e[2..], c, rest);
    } else {
      SurrogatesRoundTrip(c);
      ParseHexFor(e[2..6], Units(c)[0], e[6..] + rest);
      ParseHexFor(e[8..], Units(c)[1], rest);
      hide JoinSurrogates, Units;
    }
  }

  lemma EscapeParts(e: string, c: CodePoint, rest: string)
    requires Escapes(e, c)
    ensures var b := e + rest;
      && |e| >= 6 && e[0] == '\\' && e[1] == 'u' && b[0] == '\\' && b[1] == 'u' && b[|e|..] == rest
      && if c < 0x1_0000 then b[2..] == e[2..] + rest
         else |e| == 12 && b[6] == '\\' && b[7] == 'u' && b[2..] == e[2..6] + (e[6..] + rest) && b[8..] == e[8..] + rest
  {
    hide HexFor, Units;
    assert e[..2][0] == e[0] && e[..2][1] == e[1];
    if c >= 0x1_0000 { assert e[6..8][0] == e[6] && e[6..8][1] == e[7]; }
  }

  ghost predicate Spelled(cs: seq<CodePoint>, es: seq<string>) {
    |es| == |cs| && forall i :: 0 <= i < |cs| ==> Scalar(cs[i]) && Escapes(es[i], cs[i])
  }

  lemma SpelledTail(cs: seq<CodePoint>, es: seq<string>)
    requires Spelled(cs, es) && cs != []
    ensures Spelled(cs[1..], es[1..]) && Scalar(cs[0]) && Escapes(es[0], cs[0])
  {
    hide Scalar, Escapes;
  }

  lemma {:induction false} UnescapeScalars(cs: seq<CodePoint>, es: seq<string>)
    requires Spelled(cs, es)
    ensures Unescape(Concat(es)) == Some(Utf8s(cs))
    decreases |cs|
  {
    if cs != [] {
      SpelledTail(cs, es);
      hide Spelled, Escapes, Scalar, ParseUnicode;
      ParseScalar(cs[0], es[0], Concat(es[1..]));
      UnescapeScalars(cs[1..], es[1..]);
      assert Concat(es)[|es[0]|..] == Concat(es[1..]);
    }
  }

  lemma HexPlain(h: string, u: nat)
    requires HexFor(h, u)
    ensures forall c :: c in h ==> PlainChar(c)
  {
    forall c | c in h ensures PlainChar(c) {
      var i :| 0 <= i < |h| && h[i] == c;
      var d := HexAt(h, u, i);
    }
  }

  lemma ScanUnit(e: string, u: nat, s: string)
    requires |e| == 6 && e[..2] == "\\u" && HexFor(e[2..], u)
    ensures ScanEnd(e + s) == match ScanEnd(s) case None => None case Some(n) => Some(n + 6)
  {
    assert e[..2][0] == e[0] && e[..2][1] == e[1] && (e + s)[2..] == e[2..] + s;
    HexPlain(e[2..], u);
    hide HexFor;
    ScanPlains(e[2..], s);
  }

  lemma ScanScalar(c: CodePoint, e: string, s: string)
    requires Escapes(e, c)
    ensures ScanEnd(e + s) == match ScanEnd(s) case None => None case Some(n) => Some(n + |e|)
  {
    hide *;
    EscapeHalves(e, c);
    if c < 0x1_0000 {
      ScanUnit(e, c, s);
    } else {
      ScanUnit(e[6..], Units(c)[1], s);
      ScanUnit(e[..6], Units(c)[0], e[6..] + s);
      Assoc(e[..6], e[6..], s);
    }
  }

  lemma EscapeHalves(e: string, c: CodePoint)
    requires Escapes(e, c)
    ensures c < 0x1_0000 ==> |e| == 6 && e[..2] == "\\u" && HexFor(e[2..], c)
    ensures c >= 0x1_0000 ==>
      && |e| == 12 && |Units(c)| == 2 && |e[..6]| == 6 && |e[6..]| == 6 && e[..6] + e[6..] == e
      && e[..6][..2] == "\\u" && HexFor(e[..6][2..], Units(c)[0])
      && e[6..][..2] == "\\u" && HexFor(e[6..][2..], Units(c)[1])
  {
    hide HexFor;
    if c >= 0x1_0000 {
      assert e[6..][..2] == e[6..8] && e[6..][2..] == e[8..] && e[..6][..2] == e[..2] && e[..6][2..] == e[2..6];
    }
  }

  lemma {:induction false} ScanScalars(cs: seq<CodePoint>, es: seq<string>, rest: string)
    requires Spelled(cs, es)
    ensures ScanEnd(Concat(es) + ("\"" + rest)) == Some(|Concat(es)|)
    decreases |cs|
  {
    hide *;
    var k := "\"" + rest;
    ConcatStep(es);
    if cs == [] {
      SpelledNone(es);
      ScanQuote(rest);
    } else {
      SpelledSome(cs, es);
      SpelledTail(cs, es);
      ScanScalars(cs[1..], es[1..], rest);
      Assoc(es[0], Concat(es[1..]), k);
      ScanScalar(cs[0], es[0], Concat(es[1..]) + k);
    }
  }

  lemma ConcatStep(es: seq<string>)
    ensures Concat(es) == if es == [] then "" else es[0] + Concat(es[1..])
  {
  }

  lemma SpelledNone(es: seq<string>)
    requires Spelled([], es)
    ensures es == []
  {
  }

  lemma SpelledSome(cs: seq<CodePoint>, es: seq<string>)
    requires Spelled(cs, es) && cs != []
    ensures es != []
  {
  }

  lemma ScanQuote(rest: string)
    ensures "" + ("\"" + rest) == "\"" + rest && ScanEnd("\"" + rest) == Some(0)
  {
  }

  /** A literal made of escapes for any scalar values, with hexadecimal digits of either case, parses to the
      concatenation of their UTF-8 encodings. */
  lemma EscapedLiteral(cs: seq<CodePoint>, es: seq<string>, rest: string)
    requires Spelled(cs, es)
    ensures ParseString("\"" + (Concat(es) + ("\"" + rest))) == Some((Utf8s(cs), rest))
  {
    var e, k := Concat(es), "\"" + rest;
    var s := "\"" + (e + k);
    LiteralParts(e, rest);
    ScanScalars(cs, es, rest);
    UnescapeScalars(cs, es);
    hide ScanEnd, Unescape, Concat, Utf8s;
  }

  lemma LiteralParts(e: string, rest: string)
    ensures var k := "\"" + rest;
      var s := "\"" + (e + k);
      && s[0] == '\"' && s[1..] == e + k && s[1..][..|e|] == e && s[1 + |e|..] == k && s[1..][|e|..] == k && k[0] == '\"' && k[1..] == rest
  {
  }
}
