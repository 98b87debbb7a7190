/** Printing and parsing again gives back the same tree and stops where the text ended. */
module RoundTrip {
  import opened Json
  import opened Numerals
  import opened Text
  import opened Parse

  // ----- white space

  ghost predicate Blank(w: string) {
    forall i :: 0 <= i < |w| ==> w[i] as int <= 32
  }

  predicate StartsSolid(s: string) {
    s != [] && s[0] as int > 32
  }

  lemma {:induction false} SkipBlank(w: string, s: string)
    requires Blank(w)
    ensures Skip(w + s) == Skip(s)
  {
    if w == [] {
      assert w + s == s;
    } else {
      assert (w + s)[1..] == w[1..] + s;
      SkipBlank(w[1..], s);
    }
  }

  lemma {:induction false} SkipTwice(s: string)
    ensures Skip(Skip(s)) == Skip(s)
  {
    if s != [] && s[0] as int <= 32 { SkipTwice(s[1..]); }
  }

  lemma ParseAfterSkip(s: string, t: string)
    requires Skip(s) == Skip(t)
    ensures ParseItems(s) == ParseItems(t)
    ensures ParseMembers(s) == ParseMembers(t)
  {
    hide Skip, ParseValue, ParseString;
    assert ParseMember(s) == ParseMember(t);
  }

  // ----- numbers

  /** Would `parse_number` read on after the text of `n`? */
  predicate Continues(n: int, rest: string) {
    || (StartsDigit(rest) && (n != 0 || rest[0] != '0'))
    || Starts(rest, 'e') || Starts(rest, 'E')
    || (Starts(rest, '.') && StartsDigit(rest[1..]))
  }

  lemma {:induction false} FirstDigit(n: nat)
    ensures IsDigit(Digits(n)[0]) && (Digits(n)[0] == '0' <==> n == 0)
  {
    if n >= 10 { FirstDigit(n / 10); }
  }

  lemma {:induction false} ReadDigitsShorter(s: string, acc: nat)
    ensures StartsDigit(s) ==> |ReadDigits(s, acc).1| < |s|
  {
  }

  lemma WholeRoundTrip(n: nat, rest: string)
    ensures var r := ParseWhole(Digits(n) + rest);
            if StartsDigit(rest) && (n != 0 || rest[0] != '0') then |r.1| < |rest| else r == (n, rest)
  {
    var s := Digits(n) + rest;
    FirstDigit(n);
    assert s[0] == Digits(n)[0];
    if n == 0 {
      assert Digits(0) == "0";
      assert s[1..] == rest;
      ReadDigitsShorter(rest, 0);
    } else {
      ReadDigitsOfDigits(n, 0, rest);
      ReadDigitsShorter(rest, n);
    }
  }

  /** Fraction and exponent read nothing exactly if neither starts here. */
  lemma NothingMore(whole: nat, rest: string)
    ensures var f := ParseFraction(rest, whole);
            var e := ParseExponent(f.2);
            if Starts(rest, 'e') || Starts(rest, 'E') || (Starts(rest, '.') && StartsDigit(rest[1..])) then |e.1| < |rest|
            else f == (whole, 0, rest) && e == (0, rest)
  {
    if Starts(rest, '.') { ReadDigitsShorter(rest[1..], whole); }
    hide ReadDigits;
  }

  lemma NotScaled(digits: nat)
    ensures Scaled(digits, 0) == digits
  {
    assert Power10(0) == 1;
  }

  lemma NumberStart(n: int, rest: string)
    ensures var s := IntText(n) + rest;
            && s != [] && (s[0] == '-' <==> n < 0) && (Starts(s, '-') || StartsDigit(s))
            && (if n < 0 then s[1..] else s) == Digits(if n < 0 then -n else n) + rest
  {
    FirstDigit(if n < 0 then -n else n);
    assert (IntText(n) + rest)[0] == IntText(n)[0];
  }

  /** The text of an integer parses to that integer, and the cursor stops at the rest,
      exactly when the rest does not continue the number. */
  lemma NumberRoundTrip(n: int, rest: string)
    ensures IntText(n) + rest != []
    ensures Starts(IntText(n) + rest, '-') || StartsDigit(IntText(n) + rest)
    ensures ParseNumber(IntText(n) + rest) == (Number(n), rest) <==> !Continues(n, rest)
  {
    var m: nat := if n < 0 then -n else n;
    var s := IntText(n) + rest;
    hide IntText, Digits, ParseWhole, Scaled, ReadDigits;
    NumberStart(n, rest);
    WholeRoundTrip(m, rest);
    NotScaled(m);
    var (whole, s1) := ParseWhole(Digits(m) + rest);
    NothingMore(whole, s1);
    hide ParseFraction, ParseExponent;
    var r := ParseNumber(s);
    if StartsDigit(rest) && (n != 0 || rest[0] != '0') {
      assert |r.1| < |rest|;
    }
  }

  // ----- strings

  lemma HexRoundTrip(d: nat)
    requires d < 16
    ensures HexValue(HexChar(d)) == Some(d)
  {
  }

  lemma Hex4Value(n: nat)
    requires n < 0x1_0000
    ensures 0x1000 * (n / 0x1000) + 0x100 * (n / 0x100 % 0x10) + 0x10 * (n / 0x10 % 0x10) + n % 0x10 == n
    ensures n / 0x1000 < 0x10
  {
    var a, c := n / 0x10, n / 0x100;
    assert c == a / 0x10 && n / 0x1000 == c / 0x10;
    assert n == 0x10 * a + n % 0x10 && a == 0x10 * c + a % 0x10 && c == 0x10 * (c / 0x10) + c % 0x10;
  }

  lemma Hex4RoundTrip(n: nat, rest: string)
    requires n < 0x1_0000
    ensures ParseHex4(Hex4(n) + rest) == n
  {
    Hex4Value(n);
    var a, b, c, d := n / 0x1000, n / 0x100 % 0x10, n / 0x10 % 0x10, n % 0x10;
    HexRoundTrip(a);
    HexRoundTrip(b);
    HexRoundTrip(c);
    HexRoundTrip(d);
    var s := Hex4(n) + rest;
    assert s[0] == HexChar(a) && s[1] == HexChar(b) && s[2] == HexChar(c) && s[3] == HexChar(d);
    hide HexChar, HexValue;
  }

  lemma UnescapePlain(c: char, rest: string)
    requires c != '\0' && !NeedsEscape(c)
    ensures Unescape(EscapeChar(c) + rest) == Cons([c], Unescape(rest))
  {
    var b := EscapeChar(c) + rest;
    assert b[1..] == rest;
  }

  lemma UnescapeShort(c: char, rest: string)
    requires NeedsEscape(c) && |EscapeChar(c)| == 2
    ensures Unescape(EscapeChar(c) + rest) == Cons([c], Unescape(rest))
  {
    var b := EscapeChar(c) + rest;
    assert b[2..] == rest;
  }

  lemma LongEscape(c: char)
    requires c != '\0' && NeedsEscape(c) && |EscapeChar(c)| != 2
    ensures EscapeChar(c) == "\\u" + Hex4(c as nat) && |Hex4(c as nat)| == 4
    ensures 0 < c as nat < 32 && Utf8(c as nat) == [c]
  {
  }

  lemma LongEscapeText(e: string, h: string, rest: string)
    requires e == "\\u" + h && |h| == 4
    ensures var b := e + rest; |b| >= 6 && b[0] == '\\' && b[1] == 'u' && b[2..] == h + rest && b[6..] == rest
  {
  }

  lemma UnescapeUnicode(b: string, u: nat)
    requires |b| >= 6 && b[0] == '\\' && b[1] == 'u' && ParseHex4(b[2..]) == u && 0 < u < 0x80
    ensures Unescape(b) == Cons(Utf8(u), Unescape(b[6..]))
  {
    hide ParseHex4, Utf8, JoinSurrogates;
  }

  lemma UnescapeLong(c: char, rest: string)
    requires c != '\0' && NeedsEscape(c) && |EscapeChar(c)| != 2
    ensures Unescape(EscapeChar(c) + rest) == Cons([c], Unescape(rest))
  {
    hide *;
    LongEscape(c);
    LongEscapeText(EscapeChar(c), Hex4(c as nat), rest);
    Hex4RoundTrip(c as nat, rest);
    UnescapeUnicode(EscapeChar(c) + rest, c as nat);
  }

  lemma UnescapeChar(c: char, rest: string)
    requires c != '\0'
    ensures Unescape(EscapeChar(c) + rest) == Cons([c], Unescape(rest))
  {
    hide *;
    if !NeedsEscape(c) {
      UnescapePlain(c, rest);
    } else if |EscapeChar(c)| == 2 {
      UnescapeShort(c, rest);
    } else {
      UnescapeLong(c, rest);
    }
  }

  lemma {:induction false} UnescapeText(s: string)
    requires NoNul(s)
    ensures Unescape(EscapeText(s)) == Some(s)
  {
    if s != [] {
      UnescapeChar(s[0], EscapeText(s[1..]));
      UnescapeText(s[1..]);
      assert [s[0]] + s[1..] == s;
    }
  }

  predicate PlainChar(c: char) {
    c != '\"' && c != '\\'
  }

  lemma ScanPlain(c: char, s: string)
    requires PlainChar(c)
    ensures ScanEnd([c] + s) == match ScanEnd(s) case None => None case Some(n) => Some(n + 1)
  {
    assert ([c] + s)[1..] == s;
  }

  lemma {:induction false} ScanPlains(p: string, s: string)
    requires forall c :: c in p ==> PlainChar(c)
    ensures ScanEnd(p + s) == match ScanEnd(s) case None => None case Some(n) => Some(n + |p|)
  {
    if p == [] {
      assert p + s == s;
    } else {
      assert p + s == [p[0]] + (p[1..] + s);
      ScanPlain(p[0], p[1..] + s);
      ScanPlains(p[1..], s);
    }
  }

  lemma Hex4Plain(n: nat)
    requires n < 0x1_0000
    ensures forall c :: c in Hex4(n) ==> PlainChar(c)
  {
  }

  lemma EscapeTail(c: char)
    requires NeedsEscape(c)
    ensures var e := EscapeChar(c); |e| >= 2 && e[0] == '\\' && forall d :: d in e[2..] ==> PlainChar(d)
  {
    Hex4Plain(c as nat);
    hide Hex4;
  }

  lemma ScanEscape(c: char, s: string)
    ensures ScanEnd(EscapeChar(c) + s) == match ScanEnd(s) case None => None case Some(n) => Some(n + |EscapeChar(c)|)
  {
    if !NeedsEscape(c) {
      ScanPlain(c, s);
    } else {
      EscapeTail(c);
      var e := EscapeChar(c);
      hide EscapeChar;
      assert (e + s)[2..] == e[2..] + s;
      ScanPlains(e[2..], s);
    }
  }

  lemma EscapeTextParts(s: string, rest: string)
    ensures s == [] ==> EscapeText(s) == [] && EscapeText(s) + "\"" + rest == "\"" + rest
    ensures s != [] ==> |EscapeText(s)| == |EscapeChar(s[0])| + |EscapeText(s[1..])|
    ensures s != [] ==> EscapeText(s) + "\"" + rest == EscapeChar(s[0]) + (EscapeText(s[1..]) + "\"" + rest)
  {
    hide EscapeChar;
  }

  lemma ScanQuote(rest: string)
    ensures ScanEnd("\"" + rest) == Some(0)
  {
  }

  lemma {:induction false} ScanText(s: string, rest: string)
    ensures ScanEnd(EscapeText(s) + "\"" + rest) == Some(|EscapeText(s)|)
  {
    hide *;
    EscapeTextParts(s, rest);
    if s == [] {
      ScanQuote(rest);
    } else {
      ScanEscape(s[0], EscapeText(s[1..]) + "\"" + rest);
      ScanText(s[1..], rest);
    }
  }

  lemma StringRoundTrip(s: string, rest: string)
    requires NoNul(s)
    ensures ParseString(QuoteThen(s, rest)) == Some((s, rest))
  {
    var e := EscapeText(s);
    var t := QuoteThen(s, rest);
    assert t[1..] == e + "\"" + rest;
    ScanText(s, rest);
    UnescapeText(s);
    assert t[1..][..|e|] == e;
    assert t[1 + |e|..] == "\"" + rest;
    assert ("\"" + rest)[1..] == rest;
  }

  // ----- values

  ghost predicate Ends(v: Json, rest: string) {
    v.Number? ==> !Continues(v.n, rest)
  }

  lemma PrintStarts(v: Json, depth: nat, fmt: bool, k: string)
    ensures var s := PrintThen(v, depth, fmt, k); StartsSolid(s) && s[0] != ']' && Skip(s) == s
  {
    if v.Number? { FirstDigit(if v.n < 0 then -v.n else v.n); }
  }

  /** For every tree, formatted or not, at every depth and before every text that does not
      continue a number. */
  lemma ValueRoundTrip(v: Json, depth: nat, fmt: bool, rest: string)
    requires Printable(v) && Ends(v, rest)
    ensures ParseValue(Print(v, depth, fmt) + rest) == Some((v, rest))
  {
    PrintThenIs(v, depth, fmt, rest);
    ParseThen(v, depth, fmt, rest);
  }

  lemma ParseScalarThen(v: Json, depth: nat, fmt: bool, rest: string)
    requires Printable(v) && Ends(v, rest) && !v.Array? && !v.Object?
    ensures ParseValue(PrintThen(v, depth, fmt, rest)) == Some((v, rest))
  {
    match v {
      case Number(n) =>
        NumberRoundTrip(n, rest);
        StartsNumber(IntText(n) + rest);
        hide IntText, ParseNumber, StartsDigit, Continues;
      case String(t) =>
        StringRoundTrip(t, rest);
        hide EscapeText, ParseString;
      case _ =>
        ParseLiterals(rest);
    }
  }

  lemma StartsNumber(s: string)
    requires Starts(s, '-') || StartsDigit(s)
    ensures ParseValue(s) == Some(ParseNumber(s))
  {
    hide ParseNumber;
  }

  lemma {:induction false} ParseThen(v: Json, depth: nat, fmt: bool, rest: string)
    requires Printable(v) && Ends(v, rest)
    ensures ParseValue(PrintThen(v, depth, fmt, rest)) == Some((v, rest))
    decreases v, 1, 0
  {
    hide *;
    match v {
      case Array(xs) =>
        ParseArrayThen(v, depth, fmt, rest);
      case Object(ms) =>
        ParseObjectThen(v, depth, fmt, rest);
      case _ =>
        ParseScalarThen(v, depth, fmt, rest);
    }
  }

  lemma ParseLiterals(rest: string)
    ensures ParseValue("null" + rest) == Some((Null, rest))
    ensures ParseValue("false" + rest) == Some((False, rest))
    ensures ParseValue("true" + rest) == Some((True, rest))
  {
    var n, f, t := "null" + rest, "false" + rest, "true" + rest;
    assert n[4..] == f[5..] == t[4..] == rest;
    assert "null" <= n && "false" <= f && "true" <= t;
    assert f[0] == 'f' && t[0] == 't';
  }

  lemma ParseBracket(s: string)
    requires Starts(s, '[')
    ensures ParseValue(s) ==
            var t := Skip(s[1..]);
            if Starts(t, ']') then Some((Array([]), t[1..]))
            else match ParseItems(t) case None => None case Some((xs, rest)) => Some((Array(xs), rest))
  {
  }

  lemma ParseBrace(s: string)
    requires Starts(s, '{')
    ensures ParseValue(s) ==
            var t := Skip(s[1..]);
            if Starts(t, '}') then Some((Object([]), t[1..]))
            else match ParseMembers(t) case None => None case Some((ms, rest)) => Some((Object(ms), rest))
  {
  }

  lemma {:induction false} ParseArrayThen(v: Json, depth: nat, fmt: bool, rest: string)
    requires v.Array? && Printable(v)
    ensures ParseValue(PrintThen(v, depth, fmt, rest)) == Some((v, rest))
    decreases v, 0, 0
  {
    var xs := v.items;
    var s := PrintThen(v, depth, fmt, rest);
    ParseBracket(s);
    if xs == [] {
      assert s[1..] == "]" + rest;
      assert ("]" + rest)[1..] == rest;
    } else {
      var t := ItemsThen(xs, depth + 1, fmt, "]" + rest);
      assert s == "[" + t && s[1..] == t;
      PrintStarts(xs[0], depth + 1, fmt, ItemsMore(xs, depth + 1, fmt, "]" + rest));
      ParseItemsThen(xs, depth + 1, fmt, rest);
      hide PrintThen, ItemsThen;
    }
  }

  /** What follows the first element. */
  ghost function ItemsMore(xs: seq<Json>, depth: nat, fmt: bool, k: string): string
    requires xs != []
  {
    if |xs| == 1 then k else "," + (When(fmt, " ") + ItemsThen(xs[1..], depth, fmt, k))
  }

  lemma LastItem(s: string, x: Json, rest: string)
    requires Skip(s) == s && ParseValue(s) == Some((x, "]" + rest))
    ensures ParseItems(s) == Some(([x], rest))
  {
    var more := "]" + rest;
    assert Skip(more) == more && more[1..] == rest;
    hide ParseValue, Skip;
  }

  lemma NextItem(s: string, x: Json, tail: string, next: string, xs: seq<Json>, rest: string)
    requires Skip(s) == s && ParseValue(s) == Some((x, "," + tail))
    requires Skip(tail) == Skip(next) && ParseItems(next) == Some((xs, rest))
    ensures ParseItems(s) == Some(([x] + xs, rest))
  {
    var more := "," + tail;
    assert Skip(more) == more && more[1..] == tail;
    hide ParseValue, Skip;
    ParseAfterSkip(tail, next);
  }

  lemma {:induction false} ParseItemsThen(xs: seq<Json>, depth: nat, fmt: bool, rest: string)
    requires xs != [] && forall x | x in xs :: Printable(x)
    ensures ParseItems(ItemsThen(xs, depth, fmt, "]" + rest)) == Some((xs, rest))
    decreases xs, 0, 0
  {
    var more := ItemsMore(xs, depth, fmt, "]" + rest);
    var text := ItemsThen(xs, depth, fmt, "]" + rest);
    PrintStarts(xs[0], depth, fmt, more);
    ParseThen(xs[0], depth, fmt, more);
    if |xs| == 1 {
      hide PrintThen, ParseItems, ParseValue, Skip;
      LastItem(text, xs[0], rest);
      assert xs == [xs[0]];
    } else {
      var tail := ItemsThen(xs[1..], depth, fmt, "]" + rest);
      SkipBlank(When(fmt, " "), tail);
      hide PrintThen, ParseItems, ParseValue, Skip, Printable;
      ParseItemsThen(xs[1..], depth, fmt, rest);
      NextItem(text, xs[0], When(fmt, " ") + tail, tail, xs[1..], rest);
      assert [xs[0]] + xs[1..] == xs;
    }
  }

  lemma ObjectStart(v: Json, depth: nat, fmt: bool, rest: string)
    requires v.Object?
    ensures var s := PrintThen(v, depth, fmt, rest);
            var close := When(fmt, Tabs(depth)) + ("}" + rest);
            Starts(s, '{') && s != [] && s[1..] == When(fmt, "\n") + MembersThen(v.members, depth + 1, fmt, close)
  {
    hide MembersThen;
  }

  lemma SkipClose(depth: nat, fmt: bool, rest: string)
    ensures var close := When(fmt, Tabs(depth)) + ("}" + rest);
            Skip(close) == "}" + rest && ("}" + rest)[1..] == rest
  {
    SkipBlank(When(fmt, Tabs(depth)), "}" + rest);
  }

  lemma Newline(fmt: bool)
    ensures Blank(When(fmt, "\n"))
  {
  }

  lemma NoMembersThen(depth: nat, fmt: bool, k: string)
    ensures MembersThen([], depth, fmt, k) == k
  {
  }

  lemma Closing(c: char, rest: string)
    ensures Starts([c] + rest, c) && ([c] + rest)[1..] == rest
  {
  }

  lemma QuoteNotBrace(s: string)
    requires Starts(s, '\"')
    ensures !Starts(s, '}')
  {
  }

  lemma PrintableObject(v: Json)
    requires v.Object? && Printable(v)
    ensures PrintableMembers(v.members)
  {
  }

  lemma {:induction false} ParseObjectThen(v: Json, depth: nat, fmt: bool, rest: string)
    requires v.Object? && Printable(v)
    ensures ParseValue(PrintThen(v, depth, fmt, rest)) == Some((v, rest))
    decreases v, 0, 0
  {
    hide *;
    var ms := v.members;
    var s := PrintThen(v, depth, fmt, rest);
    var close := When(fmt, Tabs(depth)) + ("}" + rest);
    var t := MembersThen(ms, depth + 1, fmt, close);
    ObjectStart(v, depth, fmt, rest);
    SkipClose(depth, fmt, rest);
    Newline(fmt);
    SkipBlank(When(fmt, "\n"), t);
    ParseBrace(s);
    if ms == [] {
      NoMembersThen(depth + 1, fmt, close);
      Closing('}', rest);
    } else {
      PrintableObject(v);
      MembersStart(ms, depth + 1, fmt, close);
      QuoteNotBrace(Skip(t));
      SkipTwice(t);
      ParseAfterSkip(Skip(t), t);
      ParseMembersThen(ms, depth + 1, fmt, depth, rest);
    }
  }

  lemma MembersStart(ms: seq<Entry<Json>>, depth: nat, fmt: bool, k: string)
    requires ms != []
    ensures Starts(Skip(MembersThen(ms, depth, fmt, k)), '\"')
  {
    var w := When(fmt, Tabs(depth));
    var q := QuoteThen(ms[0].name, ":" + (When(fmt, "\t") + PrintThen(ms[0].item, depth, fmt, MembersMore(ms, depth, fmt, k))));
    SkipBlank(w, q);
  }

  /** What follows the first member's value. */
  ghost function MembersMore(ms: seq<Entry<Json>>, depth: nat, fmt: bool, k: string): string
    requires ms != []
  {
    When(|ms| != 1, ",") + (When(fmt, "\n") + MembersThen(ms[1..], depth, fmt, k))
  }

  ghost predicate PrintableMembers(ms: seq<Entry<Json>>) {
    forall m | m in ms :: NoNul(m.name) && Printable(m.item)
  }

  lemma PrintableTail(ms: seq<Entry<Json>>)
    requires ms != [] && PrintableMembers(ms)
    ensures NoNul(ms[0].name) && Printable(ms[0].item) && PrintableMembers(ms[1..])
    ensures [ms[0]] + ms[1..] == ms
  {
  }

  lemma LastMember(s: string, m: Entry<Json>, more: string, rest: string)
    requires ParseMember(s) == Some((m, more)) && Skip(more) == "}" + rest
    ensures ParseMembers(s) == Some(([m], rest))
  {
    hide ParseMember, Skip;
    assert ("}" + rest)[1..] == rest;
  }

  lemma NextMember(s: string, m: Entry<Json>, tail: string, next: string, ms: seq<Entry<Json>>, rest: string)
    requires ParseMember(s) == Some((m, "," + tail))
    requires Skip(tail) == Skip(next) && ParseMembers(next) == Some((ms, rest))
    ensures ParseMembers(s) == Some(([m] + ms, rest))
  {
    var more := "," + tail;
    assert Skip(more) == more && more[1..] == tail;
    hide ParseMember, Skip;
    ParseAfterSkip(tail, next);
  }

  lemma {:induction false} ParseMembersThen(ms: seq<Entry<Json>>, depth: nat, fmt: bool, outer: nat, rest: string)
    requires ms != [] && PrintableMembers(ms)
    ensures ParseMembers(MembersThen(ms, depth, fmt, When(fmt, Tabs(outer)) + ("}" + rest))) == Some((ms, rest))
    decreases ms, 0, 0
  {
    var close := When(fmt, Tabs(outer)) + ("}" + rest);
    var more := MembersMore(ms, depth, fmt, close);
    var next := MembersThen(ms[1..], depth, fmt, close);
    var text := MembersThen(ms, depth, fmt, close);
    PrintableTail(ms);
    SkipBlank(When(fmt, "\n"), next);
    if |ms| == 1 {
      SkipBlank(When(fmt, Tabs(outer)), "}" + rest);
      assert next == close;
      assert more == When(fmt, "\n") + close;
      hide MembersThen, PrintThen, ParseMember, ParseMembers, Printable;
      ParseMemberThen(ms, depth, fmt, more, close);
      LastMember(text, ms[0], more, rest);
      assert ms == [ms[0]];
    } else {
      assert more == "," + (When(fmt, "\n") + next);
      hide MembersThen, PrintThen, ParseMember, ParseMembers, Printable, PrintableMembers;
      ParseMemberThen(ms, depth, fmt, more, close);
      ParseMembersThen(ms[1..], depth, fmt, outer, rest);
      NextMember(text, ms[0], When(fmt, "\n") + next, next, ms[1..], rest);
    }
  }

  lemma MemberIs(s: string, m: Entry<Json>, colon: string, value: string, more: string)
    requires ParseString(Skip(s)) == Some((m.name, colon)) && Skip(colon) == colon && Starts(colon, ':')
    requires Skip(colon[1..]) == value && ParseValue(value) == Some((m.item, more))
    ensures ParseMember(s) == Some((m, more))
  {
    hide ParseString, ParseValue, Skip;
  }

  lemma MemberText(ms: seq<Entry<Json>>, depth: nat, fmt: bool, more: string, close: string)
    requires ms != [] && more == MembersMore(ms, depth, fmt, close)
    ensures var value := PrintThen(ms[0].item, depth, fmt, more);
      var colon := ":" + (When(fmt, "\t") + value);
      var q := QuoteThen(ms[0].name, colon);
      && MembersThen(ms, depth, fmt, close) == When(fmt, Tabs(depth)) + q
      && Skip(q) == q && Skip(colon) == colon && Starts(colon, ':') && colon[1..] == When(fmt, "\t") + value
  {
    hide PrintThen, When, Tabs, EscapeText;
  }

  lemma Blanks(fmt: bool, depth: nat)
    ensures Blank(When(fmt, Tabs(depth))) && Blank(When(fmt, "\t"))
  {
  }

  lemma EndsBefore(v: Json, more: string)
    requires more != [] && more[0] in {',', '}', '\n'}
    ensures Ends(v, more)
  {
  }

  lemma {:induction false} ParseMemberThen(ms: seq<Entry<Json>>, depth: nat, fmt: bool, more: string, close: string)
    requires ms != [] && NoNul(ms[0].name) && Printable(ms[0].item)
    requires more == MembersMore(ms, depth, fmt, close)
    requires more != [] && more[0] in {',', '}', '\n'}
    ensures ParseMember(MembersThen(ms, depth, fmt, close)) == Some((ms[0], more))
    decreases ms[0].item, 2
  {
    hide *;
    var m := ms[0];
    var value := PrintThen(m.item, depth, fmt, more);
    var colon := ":" + (When(fmt, "\t") + value);
    MemberText(ms, depth, fmt, more, close);
    PrintStarts(m.item, depth, fmt, more);
    EndsBefore(m.item, more);
    ParseThen(m.item, depth, fmt, more);
    Blanks(fmt, depth);
    SkipBlank(When(fmt, Tabs(depth)), QuoteThen(m.name, colon));
    SkipBlank(When(fmt, "\t"), value);
    StringRoundTrip(m.name, colon);
    MemberIs(MembersThen(ms, depth, fmt, close), m, colon, value, more);
  }

  /** `cJSON_Parse` of what `cJSON_Print` or `cJSON_PrintUnformatted` gave. */
  lemma PrintParse(v: Json, fmt: bool)
    requires Printable(v)
    ensures ParseValue(Skip(Print(v, 0, fmt))) == Some((v, ""))
  {
    var s := Print(v, 0, fmt);
    assert s + "" == s;
    PrintThenIs(v, 0, fmt, "");
    PrintStarts(v, 0, fmt, "");
    ParseThen(v, 0, fmt, "");
  }

  /** Different trees print differently. */
  lemma PrintInjective(v: Json, w: Json, fmt: bool)
    requires Printable(v) && Printable(w) && Print(v, 0, fmt) == Print(w, 0, fmt)
    ensures v == w
  {
    PrintParse(v, fmt);
    PrintParse(w, fmt);
  }
}
