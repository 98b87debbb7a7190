/** `cJSON_Minify`: what it keeps of a text, and what it does to printed trees. */
module Minify {
  import opened Json
  import opened Numerals
  import opened Text
  import opened Parse
  import opened RoundTrip

  predicate IsBlank(c: char) {
    c == ' ' || c == '\t' || c == '\r' || c == '\n'
  }

  /** The text from the end of the line on. */
  function LineEnd(s: string): (r: string)
    ensures |r| <= |s|
  {
    if s == [] || s[0] == '\n' then s else LineEnd(s[1..])
  }

  /** The text after the closing star and slash; `None` when the cursor runs past the terminator. */
  function CommentEnd(s: string): (r: Option<string>)
    ensures r.Some? ==> |r.value| <= |s|
  {
    if s == [] then None
    else if s[0] == '*' && Starts(s[1..], '/') then Some(s[2..])
    else CommentEnd(s[1..])
  }

  /** The literal after its opening quote, up to and including the closing one, and the rest;
      `None` when the cursor runs past the terminator. */
  function LiteralEnd(s: string): (r: Option<nat>)
    ensures r.Some? ==> 0 < r.value <= |s|
    decreases |s|
  {
    if s == [] then None
    else if s[0] == '\"' then Some(1)
    else if s[0] == '\\' then
      if |s| == 1 then None
      else match LiteralEnd(s[2..]) case None => None case Some(n) => Some(n + 2)
    else match LiteralEnd(s[1..]) case None => None case Some(n) => Some(n + 1)
  }

  /** The minified text; `None` for texts on which the C code leaves its buffer. */
  function Minified(s: string): Option<string>
    decreases |s|
  {
    if s == [] then Some("")
    else if IsBlank(s[0]) then Minified(s[1..])
    else if s[0] == '/' && Starts(s[1..], '/') then
      LineEndShorter(s);
      Minified(LineEnd(s))
    else if s[0] == '/' && Starts(s[1..], '*') then
      match CommentEnd(s)
      case None => None
      case Some(rest) => CommentEndShorter(s); Minified(rest)
    else if s[0] == '\"' then
      match LiteralEnd(s[1..])
      case None => None
      case Some(n) => Cons(s[..1 + n], Minified(s[1 + n..]))
    else Cons([s[0]], Minified(s[1..]))
  }

  lemma LineEndShorter(s: string)
    requires s != [] && s[0] != '\n'
    ensures |LineEnd(s)| < |s|
  {
  }

  lemma {:induction false} CommentEndShorter(s: string)
    requires CommentEnd(s).Some?
    ensures |CommentEnd(s).value| < |s|
  {
  }

  // ----- pieces of printed text

  /** Characters that are copied one by one. */
  predicate Copied(c: char) {
    !IsBlank(c) && c != '/' && c != '\"'
  }

  lemma {:induction false} MinifyCopied(p: string, s: string)
    requires forall i :: 0 <= i < |p| ==> Copied(p[i])
    ensures Minified(p + s) == Cons(p, Minified(s))
  {
    if p == [] {
      assert p + s == s;
      if Minified(s).Some? { assert "" + Minified(s).value == Minified(s).value; }
    } else {
      assert (p + s)[1..] == p[1..] + s;
      MinifyCopied(p[1..], s);
      if Minified(s).Some? { assert [p[0]] + (p[1..] + Minified(s).value) == p + Minified(s).value; }
    }
  }

  lemma {:induction false} MinifyBlank(w: string, s: string)
    requires forall i :: 0 <= i < |w| ==> IsBlank(w[i])
    ensures Minified(w + s) == Minified(s)
  {
    if w == [] {
      assert w + s == s;
    } else {
      assert (w + s)[1..] == w[1..] + s;
      MinifyBlank(w[1..], s);
    }
  }

  lemma {:induction false} LiteralOfPlains(p: string, s: string)
    requires forall c :: c in p ==> PlainChar(c)
    ensures LiteralEnd(p + s) == match LiteralEnd(s) case None => None case Some(n) => Some(n + |p|)
  {
    if p == [] {
      assert p + s == s;
    } else {
      assert p[0] in p && (p + s)[0] == p[0];
      assert (p + s)[1..] == p[1..] + s;
      LiteralOfPlains(p[1..], s);
    }
  }

  lemma LiteralOfShort(c: char, s: string)
    requires NeedsEscape(c) && |EscapeChar(c)| == 2
    ensures LiteralEnd(EscapeChar(c) + s) == match LiteralEnd(s) case None => None case Some(n) => Some(n + 2)
  {
    assert (EscapeChar(c) + s)[2..] == s;
  }

  lemma LiteralOfLong(c: char, s: string)
    requires NeedsEscape(c) && |EscapeChar(c)| != 2
    ensures LiteralEnd(EscapeChar(c) + s) == match LiteralEnd(s) case None => None case Some(n) => Some(n + 6)
    ensures |EscapeChar(c)| == 6
  {
    assert (EscapeChar(c) + s)[2..] == Hex4(c as nat) + s;
    Hex4Plain(c as nat);
    LiteralOfPlains(Hex4(c as nat), s);
  }

  lemma LiteralOfEscape(c: char, s: string)
    ensures LiteralEnd(EscapeChar(c) + s) == match LiteralEnd(s) case None => None case Some(n) => Some(n + |EscapeChar(c)|)
  {
    if !NeedsEscape(c) {
      LiteralOfPlains([c], s);
    } else if |EscapeChar(c)| == 2 {
      LiteralOfShort(c, s);
    } else {
      LiteralOfLong(c, s);
    }
    hide LiteralEnd;
  }

  lemma {:induction false} LiteralOfText(s: string, rest: string)
    ensures LiteralEnd(EscapeText(s) + ("\"" + rest)) == Some(|EscapeText(s)| + 1)
  {
    if s == [] {
      assert "" + ("\"" + rest) == "\"" + rest;
    } else {
      LiteralOfText(s[1..], rest);
      Assoc(EscapeChar(s[0]), EscapeText(s[1..]), "\"" + rest);
      LiteralOfEscape(s[0], EscapeText(s[1..]) + ("\"" + rest));
    }
  }

  /** Nothing inside a string literal changes. */
  lemma MinifyQuoted(s: string, k: string)
    ensures Minified(QuoteThen(s, k)) == Cons(Quote(s), Minified(k))
  {
    var q := QuoteThen(s, k);
    var e := EscapeText(s);
    assert q[1..] == e + ("\"" + k);
    LiteralOfText(s, k);
    assert q[1 + (|e| + 1)..] == k;
    assert q[..1 + (|e| + 1)] == Quote(s);
  }

  // ----- printed trees

  lemma ConsCons(a: string, b: string, r: Option<string>)
    ensures Cons(a, Cons(b, r)) == Cons(a + b, r)
  {
    if r.Some? { Assoc(a, b, r.value); }
  }

  lemma MinifyNumber(n: int, k: string)
    ensures Minified(IntText(n) + k) == Cons(IntText(n), Minified(k))
  {
    DigitsAreDigits(if n < 0 then -n else n);
    assert forall i :: 0 <= i < |IntText(n)| ==> IntText(n)[i] == '-' || IsDigit(IntText(n)[i]);
    MinifyCopied(IntText(n), k);
  }

  /** Whatever the format and the depth, minifying gives the unformatted text. */
  lemma {:induction false} MinifyThen(v: Json, depth: nat, fmt: bool, k: string)
    ensures Minified(PrintThen(v, depth, fmt, k)) == Cons(Print(v, 0, false), Minified(k))
    decreases v, 1, 0
  {
    hide Minified;
    match v {
      case Number(n) =>
        MinifyNumber(n, k);
      case String(s) => MinifyQuoted(s, k);
      case Array(xs) =>
        if xs == [] {
          assert "[" + ("]" + k) == "[]" + k;
          MinifyCopied("[]", k);
        } else {
          MinifyItems(xs, depth + 1, fmt, "]" + k);
          MinifyCopied("]", k);
          MinifyCopied("[", ItemsThen(xs, depth + 1, fmt, "]" + k));
          PrintUnformatted(v, 1);
          ConsThree("[", PrintItems(xs, 0, false), "]", Minified(k));
        }
      case Object(ms) =>
        var tabs, n := When(fmt, Tabs(depth)), When(fmt, "\n");
        var t := MembersThen(ms, depth + 1, fmt, tabs + ("}" + k));
        MinifyCopied("}", k);
        MinifyBlank(tabs, "}" + k);
        MinifyMembers(ms, depth + 1, fmt, tabs + ("}" + k));
        MinifyBlank(n, t);
        MinifyCopied("{", n + t);
        PrintUnformatted(v, 1);
        ConsThree("{", PrintMembers(ms, 0, false), "}", Minified(k));
      case Null => MinifyCopied("null", k);
      case False => MinifyCopied("false", k);
      case True => MinifyCopied("true", k);
    }
  }

  lemma ConsThree(a: string, b: string, c: string, r: Option<string>)
    ensures Cons(a, Cons(b, Cons(c, r))) == Cons(a + b + c, r)
  {
    ConsCons(b, c, r);
    ConsCons(a, b + c, r);
    Assoc(a, b, c);
  }

  /** Without format the depth does not show. */
  lemma {:induction false} PrintUnformatted(v: Json, depth: nat)
    ensures Print(v, depth, false) == Print(v, 0, false)
    ensures v.Array? && v.items != [] ==> Print(v, 0, false) == "[" + PrintItems(v.items, 0, false) + "]"
    ensures v.Object? ==> Print(v, 0, false) == "{" + PrintMembers(v.members, 0, false) + "}"
    decreases v, 1, 0
  {
    match v {
      case Array(xs) =>
        ItemsUnformatted(xs, depth + 1);
        ItemsUnformatted(xs, 1);
      case Object(ms) =>
        MembersUnformatted(ms, depth + 1);
        MembersUnformatted(ms, 1);
        var t := PrintMembers(ms, 0, false);
        assert "{" + "" + t + "" + "}" == "{" + t + "}";
      case _ =>
    }
  }

  lemma {:induction false} ItemsUnformatted(xs: seq<Json>, depth: nat)
    ensures PrintItems(xs, depth, false) == PrintItems(xs, 0, false)
    decreases xs, 0, 0
  {
    if xs != [] {
      PrintUnformatted(xs[0], depth);
      ItemsUnformatted(xs[1..], depth);
    }
  }

  lemma {:induction false} MembersUnformatted(ms: seq<Entry<Json>>, depth: nat)
    ensures PrintMembers(ms, depth, false) == PrintMembers(ms, 0, false)
    decreases ms, 0, 0
  {
    if ms != [] {
      PrintUnformatted(ms[0].item, depth);
      MembersUnformatted(ms[1..], depth);
    }
  }

  lemma {:induction false} MinifyItems(xs: seq<Json>, depth: nat, fmt: bool, k: string)
    ensures Minified(ItemsThen(xs, depth, fmt, k)) == Cons(PrintItems(xs, 0, false), Minified(k))
    decreases xs, 0, 0
  {
    if xs == [] {
      if Minified(k).Some? { assert "" + Minified(k).value == Minified(k).value; }
    } else {
      var p := Print(xs[0], 0, false);
      if |xs| == 1 {
        MinifyThen(xs[0], depth, fmt, k);
        assert p + "" == p;
      } else {
        var tail := ItemsThen(xs[1..], depth, fmt, k);
        MinifyThen(xs[0], depth, fmt, "," + (When(fmt, " ") + tail));
        MinifyCopied(",", When(fmt, " ") + tail);
        MinifyBlank(When(fmt, " "), tail);
        MinifyItems(xs[1..], depth, fmt, k);
        var rest := PrintItems(xs[1..], 0, false);
        ConsCons(",", rest, Minified(k));
        ConsCons(p, "," + rest, Minified(k));
        assert "," + "" + rest == "," + rest;
      }
    }
  }

  lemma {:induction false} MinifyMembers(ms: seq<Entry<Json>>, depth: nat, fmt: bool, k: string)
    ensures Minified(MembersThen(ms, depth, fmt, k)) == Cons(PrintMembers(ms, 0, false), Minified(k))
    decreases ms, 0, 0
  {
    if ms == [] {
      if Minified(k).Some? { assert "" + Minified(k).value == Minified(k).value; }
    } else {
      var m := ms[0];
      var comma, n := When(|ms| != 1, ","), When(fmt, "\n");
      var next := MembersThen(ms[1..], depth, fmt, k);
      var value := PrintThen(m.item, depth, fmt, comma + (n + next));
      var colon := ":" + (When(fmt, "\t") + value);
      MinifyBlank(When(fmt, Tabs(depth)), QuoteThen(m.name, colon));
      MinifyQuoted(m.name, colon);
      MinifyCopied(":", When(fmt, "\t") + value);
      MinifyBlank(When(fmt, "\t"), value);
      MinifyThen(m.item, depth, fmt, comma + (n + next));
      MinifyCopied(comma, n + next);
      MinifyBlank(n, next);
      MinifyMembers(ms[1..], depth, fmt, k);
      MemberConsed(Quote(m.name), Print(m.item, 0, false), comma, PrintMembers(ms[1..], 0, false), Minified(k));
    }
  }

  lemma MemberConsed(q: string, p: string, comma: string, rest: string, r: Option<string>)
    ensures Cons(q, Cons(":", Cons(p, Cons(comma, Cons(rest, r)))))
         == Cons(("" + q + ":" + "" + p + comma + "") + rest, r)
  {
    ConsCons(comma, rest, r);
    ConsCons(p, comma + rest, r);
    ConsCons(":", p + (comma + rest), r);
    ConsCons(q, ":" + (p + (comma + rest)), r);
    assert "" + q + ":" + "" + p + comma + "" == q + ":" + p + comma;
    Assoc(q + ":" + p, comma, rest);
    Assoc(q + ":", p, comma + rest);
    Assoc(q, ":", p + (comma + rest));
  }

  /** Minifying what was printed, formatted or not, gives the unformatted text. */
  lemma MinifyPrint(v: Json, fmt: bool)
    ensures Minified(Print(v, 0, fmt)) == Some(Print(v, 0, false))
  {
    PrintThenIs(v, 0, fmt, "");
    assert Print(v, 0, fmt) + "" == Print(v, 0, fmt);
    MinifyThen(v, 0, fmt, "");
    assert Print(v, 0, false) + "" == Print(v, 0, false);
  }
}
