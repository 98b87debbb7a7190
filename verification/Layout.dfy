/** What the formatted text looks like: the unformatted text with white space put in by a rule that reads it from
    left to right and knows only which brackets are open. */
module Layout {
  import opened Json
  import opened Numerals
  import opened Text
  import opened Parse
  import opened RoundTrip
  import opened Minify

  /** As many tabs as there are brackets open. */
  function Indent(open: string): (r: string)
    ensures |r| == |open| && forall i :: 0 <= i < |r| ==> r[i] == '\t'
  {
    seq(|open|, _ => '\t')
  }

  /** The text `s` behind brackets that are `open`. A brace and a comma between members start a line, as does a closing
      brace; a comma between elements is followed by a blank and a colon by a tab. Literals stay as they are. */
  function Laid(s: string, open: string): string
    decreases |s|
  {
    if s == [] then []
    else if s[0] == '\"' && LiteralEnd(s[1..]).Some? then
      var n := 1 + LiteralEnd(s[1..]).value;
      s[..n] + Laid(s[n..], open)
    else if s[0] == '{' then
      if Starts(s[1..], '}') then "{\n" + (Indent(open) + ("}" + Laid(s[2..], open)))
      else "{\n" + (Indent(open + "{") + Laid(s[1..], open + "{"))
    else if s[0] == '[' then "[" + Laid(s[1..], open + "[")
    else if s[0] == '}' && open != "" then "\n" + (Indent(Outer(open)) + ("}" + Laid(s[1..], Outer(open))))
    else if s[0] == ']' && open != "" then "]" + Laid(s[1..], Outer(open))
    else if s[0] == ',' && open != "" then
      if open[|open| - 1] == '{' then ",\n" + (Indent(open) + Laid(s[1..], open)) else ", " + Laid(s[1..], open)
    else if s[0] == ':' then ":\t" + Laid(s[1..], open)
    else [s[0]] + Laid(s[1..], open)
  }

  /** The brackets that stay open once the last is closed. */
  function Outer(open: string): string
    requires open != ""
  {
    open[..|open| - 1]
  }

  // ----- the rule on the pieces of printed text

  predicate NoMark(c: char) {
    c !in {'\"', '{', '}', '[', ']', ',', ':'}
  }

  lemma LaidLiteral(s: string, n: nat, open: string)
    requires s != [] && s[0] == '\"' && LiteralEnd(s[1..]) == Some(n)
    ensures 1 + n <= |s| && Laid(s, open) == s[..1 + n] + Laid(s[1 + n..], open)
  {
    hide LiteralEnd, Indent;
  }

  lemma QuoteCut(t: string, k: string)
    ensures var s, n := QuoteThen(t, k), |EscapeText(t)| + 1;
      && s != [] && s[0] == '\"' && s[1..] == EscapeText(t) + ("\"" + k) && 1 + n <= |s|
      && s[..1 + n] == Quote(t) && s[1 + n..] == k
  {
    hide EscapeText;
    assert QuoteThen(t, k)[..|EscapeText(t)| + 2] == "\"" + EscapeText(t) + "\"";
  }

  lemma LaidQuote(t: string, k: string, open: string)
    ensures Laid(QuoteThen(t, k), open) == QuoteThen(t, Laid(k, open))
  {
    hide *;
    QuoteCut(t, k);
    LiteralOfText(t, k);
    LaidLiteral(QuoteThen(t, k), |EscapeText(t)| + 1, open);
    QuoteThenIs(t, Laid(k, open));
  }

  lemma LaidMark(c: char, k: string, open: string)
    requires c != '\"'
    ensures var s := [c] + k;
      Laid(s, open) ==
      if c == '{' then (if Starts(k, '}') then "{\n" + (Indent(open) + ("}" + Laid(k[1..], open)))
                        else "{\n" + (Indent(open + "{") + Laid(k, open + "{")))
      else if c == '[' then "[" + Laid(k, open + "[")
      else if c == '}' && open != "" then "\n" + (Indent(Outer(open)) + ("}" + Laid(k, Outer(open))))
      else if c == ']' && open != "" then "]" + Laid(k, Outer(open))
      else if c == ',' && open != "" then
        (if open[|open| - 1] == '{' then ",\n" + (Indent(open) + Laid(k, open)) else ", " + Laid(k, open))
      else if c == ':' then ":\t" + Laid(k, open)
      else [c] + Laid(k, open)
  {
    var s := [c] + k;
    assert s[1..] == k;
    if k != [] { assert s[2..] == k[1..]; }
    hide LiteralEnd, Indent;
  }

  lemma LaidNoMark(c: char, k: string, open: string)
    requires NoMark(c)
    ensures Laid([c] + k, open) == [c] + Laid(k, open)
  {
    LaidMark(c, k, open);
    hide Laid;
  }

  lemma {:induction false} LaidPlain(p: string, s: string, open: string)
    requires forall i :: 0 <= i < |p| ==> NoMark(p[i])
    ensures Laid(p + s, open) == p + Laid(s, open)
  {
    hide *;
    if p == [] {
      assert p + s == s && p + Laid(s, open) == Laid(s, open);
    } else {
      assert p + s == [p[0]] + (p[1..] + s);
      LaidNoMark(p[0], p[1..] + s, open);
      LaidPlain(p[1..], s, open);
      assert [p[0]] + (p[1..] + Laid(s, open)) == p + Laid(s, open);
    }
  }

  lemma IndentTabs(open: string)
    ensures Indent(open) == Tabs(|open|)
  {
  }

  lemma OpenMore(open: string, c: char)
    ensures |open + [c]| == |open| + 1 && open + [c] != "" && Outer(open + [c]) == open && (open + [c])[|open|] == c
  {
  }

  // ----- printed trees

  lemma WordPlain(v: Json)
    requires v.Null? || v.False? || v.True? || v.Number?
    ensures forall i :: 0 <= i < |Print(v, 0, false)| ==> NoMark(Print(v, 0, false)[i])
    ensures forall d: nat, fmt: bool, k: string :: PrintThen(v, d, fmt, k) == Print(v, 0, false) + k
  {
    if v.Number? {
      DigitsAreDigits(if v.n < 0 then -v.n else v.n);
      assert forall i :: 0 <= i < |IntText(v.n)| ==> IntText(v.n)[i] == '-' || IsDigit(IntText(v.n)[i]);
    }
  }

  /** Whatever the depth it was printed at: the unformatted text of a tree becomes the formatted one. */
  lemma {:induction false} LaidTree(v: Json, d: nat, k: string, open: string)
    ensures Laid(PrintThen(v, d, false, k), open) == PrintThen(v, |open|, true, Laid(k, open))
    decreases v, 1
  {
    hide *;
    match v {
      case String(t) =>
        StringThen(t, d, false, k);
        StringThen(t, |open|, true, Laid(k, open));
        LaidQuote(t, k, open);
      case Array(xs) => LaidArray(xs, d, k, open);
      case Object(ms) => LaidObject(ms, d, k, open);
      case _ =>
        WordPlain(v);
        LaidPlain(Print(v, 0, false), k, open);
    }
  }

  lemma StringThen(t: string, d: nat, fmt: bool, k: string)
    ensures PrintThen(String(t), d, fmt, k) == QuoteThen(t, k)
  {
  }

  lemma ArrayThen(xs: seq<Json>, d: nat, fmt: bool, k: string)
    ensures PrintThen(Array(xs), d, fmt, k) == ['['] + ItemsThen(xs, d + 1, fmt, [']'] + k)
  {
    hide ItemsThen;
    if xs == [] { NoItemsThen(d + 1, fmt, [']'] + k); }
  }

  lemma NoItemsThen(d: nat, fmt: bool, k: string)
    ensures ItemsThen([], d, fmt, k) == k
  {
  }

  lemma {:induction false} LaidArray(xs: seq<Json>, d: nat, k: string, open: string)
    ensures Laid(PrintThen(Array(xs), d, false, k), open) == PrintThen(Array(xs), |open|, true, Laid(k, open))
    decreases xs, 1
  {
    hide *;
    ArrayThen(xs, d, false, k);
    ArrayThen(xs, |open|, true, Laid(k, open));
    OpenMore(open, '[');
    LaidMark('[', ItemsThen(xs, d + 1, false, [']'] + k), open);
    LaidMark(']', k, open + "[");
    LaidItems(xs, d + 1, [']'] + k, open + "[");
  }

  lemma ItemsThenStep(xs: seq<Json>, d: nat, fmt: bool, k: string)
    ensures ItemsThen(xs, d, fmt, k) ==
      if xs == [] then k
      else PrintThen(xs[0], d, fmt, if |xs| == 1 then k else [','] + (When(fmt, " ") + ItemsThen(xs[1..], d, fmt, k)))
  {
    hide PrintThen;
  }

  lemma WhenIs(s: string, k: string)
    ensures When(false, s) + k == k && When(true, s) == s
  {
  }

  lemma {:induction false} LaidItems(xs: seq<Json>, d: nat, k: string, open: string)
    requires open != "" && open[|open| - 1] == '['
    ensures Laid(ItemsThen(xs, d, false, k), open) == ItemsThen(xs, |open|, true, Laid(k, open))
    decreases xs, 0
  {
    hide *;
    ItemsThenStep(xs, d, false, k);
    ItemsThenStep(xs, |open|, true, Laid(k, open));
    if xs != [] {
      if |xs| == 1 {
        LaidTree(xs[0], d, k, open);
      } else {
        var tail := ItemsThen(xs[1..], d, false, k);
        WhenIs(" ", tail);
        LaidTree(xs[0], d, [','] + tail, open);
        LaidMark(',', tail, open);
        LaidItems(xs[1..], d, k, open);
        CommaBlank(ItemsThen(xs[1..], |open|, true, Laid(k, open)));
      }
    }
  }

  lemma CommaBlank(s: string)
    ensures ", " + s == [','] + (" " + s)
  {
  }

  lemma ObjectThen(ms: seq<Entry<Json>>, d: nat, fmt: bool, k: string)
    ensures PrintThen(Object(ms), d, fmt, k) == ['{'] + (When(fmt, "\n") + MembersThen(ms, d + 1, fmt, When(fmt, Tabs(d)) + (['}'] + k)))
  {
    hide MembersThen, Tabs, When;
  }

  lemma MembersThenStep(ms: seq<Entry<Json>>, d: nat, fmt: bool, k: string)
    ensures MembersThen(ms, d, fmt, k) ==
      if ms == [] then k
      else
        When(fmt, Tabs(d)) + QuoteThen(ms[0].name, [':'] + (When(fmt, "\t") + PrintThen(ms[0].item, d, fmt,
          When(|ms| != 1, ",") + (When(fmt, "\n") + MembersThen(ms[1..], d, fmt, k)))))
  {
    hide PrintThen, QuoteThen, Tabs, When;
  }

  lemma {:induction false} LaidObject(ms: seq<Entry<Json>>, d: nat, k: string, open: string)
    ensures Laid(PrintThen(Object(ms), d, false, k), open) == PrintThen(Object(ms), |open|, true, Laid(k, open))
    decreases ms, 1
  {
    hide *;
    var close := ['}'] + k;
    ObjectThen(ms, d, false, k);
    ObjectThen(ms, |open|, true, Laid(k, open));
    WhenIs("\n", MembersThen(ms, d + 1, false, When(false, Tabs(d)) + close));
    WhenIs(Tabs(d), close);
    WhenIs(Tabs(|open|), close);
    IndentTabs(open);
    OpenMore(open, '{');
    LaidMark('{', MembersThen(ms, d + 1, false, close), open);
    if ms == [] {
      MembersThenStep(ms, d + 1, false, close);
      MembersThenStep(ms, |open| + 1, true, Tabs(|open|) + (['}'] + Laid(k, open)));
      Closing('}', k);
      BraceLine(Tabs(|open|), Laid(k, open));
    } else {
      MembersQuoted(ms, d + 1, close);
      LaidMembers(ms, d + 1, k, open);
      BraceNewline(MembersThen(ms, |open| + 1, true, Tabs(|open|) + (['}'] + Laid(k, open))));
    }
  }

  lemma BraceLine(tabs: string, s: string)
    ensures "{\n" + (tabs + ("}" + s)) == ['{'] + ("\n" + (tabs + (['}'] + s)))
  {
  }

  lemma BraceNewline(s: string)
    ensures "{\n" + s == ['{'] + ("\n" + s)
  {
  }

  lemma MembersQuoted(ms: seq<Entry<Json>>, d: nat, k: string)
    requires ms != []
    ensures !Starts(MembersThen(ms, d, false, k), '}')
  {
    MembersThenStep(ms, d, false, k);
    hide MembersThen, PrintThen, EscapeText, Tabs;
  }

  /** The members behind the tabs of their first line. */
  lemma {:induction false} LaidMembers(ms: seq<Entry<Json>>, d: nat, k: string, outer: string)
    requires ms != []
    ensures var open := outer + "{";
      Indent(open) + Laid(MembersThen(ms, d, false, ['}'] + k), open)
      == MembersThen(ms, |open|, true, Tabs(|outer|) + (['}'] + Laid(k, outer)))
    decreases ms, 0
  {
    hide *;
    var open, m := outer + "{", ms[0];
    var close, laid := ['}'] + k, Tabs(|outer|) + (['}'] + Laid(k, outer));
    OpenMore(outer, '{');
    IndentTabs(open);
    IndentTabs(outer);
    MembersThenStep(ms, d, false, close);
    MembersThenStep(ms, |open|, true, laid);
    var tail := if |ms| == 1 then close else [','] + MembersThen(ms[1..], d, false, close);
    var laidTail := When(|ms| != 1, ",") + (When(true, "\n") + MembersThen(ms[1..], |open|, true, laid));
    var value := PrintThen(m.item, d, false, tail);
    MemberText(ms, d, close, tail);
    WhenIs(Tabs(|open|), "");
    WhenIs("\t", "");
    LaidQuote(m.name, [':'] + value, open);
    LaidMark(':', value, open);
    LaidTree(m.item, d, tail, open);
    ColonTab(PrintThen(m.item, |open|, true, laidTail));
    if |ms| == 1 {
      LaidMark('}', k, open);
      MembersThenStep(ms[1..], |open|, true, laid);
      LastTail(ms, laid);
      CloseLine(Tabs(|outer|), Laid(k, outer));
    } else {
      LaidMark(',', MembersThen(ms[1..], d, false, close), open);
      LaidMembers(ms[1..], d, k, outer);
      NextTail(ms, MembersThen(ms[1..], |open|, true, laid));
    }
  }

  lemma ColonTab(s: string)
    ensures ":\t" + s == [':'] + ("\t" + s)
  {
  }

  lemma CloseLine(tabs: string, s: string)
    ensures "\n" + (tabs + ("}" + s)) == "\n" + (tabs + (['}'] + s))
  {
  }

  lemma LastTail(ms: seq<Entry<Json>>, laid: string)
    requires |ms| == 1
    ensures When(|ms| != 1, ",") + (When(true, "\n") + laid) == "\n" + laid && ms[1..] == []
  {
  }

  lemma NextTail(ms: seq<Entry<Json>>, s: string)
    requires |ms| != 1
    ensures When(|ms| != 1, ",") + (When(true, "\n") + s) == ",\n" + s
  {
  }

  lemma MemberText(ms: seq<Entry<Json>>, d: nat, close: string, tail: string)
    requires ms != [] && tail == if |ms| == 1 then close else [','] + MembersThen(ms[1..], d, false, close)
    ensures MembersThen(ms, d, false, close) == QuoteThen(ms[0].name, [':'] + PrintThen(ms[0].item, d, false, tail))
  {
    hide *;
    MembersThenStep(ms, d, false, close);
    var rest := MembersThen(ms[1..], d, false, close);
    WhenIs("\n", rest);
    MembersThenStep(ms[1..], d, false, close);
    CommaOr(ms, rest);
    WhenIs("\t", PrintThen(ms[0].item, d, false, tail));
    WhenIs(Tabs(d), QuoteThen(ms[0].name, [':'] + PrintThen(ms[0].item, d, false, tail)));
  }

  lemma CommaOr(ms: seq<Entry<Json>>, rest: string)
    requires ms != []
    ensures When(|ms| != 1, ",") + rest == if |ms| == 1 then rest else [','] + rest
    ensures |ms| == 1 ==> ms[1..] == []
  {
  }

  /** The formatted text is the unformatted text laid out by the rule. */
  lemma PrintLaid(v: Json)
    ensures Print(v, 0, true) == Laid(Print(v, 0, false), "")
  {
    hide *;
    PrintThenIs(v, 0, false, "");
    PrintThenIs(v, 0, true, "");
    LaidTree(v, 0, "", "");
    Ending(Print(v, 0, false), Print(v, 0, true));
  }

  lemma Ending(s: string, t: string)
    ensures s + "" == s && t + "" == t && Laid("", "") == ""
  {
  }
}
