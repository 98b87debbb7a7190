/** The measuring printer: every part is printed to memory of its own, the lengths are added up,
    and the whole is composed in memory of exactly that size. */
module Printer {
  import opened Json
  import opened Numerals
  import opened Text
  import opened Parse
  import opened Strings

  // ----- what a C tree can hold

  const INT_MAX: int := 0x7FFF_FFFF
  const INT_MIN: int := -0x8000_0000

  /** Numbers are exact in `valueint`. */
  ghost predicate IntsFit(v: Json) {
    match v
    case Number(n) => INT_MIN <= n <= INT_MAX
    case Array(xs) => forall x | x in xs :: IntsFit(x)
    case Object(ms) => forall m | m in ms :: IntsFit(m.item)
    case _ => true
  }

  /** What "%d" prints fits the 21 characters set aside for it. */
  lemma IntTextShort(n: int)
    requires INT_MIN <= n <= INT_MAX
    ensures |IntText(n)| <= 11
  {
    var m: nat := if n < 0 then -n else n;
    DigitsOfDigits(m, 10);
  }

  lemma {:induction false} DigitsOfDigits(n: nat, k: nat)
    requires 0 < k && n < Power10(k)
    ensures |Digits(n)| <= k
  {
    if n >= 10 { DigitsOfDigits(n / 10, k - 1); }
  }

  // ----- printed text has no terminator in it

  lemma NoNulParts(a: string, b: string)
    ensures NoNul(a + b) <==> NoNul(a) && NoNul(b)
  {
    if !NoNul(b) { assert '\0' in a + b; }
  }

  lemma {:induction false} EscapeTextNoNul(s: string)
    ensures NoNul(EscapeText(s))
  {
    if s != [] {
      EscapeTextNoNul(s[1..]);
      assert NoNul(EscapeChar(s[0]));
    }
  }

  lemma ObjectNoNul(members: string, depth: nat, fmt: bool)
    requires NoNul(members)
    ensures NoNul("{" + When(fmt, "\n") + members + When(fmt, Tabs(depth)) + "}")
  {
    assert NoNul(When(fmt, "\n")) && NoNul(When(fmt, Tabs(depth)));
    hide When, Tabs;
  }

  lemma {:induction false} PrintNoNul(v: Json, depth: nat, fmt: bool)
    ensures NoNul(Print(v, depth, fmt))
    decreases v, 1
  {
    hide PrintItems, PrintMembers, EscapeText, When;
    match v {
      case Number(n) => DigitsAreDigits(if n < 0 then -n else n);
      case String(s) => EscapeTextNoNul(s);
      case Array(xs) => ItemsNoNul(xs, depth + 1, fmt);
      case Object(ms) =>
        MembersNoNul(ms, depth + 1, fmt);
        ObjectNoNul(PrintMembers(ms, depth + 1, fmt), depth, fmt);
      case _ =>
    }
  }

  lemma {:induction false} ItemsNoNul(xs: seq<Json>, depth: nat, fmt: bool)
    ensures NoNul(PrintItems(xs, depth, fmt))
    decreases xs, 0
  {
    if xs != [] {
      PrintNoNul(xs[0], depth, fmt);
      ItemsNoNul(xs[1..], depth, fmt);
    }
  }

  lemma MemberNoNul(m: Entry<Json>, depth: nat, fmt: bool, last: bool)
    requires NoNul(Print(m.item, depth, fmt))
    ensures NoNul(PrintMember(m, depth, fmt, last))
  {
    EscapeTextNoNul(m.name);
    assert NoNul(When(fmt, Tabs(depth))) && NoNul(When(!last, ",")) && NoNul(When(fmt, "\n")) && NoNul(When(fmt, "\t"));
    hide Print, When, Tabs, EscapeText;
  }

  lemma {:induction false} MembersNoNul(ms: seq<Entry<Json>>, depth: nat, fmt: bool)
    ensures NoNul(PrintMembers(ms, depth, fmt))
    decreases ms, 0
  {
    if ms != [] {
      PrintNoNul(ms[0].item, depth, fmt);
      MemberNoNul(ms[0], depth, fmt, |ms| == 1);
      MembersNoNul(ms[1..], depth, fmt);
      NoNulParts(PrintMember(ms[0], depth, fmt, |ms| == 1), PrintMembers(ms[1..], depth, fmt));
      hide PrintMember, NoNul;
    }
  }

  // ----- sizes

  function Flag(b: bool): nat {
    if b then 1 else 0
  }

  /** What the elements add to the length of an array. */
  function ItemsMeasure(xs: seq<Json>, depth: nat, fmt: bool): nat {
    if xs == [] then 0 else |Print(xs[0], depth, fmt)| + 2 + Flag(fmt) + ItemsMeasure(xs[1..], depth, fmt)
  }

  /** What the members add to the length of an object. */
  function MembersMeasure(ms: seq<Entry<Json>>, depth: nat, fmt: bool): nat {
    if ms == [] then 0
    else
      |Print(ms[0].item, depth, fmt)| + |Quote(ms[0].name)| + 2 + (if fmt then 2 + depth else 0)
      + MembersMeasure(ms[1..], depth, fmt)
  }

  /** An array is measured with 3 characters and one more per element to spare. */
  lemma {:induction false} ItemsMeasured(xs: seq<Json>, depth: nat, fmt: bool)
    requires xs != []
    ensures ItemsMeasure(xs, depth, fmt) == |PrintItems(xs, depth, fmt)| + |xs| + 1 + Flag(fmt)
  {
    if |xs| > 1 { ItemsMeasured(xs[1..], depth, fmt); }
  }

  /** An object is measured with one character to spare per object, besides the 7 it starts from. */
  lemma {:induction false} MembersMeasured(ms: seq<Entry<Json>>, depth: nat, fmt: bool)
    requires ms != []
    ensures MembersMeasure(ms, depth, fmt) == |PrintMembers(ms, depth, fmt)| + 1
  {
    if |ms| > 1 { MembersMeasured(ms[1..], depth, fmt); }
  }

  // ----- composing

  method NewText(t: string, size: nat) returns (out: array<char>)
    requires |t| < size
    ensures fresh(out) && Spells(out, 0, t) && out.Length == size
  {
    out := new char[size];
    var w := PutText(out, 0, t);
    out[w] := '\0';
    SpellsAfter(out, 0, "", t);
  }

  /** `memcpy` of a printed part, its length taken with `strlen`. */
  method PutPart(out: array<char>, w: nat, part: array<char>, ghost t: string) returns (next: nat)
    requires Spells(part, 0, t) && NoNul(t) && part != out && w + |t| <= out.Length
    modifies out
    ensures next == w + |t| && out[..next] == old(out[..w]) + t
  {
    var n := Strlen(part, 0, t);
    next := PutText(out, w, part[..n]);
  }

  /** Every part stands printed in memory of its own. */
  ghost predicate AllSpell(parts: seq<array<char>>, ts: seq<string>)
    reads parts
  {
    |parts| == |ts| && forall k :: 0 <= k < |ts| ==> NoNul(ts[k]) && Spells(parts[k], 0, ts[k])
  }

  /** The printed elements. */
  ghost function ItemTexts(xs: seq<Json>, depth: nat, fmt: bool): (ts: seq<string>)
    ensures |ts| == |xs|
  {
    seq(|xs|, k requires 0 <= k < |xs| => Print(xs[k], depth, fmt))
  }

  function Separator(last: bool, fmt: bool): string {
    if last then "" else "," + When(fmt, " ")
  }

  lemma ItemsStep(done: string, xs: seq<Json>, i: nat, depth: nat, fmt: bool)
    requires i < |xs|
    ensures done + PrintItems(xs[i..], depth, fmt)
         == done + (Print(xs[i], depth, fmt) + Separator(i == |xs| - 1, fmt)) + PrintItems(xs[i + 1..], depth, fmt)
  {
    hide Print;
    var t, blank, rest := Print(xs[i], depth, fmt), When(fmt, " "), PrintItems(xs[i + 1..], depth, fmt);
    assert xs[i..][1..] == xs[i + 1..];
    if i == |xs| - 1 {
      assert t + "" == t && done + t + "" == done + t;
    } else {
      Assoc(t, "," + blank, rest);
      Assoc(done, t + ("," + blank), rest);
    }
  }

  /** An element and, unless it is the last, a comma. */
  method PutItem(out: array<char>, w: nat, entry: array<char>, ghost t: string, last: bool, fmt: bool) returns (next: nat)
    requires Spells(entry, 0, t) && NoNul(t) && entry != out && w + |t + Separator(last, fmt)| <= out.Length
    modifies out
    ensures next == w + |t + Separator(last, fmt)| && out[..next] == old(out[..w]) + (t + Separator(last, fmt))
  {
    ghost var done := out[..w];
    next := PutPart(out, w, entry, t);
    if !last {
      next := PutText(out, next, ",");
      if fmt {
        next := PutText(out, next, " ");
      }
      assert out[..next] == done + t + "," + When(fmt, " ");
      Assoc(done + t, ",", When(fmt, " "));
    }
    Assoc(done, t, Separator(last, fmt));
  }

  /** The printed elements, with the separators between them. */
  method PutItems(out: array<char>, w0: nat, entries: seq<array<char>>, fmt: bool, ghost xs: seq<Json>, ghost depth: nat)
    returns (w: nat)
    requires AllSpell(entries, ItemTexts(xs, depth, fmt)) && out !in entries
    requires w0 + |PrintItems(xs, depth, fmt)| <= out.Length
    modifies out
    ensures w == w0 + |PrintItems(xs, depth, fmt)| && out[..w] == old(out[..w0]) + PrintItems(xs, depth, fmt)
  {
    w := w0;
    ghost var all, ts := out[..w0] + PrintItems(xs, depth, fmt), ItemTexts(xs, depth, fmt);
    assert xs[0..] == xs;
    assert PrintItems([], depth, fmt) == "";
    hide Print, PrintItems, Separator;
    var i := 0;
    while i < |entries|
      invariant i <= |xs| && w <= |all| && out[..w] + PrintItems(xs[i..], depth, fmt) == all
      invariant AllSpell(entries, ts)
    {
      ItemsStep(out[..w], xs, i, depth, fmt);
      w := PutItem(out, w, entries[i], ts[i], i == |entries| - 1, fmt);
      i := i + 1;
    }
    assert xs[i..] == [];
    assert out[..w] + "" == out[..w];
  }

  lemma AllSpellMore(parts: seq<array<char>>, ts: seq<string>, part: array<char>)
    requires |parts| < |ts| && AllSpell(parts, ts[..|parts|])
    requires NoNul(ts[|parts|]) && Spells(part, 0, ts[|parts|])
    ensures AllSpell(parts + [part], ts[..|parts| + 1])
  {
  }

  lemma ItemsMeasureStep(xs: seq<Json>, i: nat, depth: nat, fmt: bool)
    requires i < |xs|
    ensures ItemsMeasure(xs[i..], depth, fmt) == |Print(xs[i], depth, fmt)| + 2 + Flag(fmt) + ItemsMeasure(xs[i + 1..], depth, fmt)
  {
    assert xs[i..][1..] == xs[i + 1..];
  }

  /** Every element printed, and the length they add up to. */
  method CollectItems(xs: seq<Json>, depth: nat, fmt: bool) returns (entries: seq<array<char>>, len: nat)
    requires Printable(Array(xs)) && IntsFit(Array(xs))
    ensures AllSpell(entries, ItemTexts(xs, depth, fmt))
    ensures len == 5 + ItemsMeasure(xs, depth, fmt)
    decreases xs, 0
  {
    entries, len := [], 5;
    ghost var ts := ItemTexts(xs, depth, fmt);
    assert xs[0..] == xs;
    hide Print, NoNul, Spells, AllSpell, ItemsMeasure;
    assert AllSpell(entries, ts[..0]) by { NoneSpell(ts); }
    while |entries| < |xs|
      invariant |entries| <= |xs|
      invariant AllSpell(entries, ts[..|entries|])
      invariant len + ItemsMeasure(xs[|entries|..], depth, fmt) == 5 + ItemsMeasure(xs, depth, fmt)
    {
      var i := |entries|;
      assert xs[i] in xs;
      var ret := PrintValue(xs[i], depth, fmt);
      PrintNoNul(xs[i], depth, fmt);
      var n := Strlen(ret, 0, ts[i]);
      AllSpellMore(entries, ts, ret);
      ItemsMeasureStep(xs, i, depth, fmt);
      len := len + n + 2 + (if fmt then 1 else 0);
      entries := entries + [ret];
    }
    ItemsMeasureEnd(xs, depth, fmt);
    assert ts[..|ts|] == ts;
  }

  lemma NoneSpell(ts: seq<string>)
    ensures AllSpell([], ts[..0])
  {
  }

  lemma ItemsMeasureEnd(xs: seq<Json>, depth: nat, fmt: bool)
    ensures ItemsMeasure(xs[|xs|..], depth, fmt) == 0
  {
  }

  /** `print_array`. */
  method PrintArray(xs: seq<Json>, depth: nat, fmt: bool) returns (out: array<char>)
    requires Printable(Array(xs)) && IntsFit(Array(xs))
    ensures fresh(out) && Spells(out, 0, Print(Array(xs), depth, fmt))
    decreases xs, 1
  {
    if xs == [] {
      out := NewText("[]", 3);
      return;
    }
    ghost var text, body := Print(Array(xs), depth, fmt), PrintItems(xs, depth + 1, fmt);
    assert text == "" + "[" + body + "]";
    var entries, len := CollectItems(xs, depth + 1, fmt);
    ItemsMeasured(xs, depth + 1, fmt);
    out := new char[len];
    hide Print, PrintItems, ItemsMeasure, AllSpell;
    var w := PutText(out, 0, "[");
    w := PutItems(out, w, entries, fmt, xs, depth + 1);
    w := PutText(out, w, "]");
    out[w] := '\0';
    SpellsAfter(out, 0, "", text);
  }

  // ----- objects

  /** The members, each between its tabs and its line end. */
  lemma MembersStep(done: string, ms: seq<Entry<Json>>, i: nat, depth: nat, fmt: bool)
    requires i < |ms|
    ensures done + PrintMembers(ms[i..], depth, fmt)
         == done + PrintMember(ms[i], depth, fmt, i == |ms| - 1) + PrintMembers(ms[i + 1..], depth, fmt)
  {
    hide PrintMember;
    assert ms[i..][1..] == ms[i + 1..];
    Assoc(done, PrintMember(ms[i], depth, fmt, i == |ms| - 1), PrintMembers(ms[i + 1..], depth, fmt));
  }

  method PutTabs(out: array<char>, w: nat, depth: nat) returns (next: nat)
    requires w + depth <= out.Length
    modifies out
    ensures next == w + depth && out[..next] == old(out[..w]) + Tabs(depth)
  {
    var j := 0;
    while j < depth
      invariant j <= depth && out[..w + j] == old(out[..w]) + Tabs(j)
    {
      out[w + j] := '\t';
      j := j + 1;
      assert out[..w + j] == out[..w + (j - 1)] + ['\t'];
    }
    next := w + j;
  }

  method PutWhen(out: array<char>, w: nat, b: bool, t: string) returns (next: nat)
    requires w + |When(b, t)| <= out.Length
    modifies out
    ensures next == w + |When(b, t)| && out[..next] == old(out[..w]) + When(b, t)
  {
    next := w;
    if b { next := PutText(out, w, t); }
  }

  /** One member: tabs, name, colon, value, and a comma unless it is the last. */
  method PutMember(out: array<char>, w: nat, name: array<char>, entry: array<char>, depth: nat, fmt: bool, last: bool,
                   ghost m: Entry<Json>) returns (next: nat)
    requires Spells(name, 0, Quote(m.name)) && NoNul(Quote(m.name)) && name != out
    requires Spells(entry, 0, Print(m.item, depth, fmt)) && NoNul(Print(m.item, depth, fmt)) && entry != out
    requires w + |PrintMember(m, depth, fmt, last)| <= out.Length
    modifies out
    ensures next == w + |PrintMember(m, depth, fmt, last)|
    ensures out[..next] == old(out[..w]) + PrintMember(m, depth, fmt, last)
  {
    hide Print, Quote, NoNul;
    ghost var done, q, p := out[..w], Quote(m.name), Print(m.item, depth, fmt);
    assert Tabs(if fmt then depth else 0) == When(fmt, Tabs(depth));
    MemberText(done, When(fmt, Tabs(depth)), q, When(fmt, "\t"), p, When(!last, ","), When(fmt, "\n"));
    hide When;
    next := PutTabs(out, w, if fmt then depth else 0);
    next := PutPart(out, next, name, q);
    next := PutText(out, next, ":");
    next := PutWhen(out, next, fmt, "\t");
    next := PutPart(out, next, entry, p);
    next := PutWhen(out, next, !last, ",");
    next := PutWhen(out, next, fmt, "\n");
  }

  lemma MemberText(done: string, w: string, q: string, t: string, p: string, c: string, n: string)
    ensures done + (w + q + ":" + t + p + c + n) == done + w + q + ":" + t + p + c + n
  {
    Assoc(done, w + q + ":" + t + p + c, n);
    Assoc(done, w + q + ":" + t + p, c);
    Assoc(done, w + q + ":" + t, p);
    Assoc(done, w + q + ":", t);
    Assoc(done, w + q, ":");
    Assoc(done, w, q);
  }

  /** The printed names. */
  ghost function NameTexts(ms: seq<Entry<Json>>): (ts: seq<string>)
    ensures |ts| == |ms|
  {
    seq(|ms|, k requires 0 <= k < |ms| => Quote(ms[k].name))
  }

  /** The printed values. */
  ghost function ValueTexts(ms: seq<Entry<Json>>, depth: nat, fmt: bool): (ts: seq<string>)
    ensures |ts| == |ms|
  {
    seq(|ms|, k requires 0 <= k < |ms| => Print(ms[k].item, depth, fmt))
  }

  lemma PartSpells(parts: seq<array<char>>, ts: seq<string>, i: nat)
    requires AllSpell(parts, ts) && i < |ts|
    ensures |parts| == |ts| && NoNul(ts[i]) && Spells(parts[i], 0, ts[i])
  {
  }

  method PutMembers(out: array<char>, w0: nat, names: seq<array<char>>, entries: seq<array<char>>, depth: nat, fmt: bool,
                    ghost ms: seq<Entry<Json>>) returns (w: nat)
    requires AllSpell(names, NameTexts(ms)) && AllSpell(entries, ValueTexts(ms, depth, fmt))
    requires |names| == |entries| == |ms| && out !in names && out !in entries
    requires w0 + |PrintMembers(ms, depth, fmt)| <= out.Length
    modifies out
    ensures w == w0 + |PrintMembers(ms, depth, fmt)| && out[..w] == old(out[..w0]) + PrintMembers(ms, depth, fmt)
  {
    hide *;
    w := w0;
    ghost var all := out[..w0] + PrintMembers(ms, depth, fmt);
    ghost var ns, vs := NameTexts(ms), ValueTexts(ms, depth, fmt);
    WholeList(ms, depth, fmt);
    var i := 0;
    while i < |entries|
      invariant i <= |ms| && w <= |all| && out[..w] + PrintMembers(ms[i..], depth, fmt) == all
      invariant AllSpell(names, ns) && AllSpell(entries, vs)
    {
      MembersStep(out[..w], ms, i, depth, fmt);
      PartSpells(names, ns, i);
      PartSpells(entries, vs, i);
      TextsAt(ms, depth, fmt, i);
      w := PutMember(out, w, names[i], entries[i], depth, fmt, i == |entries| - 1, ms[i]);
      i := i + 1;
    }
    assert out[..w] + "" == out[..w];
  }

  lemma WholeList(ms: seq<Entry<Json>>, depth: nat, fmt: bool)
    ensures ms[0..] == ms && ms[|ms|..] == [] && PrintMembers([], depth, fmt) == ""
  {
  }

  lemma TextsAt(ms: seq<Entry<Json>>, depth: nat, fmt: bool, i: nat)
    requires i < |ms|
    ensures NameTexts(ms)[i] == Quote(ms[i].name) && ValueTexts(ms, depth, fmt)[i] == Print(ms[i].item, depth, fmt)
  {
    hide Quote, Print;
  }

  lemma QuoteNoNul(s: string)
    ensures NoNul(Quote(s))
  {
    EscapeTextNoNul(s);
  }

  lemma MembersMeasureStep(ms: seq<Entry<Json>>, i: nat, depth: nat, fmt: bool)
    requires i < |ms|
    ensures MembersMeasure(ms[i..], depth, fmt)
         == |Print(ms[i].item, depth, fmt)| + |Quote(ms[i].name)| + 2 + (if fmt then 2 + depth else 0)
            + MembersMeasure(ms[i + 1..], depth, fmt)
  {
    assert ms[i..][1..] == ms[i + 1..];
  }

  /** One name and value printed, and what they add to the length. */
  method CollectMember(m: Entry<Json>, depth: nat, fmt: bool) returns (str: array<char>, ret: array<char>, size: nat)
    requires NoNul(m.name) && Printable(m.item) && IntsFit(m.item)
    ensures Spells(str, 0, Quote(m.name)) && Spells(ret, 0, Print(m.item, depth, fmt))
    ensures NoNul(Quote(m.name)) && NoNul(Print(m.item, depth, fmt))
    ensures size == |Print(m.item, depth, fmt)| + |Quote(m.name)| + 2 + (if fmt then 2 + depth else 0)
    decreases m
  {
    hide Print, Quote, IntsFit, Printable;
    str := PrintString(m.name);
    ret := PrintValue(m.item, depth, fmt);
    QuoteNoNul(m.name);
    PrintNoNul(m.item, depth, fmt);
    var n := Strlen(str, 0, Quote(m.name));
    var k := Strlen(ret, 0, Print(m.item, depth, fmt));
    size := k + n + 2 + (if fmt then 2 + depth else 0);
  }

  lemma MembersMeasureEnd(ms: seq<Entry<Json>>, depth: nat, fmt: bool)
    ensures MembersMeasure(ms[|ms|..], depth, fmt) == 0
  {
  }

  lemma ItemHolds(xs: seq<Json>, i: nat)
    requires Printable(Array(xs)) && IntsFit(Array(xs)) && i < |xs|
    ensures Printable(xs[i]) && IntsFit(xs[i])
  {
    assert xs[i] in xs;
  }

  lemma MemberHolds(ms: seq<Entry<Json>>, i: nat)
    requires Printable(Object(ms)) && IntsFit(Object(ms)) && i < |ms|
    ensures NoNul(ms[i].name) && Printable(ms[i].item) && IntsFit(ms[i].item)
  {
    assert ms[i] in ms;
  }

  /** The first members are printed and measured. */
  ghost predicate Collected(names: seq<array<char>>, entries: seq<array<char>>, len: nat, ms: seq<Entry<Json>>,
                            depth: nat, fmt: bool)
    reads names, entries
  {
    && |names| == |entries| <= |ms|
    && AllSpell(names, NameTexts(ms)[..|names|]) && AllSpell(entries, ValueTexts(ms, depth, fmt)[..|names|])
    && len + MembersMeasure(ms[|names|..], depth, fmt) == MembersMeasure(ms, depth, fmt)
  }

  lemma CollectedNone(ms: seq<Entry<Json>>, depth: nat, fmt: bool)
    ensures Collected([], [], 0, ms, depth, fmt)
  {
    assert ms[0..] == ms;
  }

  lemma CollectedMore(names: seq<array<char>>, entries: seq<array<char>>, len: nat, ms: seq<Entry<Json>>, depth: nat, fmt: bool,
                      name: array<char>, entry: array<char>)
    requires Collected(names, entries, len, ms, depth, fmt) && |names| < |ms|
    requires var m := ms[|names|];
      && Spells(name, 0, Quote(m.name)) && Spells(entry, 0, Print(m.item, depth, fmt))
      && NoNul(Quote(m.name)) && NoNul(Print(m.item, depth, fmt))
    ensures var m := ms[|names|];
      Collected(names + [name], entries + [entry],
                len + (|Print(m.item, depth, fmt)| + |Quote(m.name)| + 2 + (if fmt then 2 + depth else 0)), ms, depth, fmt)
  {
    hide Print, Quote, NoNul, Spells, AllSpell, MembersMeasure;
    AllSpellMore(names, NameTexts(ms), name);
    AllSpellMore(entries, ValueTexts(ms, depth, fmt), entry);
    MembersMeasureStep(ms, |names|, depth, fmt);
  }

  lemma CollectedAll(names: seq<array<char>>, entries: seq<array<char>>, len: nat, ms: seq<Entry<Json>>, depth: nat, fmt: bool)
    requires Collected(names, entries, len, ms, depth, fmt) && |names| >= |ms|
    ensures AllSpell(names, NameTexts(ms)) && AllSpell(entries, ValueTexts(ms, depth, fmt)) && |names| == |entries| == |ms|
    ensures len == MembersMeasure(ms, depth, fmt)
  {
    hide AllSpell;
    MembersMeasureEnd(ms, depth, fmt);
    assert NameTexts(ms)[..|ms|] == NameTexts(ms) && ValueTexts(ms, depth, fmt)[..|ms|] == ValueTexts(ms, depth, fmt);
  }

  /** The next name and value printed. */
  method CollectNext(names0: seq<array<char>>, entries0: seq<array<char>>, len0: nat, ms: seq<Entry<Json>>, depth: nat, fmt: bool)
    returns (names: seq<array<char>>, entries: seq<array<char>>, len: nat)
    requires Printable(Object(ms)) && IntsFit(Object(ms))
    requires Collected(names0, entries0, len0, ms, depth, fmt) && |names0| < |ms|
    ensures Collected(names, entries, len, ms, depth, fmt) && |names| == |names0| + 1
    decreases ms, 0
  {
    hide *;
    MemberHolds(ms, |names0|);
    var str, ret, size := CollectMember(ms[|names0|], depth, fmt);
    CollectedMore(names0, entries0, len0, ms, depth, fmt, str, ret);
    names, entries, len := names0 + [str], entries0 + [ret], len0 + size;
  }

  /** Every name and value printed, and the length they add up to. */
  method CollectMembers(ms: seq<Entry<Json>>, depth: nat, fmt: bool)
    returns (names: seq<array<char>>, entries: seq<array<char>>, len: nat)
    requires Printable(Object(ms)) && IntsFit(Object(ms))
    ensures AllSpell(names, NameTexts(ms)) && AllSpell(entries, ValueTexts(ms, depth, fmt)) && |names| == |entries| == |ms|
    ensures len == MembersMeasure(ms, depth, fmt)
    decreases ms, 1
  {
    names, entries, len := [], [], 0;
    hide *;
    CollectedNone(ms, depth, fmt);
    while |names| < |ms|
      invariant |names| <= |ms| && Collected(names, entries, len, ms, depth, fmt)
    {
      names, entries, len := CollectNext(names, entries, len, ms, depth, fmt);
    }
    CollectedAll(names, entries, len, ms, depth, fmt);
  }

  method PutClosing(out: array<char>, w: nat, depth: nat, fmt: bool, ghost before: string)
    requires w == |before| && w + |When(fmt, Tabs(depth)) + "}"| < out.Length && out[..w] == before
    modifies out
    ensures Spells(out, 0, before + (When(fmt, Tabs(depth)) + "}"))
  {
    ghost var tabs := When(fmt, Tabs(depth));
    assert Tabs(if fmt then depth else 0) == tabs;
    var next := PutTabs(out, w, if fmt then depth else 0);
    next := PutText(out, next, "}");
    out[next] := '\0';
    Assoc(before, tabs, "}");
    SpellsAfter(out, 0, "", before + (tabs + "}"));
  }

  lemma ObjectText(ms: seq<Entry<Json>>, depth: nat, fmt: bool)
    ensures Print(Object(ms), depth, fmt)
         == "{" + When(fmt, "\n") + PrintMembers(ms, depth + 1, fmt) + (When(fmt, Tabs(depth)) + "}")
  {
    hide PrintMembers;
    Assoc("{" + When(fmt, "\n") + PrintMembers(ms, depth + 1, fmt), When(fmt, Tabs(depth)), "}");
  }

  /** The printed members between braces. */
  method ComposeObject(out: array<char>, names: seq<array<char>>, entries: seq<array<char>>, ms: seq<Entry<Json>>, depth: nat,
                       fmt: bool)
    requires AllSpell(names, NameTexts(ms)) && AllSpell(entries, ValueTexts(ms, depth + 1, fmt))
    requires |names| == |entries| == |ms| && out !in names && out !in entries
    requires |Print(Object(ms), depth, fmt)| < out.Length
    modifies out
    ensures Spells(out, 0, Print(Object(ms), depth, fmt))
  {
    ghost var opening, body, closing := "{" + When(fmt, "\n"), PrintMembers(ms, depth + 1, fmt), When(fmt, Tabs(depth)) + "}";
    ObjectText(ms, depth, fmt);
    hide PrintMembers, Print, AllSpell, Spells, Tabs;
    var w := PutText(out, 0, "{");
    w := PutWhen(out, w, fmt, "\n");
    assert out[..w] == opening;
    w := PutMembers(out, w, names, entries, depth + 1, fmt, ms);
    PutClosing(out, w, depth, fmt, opening + body);
  }

  lemma ObjectMeasured(ms: seq<Entry<Json>>, depth: nat, fmt: bool)
    ensures |Print(Object(ms), depth, fmt)| <
      if ms == [] then (if fmt then depth + 4 else 3)
      else 7 + (if fmt then depth + 1 else 0) + MembersMeasure(ms, depth + 1, fmt)
  {
    if ms != [] { MembersMeasured(ms, depth + 1, fmt); }
  }

  /** `print_object`. */
  method PrintObject(ms: seq<Entry<Json>>, depth: nat, fmt: bool) returns (out: array<char>)
    requires Printable(Object(ms)) && IntsFit(Object(ms))
    ensures fresh(out) && Spells(out, 0, Print(Object(ms), depth, fmt))
    decreases ms, 2
  {
    ObjectMeasured(ms, depth, fmt);
    hide Print, MembersMeasure;
    if ms == [] {
      out := new char[if fmt then depth + 4 else 3];
      ComposeObject(out, [], [], ms, depth, fmt);
    } else {
      var names, entries, len := CollectMembers(ms, depth + 1, fmt);
      out := new char[7 + (if fmt then depth + 1 else 0) + len];
      ComposeObject(out, names, entries, ms, depth, fmt);
    }
  }

  /** `print_value`. */
  method PrintValue(v: Json, depth: nat, fmt: bool) returns (out: array<char>)
    requires Printable(v) && IntsFit(v)
    ensures fresh(out) && Spells(out, 0, Print(v, depth, fmt))
    decreases v, 3
  {
    match v {
      case Null => out := NewText("null", 5);
      case False => out := NewText("false", 6);
      case True => out := NewText("true", 5);
      case Number(n) =>
        IntTextShort(n);
        out := NewText(IntText(n), if n == 0 then 2 else 21);
      case String(s) => out := PrintString(s);
      case Array(xs) => out := PrintArray(xs, depth, fmt);
      case Object(ms) => out := PrintObject(ms, depth, fmt);
    }
  }
}
