/** The text cJSON prints for a value tree, formatted or not. */
module Text {
  import opened Json
  import opened Numerals

  function IntText(n: int): string {
    if n < 0 then "-" + Digits(-n) else Digits(n)
  }

  /** A numeral without leading zeros, behind a minus sign for a negative number. */
  lemma IntTextIs(n: int) returns (ds: string)
    ensures IntText(n) == (if n < 0 then "-" + ds else ds) && AllDigits(ds)
    ensures Decimal(ds) == (if n < 0 then -n else n) && ds != [] && (ds[0] == '0' ==> ds == "0")
  {
    var m: nat := if n < 0 then -n else n;
    ds := Digits(m);
    DigitsDecimal(m);
    hide Digits, Decimal, AllDigits;
  }

  function HexChar(d: nat): char
    requires d < 16
  {
    if d < 10 then ('0' as int + d) as char else ('a' as int + (d - 10)) as char
  }

  /** "%04x". */
  function Hex4(n: nat): string
    requires n < 0x1_0000
  {
    [HexChar(n / 0x1000), HexChar(n / 0x100 % 0x10), HexChar(n / 0x10 % 0x10), HexChar(n % 0x10)]
  }

  const BACKSPACE: char := 8 as char
  const FORM_FEED: char := 12 as char

  predicate NeedsEscape(c: char) {
    c as int < 32 || c == '\"' || c == '\\'
  }

  function EscapeChar(c: char): string {
    if !NeedsEscape(c) then [c]
    else if c == '\\' then "\\\\"
    else if c == '\"' then "\\\""
    else if c == BACKSPACE then "\\b"
    else if c == FORM_FEED then "\\f"
    else if c == '\n' then "\\n"
    else if c == '\r' then "\\r"
    else if c == '\t' then "\\t"
    else "\\u" + Hex4(c as nat)
  }

  /** Seven characters are written with a letter behind a backslash, the other control characters as four
      hexadecimal digits, and all others stand for themselves. */
  lemma EscapeCharIs(c: char)
    ensures var marks, letters := ['\"', '\\', 8 as char, '\t', '\n', 12 as char, '\r'], "\"\\btnfr";
      && (forall i :: 0 <= i < 7 ==> EscapeChar(marks[i]) == ['\\', letters[i]])
      && (c !in marks && c as int >= 32 ==> EscapeChar(c) == [c])
    ensures c as int < 32 && c !in [8 as char, '\t', '\n', 12 as char, '\r'] ==>
      var digits := "0123456789abcdef"; EscapeChar(c) == ['\\', 'u', '0', '0', digits[c as int / 16], digits[c as int % 16]]
  {
    if c as int < 32 { ControlCode(c as nat); }
    hide Hex4;
  }

  lemma ControlCode(n: nat)
    requires n < 32
    ensures Hex4(n) == ['0', '0', "0123456789abcdef"[n / 16], "0123456789abcdef"[n % 16]]
  {
    assert n / 0x1000 == 0 && n / 0x100 % 0x10 == 0 && n / 0x10 % 0x10 == n / 16;
  }

  function EscapeText(s: string): string {
    if s == [] then "" else EscapeChar(s[0]) + EscapeText(s[1..])
  }

  /** `print_string_ptr`. */
  function Quote(s: string): string {
    "\"" + EscapeText(s) + "\""
  }

  function Tabs(n: nat): (r: string)
    ensures |r| == n && forall i :: 0 <= i < n ==> r[i] == '\t'
  {
    seq(n, _ => '\t')
  }

  function When(b: bool, s: string): string {
    if b then s else ""
  }

  /** `print_value`. */
  function Print(v: Json, depth: nat, fmt: bool): string {
    match v
    case Null => "null"
    case False => "false"
    case True => "true"
    case Number(n) => IntText(n)
    case String(s) => Quote(s)
    case Array(xs) => if xs == [] then "[]" else "[" + PrintItems(xs, depth + 1, fmt) + "]"
    case Object(ms) =>
      "{" + When(fmt, "\n") + PrintMembers(ms, depth + 1, fmt) + When(fmt, Tabs(depth)) + "}"
  }

  function PrintItems(xs: seq<Json>, depth: nat, fmt: bool): string {
    if xs == [] then ""
    else
      Print(xs[0], depth, fmt)
      + (if |xs| == 1 then "" else "," + When(fmt, " ") + PrintItems(xs[1..], depth, fmt))
  }

  function PrintMember(m: Entry<Json>, depth: nat, fmt: bool, last: bool): string {
    When(fmt, Tabs(depth)) + Quote(m.name) + ":" + When(fmt, "\t") + Print(m.item, depth, fmt)
    + When(!last, ",") + When(fmt, "\n")
  }

  function PrintMembers(ms: seq<Entry<Json>>, depth: nat, fmt: bool): string {
    if ms == [] then ""
    else PrintMember(ms[0], depth, fmt, |ms| == 1) + PrintMembers(ms[1..], depth, fmt)
  }

  // ----- the same text in front of a given rest

  function QuoteThen(s: string, k: string): string {
    "\"" + (EscapeText(s) + ("\"" + k))
  }

  function PrintThen(v: Json, depth: nat, fmt: bool, k: string): string {
    match v
    case Null => "null" + k
    case False => "false" + k
    case True => "true" + k
    case Number(n) => IntText(n) + k
    case String(s) => QuoteThen(s, k)
    case Array(xs) => if xs == [] then "[" + ("]" + k) else "[" + ItemsThen(xs, depth + 1, fmt, "]" + k)
    case Object(ms) =>
      "{" + (When(fmt, "\n") + MembersThen(ms, depth + 1, fmt, When(fmt, Tabs(depth)) + ("}" + k)))
  }

  function ItemsThen(xs: seq<Json>, depth: nat, fmt: bool, k: string): string {
    if xs == [] then k
    else
      PrintThen(xs[0], depth, fmt,
                if |xs| == 1 then k else "," + (When(fmt, " ") + ItemsThen(xs[1..], depth, fmt, k)))
  }

  function MembersThen(ms: seq<Entry<Json>>, depth: nat, fmt: bool, k: string): string {
    if ms == [] then k
    else
      When(fmt, Tabs(depth))
      + QuoteThen(ms[0].name, ":" + (When(fmt, "\t")
                  + PrintThen(ms[0].item, depth, fmt,
                              When(|ms| != 1, ",") + (When(fmt, "\n") + MembersThen(ms[1..], depth, fmt, k)))))
  }

  lemma Assoc(a: string, b: string, c: string)
    ensures (a + b) + c == a + (b + c)
  {
  }

  lemma QuoteThenIs(s: string, k: string)
    ensures QuoteThen(s, k) == Quote(s) + k
  {
    Assoc("\"", EscapeText(s), "\"");
    Assoc("\"", EscapeText(s) + "\"", k);
    Assoc(EscapeText(s), "\"", k);
  }

  lemma {:induction false} PrintThenIs(v: Json, depth: nat, fmt: bool, k: string)
    ensures PrintThen(v, depth, fmt, k) == Print(v, depth, fmt) + k
    decreases v, 1, 0
  {
    match v {
      case String(s) => QuoteThenIs(s, k);
      case Array(xs) =>
        if xs != [] {
          var t := PrintItems(xs, depth + 1, fmt);
          ItemsThenIs(xs, depth + 1, fmt, "]" + k);
          Assoc("[", t, "]");
          Assoc("[", t + "]", k);
          Assoc(t, "]", k);
        }
      case Object(ms) =>
        var n, t, tabs := When(fmt, "\n"), PrintMembers(ms, depth + 1, fmt), When(fmt, Tabs(depth));
        MembersThenIs(ms, depth + 1, fmt, tabs + ("}" + k));
        ObjectPieces(n, t, tabs, k);
      case _ =>
    }
  }

  lemma ObjectPieces(n: string, t: string, tabs: string, k: string)
    ensures "{" + n + t + tabs + "}" + k == "{" + (n + (t + (tabs + ("}" + k))))
  {
    Assoc("{", n, t);
    Assoc("{", n + t, tabs);
    Assoc("{", n + t + tabs, "}");
    Assoc("{", n + t + tabs + "}", k);
    Assoc(n + t + tabs, "}", k);
    Assoc(n + t, tabs, "}" + k);
    Assoc(n, t, tabs + ("}" + k));
  }

  lemma {:induction false} ItemsThenIs(xs: seq<Json>, depth: nat, fmt: bool, k: string)
    ensures ItemsThen(xs, depth, fmt, k) == PrintItems(xs, depth, fmt) + k
    decreases xs, 0, 0
  {
    if xs == [] {
      assert "" + k == k;
    } else if |xs| == 1 {
      PrintThenIs(xs[0], depth, fmt, k);
      assert Print(xs[0], depth, fmt) + "" == Print(xs[0], depth, fmt);
    } else {
      var a, b, c := Print(xs[0], depth, fmt), When(fmt, " "), PrintItems(xs[1..], depth, fmt);
      PrintThenIs(xs[0], depth, fmt, "," + (b + (c + k)));
      ItemsThenIs(xs[1..], depth, fmt, k);
      Assoc(a, "," + b + c, k);
      Assoc(",", b, c);
      Assoc(",", b + c, k);
      Assoc(b, c, k);
    }
  }

  lemma {:induction false} MembersThenIs(ms: seq<Entry<Json>>, depth: nat, fmt: bool, k: string)
    ensures MembersThen(ms, depth, fmt, k) == PrintMembers(ms, depth, fmt) + k
    decreases ms, 0, 0
  {
    if ms == [] {
      assert "" + k == k;
    } else {
      var w, q, t, p := When(fmt, Tabs(depth)), Quote(ms[0].name), When(fmt, "\t"), Print(ms[0].item, depth, fmt);
      var c, n, r := When(|ms| != 1, ","), When(fmt, "\n"), PrintMembers(ms[1..], depth, fmt);
      MembersThenIs(ms[1..], depth, fmt, k);
      PrintThenIs(ms[0].item, depth, fmt, c + (n + (r + k)));
      QuoteThenIs(ms[0].name, ":" + (t + (p + (c + (n + (r + k))))));
      MemberPieces(w, q, t, p, c, n, r, k);
    }
  }

  lemma MemberPieces(w: string, q: string, t: string, p: string, c: string, n: string, r: string, k: string)
    ensures ((w + q + ":" + t + p + c + n) + r) + k == w + (q + (":" + (t + (p + (c + (n + (r + k)))))))
  {
    Assoc(w + q + ":" + t + p + c + n, r, k);
    Assoc(w + q + ":" + t + p + c, n, r + k);
    Assoc(w + q + ":" + t + p, c, n + (r + k));
    Assoc(w + q + ":" + t, p, c + (n + (r + k)));
    Assoc(w + q + ":", t, p + (c + (n + (r + k))));
    Assoc(w + q, ":", t + (p + (c + (n + (r + k)))));
    Assoc(w, q, ":" + (t + (p + (c + (n + (r + k))))));
  }

  // ----- trees that C strings can hold

  predicate NoNul(s: string) {
    '\0' !in s
  }

  ghost predicate Printable(v: Json) {
    match v
    case String(s) => NoNul(s)
    case Array(xs) => forall x | x in xs :: Printable(x)
    case Object(ms) => forall m | m in ms :: NoNul(m.name) && Printable(m.item)
    case _ => true
  }
}
