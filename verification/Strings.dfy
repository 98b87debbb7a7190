/** Text in C memory: character arrays with a terminator, and the printing of a quoted string into one. */
module Strings {
  import opened Json
  import opened Numerals
  import opened Text

  /** The terminated string `t` stands in `a` at `at`. */
  ghost predicate Spells(a: array<char>, at: nat, t: string)
    reads a
  {
    at + |t| < a.Length && a[at..at + |t|] == t && a[at + |t|] == '\0'
  }

  /** `strlen`. */
  method Strlen(a: array<char>, at: nat, ghost t: string) returns (n: nat)
    requires Spells(a, at, t) && NoNul(t)
    ensures n == |t|
  {
    n := 0;
    while a[at + n] != '\0'
      invariant n <= |t|
      decreases |t| - n
    {
      n := n + 1;
    }
  }

  /** Writing a text character by character, without a terminator. */
  method PutText(out: array<char>, w: nat, t: string) returns (next: nat)
    requires w + |t| <= out.Length
    modifies out
    ensures next == w + |t| && out[..next] == old(out[..w]) + t
  {
    var n := 0;
    while n < |t|
      invariant n <= |t| && out[..w + n] == old(out[..w]) + t[..n]
    {
      out[w + n] := t[n];
      n := n + 1;
      assert out[..w + n] == out[..w + (n - 1)] + [t[n - 1]];
    }
    next := w + n;
  }

  lemma SpellsAfter(a: array<char>, w: nat, before: string, t: string)
    requires w == |before| && w + |t| < a.Length
    requires a[..w + |t|] == before + t && a[w + |t|] == '\0'
    ensures Spells(a, w, t) && a[..w] == before
  {
    assert a[w..w + |t|] == a[..w + |t|][w..];
    assert a[..w] == a[..w + |t|][..w];
  }

  // ----- strings

  /** Everything `print_string_ptr` escapes is something `strchr` finds or unprintable. */
  method NeedsEscapes(str: string) returns (flag: bool)
    requires NoNul(str)
    ensures !flag ==> EscapeText(str) == str
    ensures flag <==> exists k :: 0 <= k < |str| && NeedsEscape(str[k])
  {
    flag := false;
    var p := 0;
    while p < |str|
      invariant p <= |str| && (flag <==> exists k :: 0 <= k < p && NeedsEscape(str[k]))
    {
      assert str[p] in str;
      flag := flag || 0 < str[p] as int < 32 || str[p] == '\"' || str[p] == '\\';
      p := p + 1;
    }
    if !flag { NothingEscaped(str); }
  }

  lemma {:induction false} NothingEscaped(str: string)
    requires forall c :: c in str ==> !NeedsEscape(c)
    ensures EscapeText(str) == str
  {
    if str != [] {
      NothingEscaped(str[1..]);
      assert [str[0]] + str[1..] == str;
    }
  }

  lemma EscapeLength(c: char)
    ensures |EscapeChar(c)| ==
      if c in ['\"', '\\', BACKSPACE, FORM_FEED, '\n', '\r', '\t'] then 2
      else if c as int < 32 then 6
      else 1
  {
  }

  /** The counting pass: exactly the length of the escaped text. */
  method Measure(str: string) returns (len: nat)
    requires NoNul(str)
    ensures len == |EscapeText(str)|
  {
    hide EscapeChar;
    len := 0;
    var p := 0;
    while p < |str|
      invariant p <= |str| && len + |EscapeText(str[p..])| == |EscapeText(str)|
    {
      assert str[p..][1..] == str[p + 1..];
      var token := str[p];
      EscapeLength(token);
      len := len + 1;
      if token in ['\"', '\\', BACKSPACE, FORM_FEED, '\n', '\r', '\t'] {
        len := len + 1;
      } else if token as int < 32 {
        len := len + 5;
      }
      p := p + 1;
    }
  }

  /** What follows the backslash. */
  function EscapeCode(token: char): string
    requires NeedsEscape(token)
  {
    if token == '\\' then "\\"
    else if token == '\"' then "\""
    else if token == BACKSPACE then "b"
    else if token == FORM_FEED then "f"
    else if token == '\n' then "n"
    else if token == '\r' then "r"
    else if token == '\t' then "t"
    else "u" + Hex4(token as nat)
  }

  lemma EscapeIsCode(token: char)
    ensures NeedsEscape(token) ==> EscapeChar(token) == "\\" + EscapeCode(token)
    ensures !NeedsEscape(token) ==> EscapeChar(token) == [token]
  {
    hide Hex4;
  }

  /** One character of the string, escaped when it has to be. */
  method PutEscape(out: array<char>, w: nat, token: char) returns (next: nat)
    requires w + |EscapeChar(token)| <= out.Length
    modifies out
    ensures next == w + |EscapeChar(token)| && out[..next] == old(out[..w]) + EscapeChar(token)
  {
    EscapeIsCode(token);
    hide EscapeChar, EscapeCode;
    if token as int > 31 && token != '\"' && token != '\\' {
      next := PutText(out, w, [token]);
    } else {
      next := PutText(out, w, "\\");
      next := PutText(out, next, EscapeCode(token));
    }
  }

  /** The copying pass, one character of the string at a time. */
  method PutEscaped(out: array<char>, w0: nat, str: string) returns (w: nat)
    requires NoNul(str) && w0 + |EscapeText(str)| <= out.Length
    modifies out
    ensures w == w0 + |EscapeText(str)| && out[..w] == old(out[..w0]) + EscapeText(str)
  {
    hide EscapeChar;
    w := w0;
    var p := 0;
    assert str[0..] == str;
    ghost var before := out[..w0];
    while p < |str|
      invariant p <= |str| && w + |EscapeText(str[p..])| == w0 + |EscapeText(str)|
      invariant out[..w] + EscapeText(str[p..]) == before + EscapeText(str)
    {
      assert str[p..][1..] == str[p + 1..];
      Assoc(out[..w], EscapeChar(str[p]), EscapeText(str[p + 1..]));
      w := PutEscape(out, w, str[p]);
      p := p + 1;
    }
    assert out[..w] + "" == out[..w];
  }

  /** `print_string_ptr` once it has `len + 3` characters at `w0`. */
  method PutQuoted(out: array<char>, w0: nat, str: string, flag: bool)
    requires NoNul(str) && w0 + |EscapeText(str)| + 3 <= out.Length
    requires !flag ==> EscapeText(str) == str
    modifies out
    ensures out[..w0] == old(out[..w0]) && Spells(out, w0, Quote(str))
  {
    ghost var before := out[..w0];
    var w := PutText(out, w0, "\"");
    if !flag {
      w := PutText(out, w, str);
    } else {
      w := PutEscaped(out, w, str);
    }
    w := PutText(out, w, "\"");
    out[w] := '\0';
    assert out[..w] == before + Quote(str) by {
      Assoc(before, "\"", EscapeText(str));
      Assoc(before, "\"" + EscapeText(str), "\"");
    }
    SpellsAfter(out, w0, before, Quote(str));
  }

  /** `print_string_ptr` without a buffer: exactly the characters needed are allocated. */
  method PrintString(str: string) returns (out: array<char>)
    requires NoNul(str)
    ensures fresh(out) && Spells(out, 0, Quote(str)) && out.Length == |Quote(str)| + 1
  {
    var flag := NeedsEscapes(str);
    var len := |str|;
    if flag { len := Measure(str); }
    out := new char[len + 3];
    PutQuoted(out, 0, str, flag);
  }
}
