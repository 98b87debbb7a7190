/** The parser as it runs: cursors over a terminated text, loops, and an output buffer whose
    size the scanning pass fixed. `CharAt(s, |s|)` is the terminator; no cursor passes it. */
module Parser {
  import opened Json
  import opened Numerals
  import opened Text
  import opened Parse

  function CharAt(s: string, i: nat): char
    requires i <= |s|
  {
    if i == |s| then '\0' else s[i]
  }

  lemma At(s: string, i: nat)
    requires NoNul(s) && i <= |s|
    ensures i == |s| <==> CharAt(s, i) == '\0'
    ensures i == |s| <==> s[i..] == []
    ensures i < |s| ==> s[i..][0] == s[i] == CharAt(s, i) && s[i..][1..] == s[i + 1..]
  {
    if i < |s| { assert s[i] in s; }
  }

  method SkipAt(s: string, i: nat) returns (j: nat)
    requires NoNul(s) && i <= |s|
    ensures i <= j <= |s| && s[j..] == Skip(s[i..])
  {
    j := i;
    At(s, j);
    while CharAt(s, j) != '\0' && CharAt(s, j) as int <= 32
      invariant i <= j <= |s| && Skip(s[j..]) == Skip(s[i..])
      invariant CharAt(s, j) == '\0' <==> j == |s|
      decreases |s| - j
    {
      At(s, j);
      j := j + 1;
      At(s, j);
    }
    At(s, j);
  }

  // ----- numbers

  method DigitsAt(s: string, i: nat, acc: nat) returns (n: nat, j: nat)
    requires NoNul(s) && i <= |s|
    ensures i <= j <= |s| && ReadDigits(s[i..], acc) == (n, s[j..])
    ensures StartsDigit(s[i..]) ==> i < j
  {
    n, j := acc, i;
    At(s, j);
    while IsDigit(CharAt(s, j))
      invariant i <= j <= |s| && ReadDigits(s[j..], n) == ReadDigits(s[i..], acc)
      invariant i == j ==> CharAt(s, j) == CharAt(s, i)
      decreases |s| - j
    {
      At(s, j);
      n := n * 10 + (CharAt(s, j) as int - '0' as int);
      j := j + 1;
    }
    At(s, j);
  }

  /** The digits after the point, each lowering the scale by one. */
  method FractionAt(s: string, i: nat, acc: nat) returns (n: nat, scale: int, j: nat)
    requires NoNul(s) && i <= |s|
    ensures i <= j <= |s| && ParseFraction(s[i..], acc) == (n, -scale, s[j..])
  {
    n, scale, j := acc, 0, i;
    At(s, i);
    if CharAt(s, i) == '.' {
      At(s, i + 1);
      if IsDigit(CharAt(s, i + 1)) {
        j := i + 1;
        while IsDigit(CharAt(s, j))
          invariant i + 1 <= j <= |s| && ReadDigits(s[j..], n) == ReadDigits(s[i + 1..], acc)
          invariant scale == i + 1 - j
          decreases |s| - j
        {
          At(s, j);
          n := n * 10 + (CharAt(s, j) as int - '0' as int);
          j := j + 1;
          scale := scale - 1;
        }
        At(s, j);
        assert |s[i + 1..]| - |s[j..]| == j - (i + 1);
      }
    }
  }

  method ExponentAt(s: string, i: nat) returns (exponent: int, j: nat)
    requires NoNul(s) && i <= |s|
    ensures i <= j <= |s| && ParseExponent(s[i..]) == (exponent, s[j..])
  {
    j := i;
    var subscale: nat, sign: int := 0, 1;
    At(s, j);
    if CharAt(s, j) == 'e' || CharAt(s, j) == 'E' {
      j := j + 1;
      At(s, j);
      if CharAt(s, j) == '+' {
        j := j + 1;
      } else if CharAt(s, j) == '-' {
        sign := -1;
        j := j + 1;
      }
      subscale, j := DigitsAt(s, j, 0);
    }
    exponent := subscale * sign;
  }

  method WholeAt(s: string, i: nat) returns (n: nat, j: nat)
    requires NoNul(s) && i <= |s|
    ensures i <= j <= |s| && ParseWhole(s[i..]) == (n, s[j..])
    ensures StartsDigit(s[i..]) ==> i < j
  {
    n, j := 0, i;
    At(s, j);
    if CharAt(s, j) == '0' {
      j := j + 1;
    }
    At(s, j);
    if '1' <= CharAt(s, j) <= '9' {
      n, j := DigitsAt(s, j, 0);
    }
  }

  /** `parse_number`, with exact arithmetic in place of `double`. */
  method ParseNumberAt(s: string, i: nat) returns (v: Json, j: nat)
    requires NoNul(s) && i <= |s| && (Starts(s[i..], '-') || StartsDigit(s[i..]))
    ensures i < j <= |s| && ParseNumber(s[i..]) == (v, s[j..])
  {
    j := i;
    At(s, i);
    hide ParseWhole, ParseFraction, ParseExponent, Scaled, NoNul;
    var minus := CharAt(s, j) == '-';
    if minus {
      j := j + 1;
    }
    var n, scale, exponent;
    n, j := WholeAt(s, j);
    n, scale, j := FractionAt(s, j, n);
    exponent, j := ExponentAt(s, j);
    var magnitude := Scaled(n, scale + exponent);
    v := Number(if minus then -(magnitude as int) else magnitude);
  }

  // ----- strings

  /** What the scanning pass counts: a character, or an escape with its first character. */
  function ScanLength(s: string): nat
    decreases |s|
  {
    if s == [] || s[0] == '\"' then 0
    else if s[0] == '\\' && |s| > 1 then 1 + ScanLength(s[2..])
    else 1 + ScanLength(s[1..])
  }

  /** Both passes stand on the same unit of the literal `s[p..end]`, which ends at `end`. */
  ghost predicate Aligned(s: string, p: nat, end: nat) {
    p <= end <= |s| && ScanEnd(s[p..]) == Some(end - p)
  }

  lemma AlignedStep(s: string, p: nat, end: nat)
    requires Aligned(s, p, end) && p < end
    ensures s[p] != '\"'
    ensures s[p] != '\\' ==> Aligned(s, p + 1, end) && ScanLength(s[p..]) == 1 + ScanLength(s[p + 1..])
    ensures s[p] == '\\' ==> p + 2 <= end && Aligned(s, p + 2, end) && ScanLength(s[p..]) == 1 + ScanLength(s[p + 2..])
  {
    var u := s[p..];
    assert u[0] == s[p] && u[1..] == s[p + 1..];
    if u[0] == '\\' {
      assert |u| > 1;
      assert u[2..] == s[p + 2..];
    }
  }

  /** The first pass has counted `len` units of `s[i..]` up to `end`. */
  ghost predicate Scanned(s: string, i: nat, end: nat, len: nat) {
    && i <= end <= |s| && len + ScanLength(s[end..]) == ScanLength(s[i..])
    && ScanEnd(s[i..]) == match ScanEnd(s[end..]) case None => None case Some(n) => Some(n + end - i)
  }

  lemma ScanNext(s: string, end: nat)
    requires end < |s| && s[end] != '\"'
    ensures var next := if s[end] == '\\' then end + 2 else end + 1;
      if next > |s| then ScanEnd(s[end..]) == None
      else
        && ScanLength(s[end..]) == 1 + ScanLength(s[next..])
        && ScanEnd(s[end..]) == match ScanEnd(s[next..]) case None => None case Some(n) => Some(n + next - end)
  {
    var u := s[end..];
    assert u[0] == s[end] && u[1..] == s[end + 1..];
    if u[0] == '\\' && |u| > 1 { assert u[2..] == s[end + 2..]; }
  }

  lemma ScanStep(s: string, i: nat, end: nat, len: nat)
    requires Scanned(s, i, end, len) && end < |s| && s[end] != '\"'
    ensures s[end] != '\\' ==> Scanned(s, i, end + 1, len + 1)
    ensures s[end] == '\\' && end + 1 == |s| ==> ScanEnd(s[i..]) == None
    ensures s[end] == '\\' && end + 1 < |s| ==> Scanned(s, i, end + 2, len + 1)
  {
    hide *;
    ScannedInside(s, i, end, len);
    ScannedIs(s, i, end, len);
    ScanNext(s, end);
    var next := if s[end] == '\\' then end + 2 else end + 1;
    if next <= |s| { ScannedIs(s, i, next, len + 1); }
  }

  lemma ScannedInside(s: string, i: nat, end: nat, len: nat)
    requires Scanned(s, i, end, len)
    ensures i <= end <= |s|
  {
    hide ScanEnd, ScanLength;
  }

  lemma ScannedIs(s: string, i: nat, end: nat, len: nat)
    requires i <= |s|
    ensures Scanned(s, i, end, len) <==>
      && i <= end <= |s| && len + ScanLength(s[end..]) == ScanLength(s[i..])
      && ScanEnd(s[i..]) == match ScanEnd(s[end..]) case None => None case Some(n) => Some(n + end - i)
  {
  }

  lemma ScanDone(s: string, i: nat, end: nat, len: nat)
    requires Scanned(s, i, end, len) && (end == |s| || s[end] == '\"')
    ensures Aligned(s, i, end) && len == ScanLength(s[i..])
  {
  }

  /** The first pass: `end` is the closing quote or the terminator, `len` the units before it. */
  method ScanAt(s: string, i: nat) returns (ok: bool, end: nat, len: nat)
    requires NoNul(s) && i <= |s|
    ensures ok == ScanEnd(s[i..]).Some?
    ensures ok ==> Aligned(s, i, end) && len == ScanLength(s[i..])
    ensures ok ==> end == |s| || s[end] == '\"'
  {
    end, len, ok := i, 0, true;
    assert Scanned(s, i, end, len) by { hide ScanEnd, ScanLength; }
    At(s, end);
    hide ScanEnd, ScanLength, NoNul, Scanned;
    while CharAt(s, end) != '\"' && CharAt(s, end) != '\0'
      invariant end <= |s| && (CharAt(s, end) == '\0' <==> end == |s|)
      invariant Scanned(s, i, end, len)
      decreases |s| - end
    {
      ScanStep(s, i, end, len);
      len := len + 1;
      end := end + 1;
      At(s, end);
      if CharAt(s, end - 1) == '\\' {
        if CharAt(s, end) == '\0' {
          return false, end, len;
        }
        end := end + 1;
        At(s, end);
      }
    }
    ScanDone(s, i, end, len);
  }

  /** The byte `((uc | 0x80) & 0xBF)`. */
  function LowBits(uc: nat): char {
    Byte(0x80 + uc % 0x40)
  }

  /** `uc >> 6`. */
  function Shift(uc: nat): nat {
    uc / 0x40
  }

  function Utf8Length(c: CodePoint): nat {
    if c < 0x80 then 1 else if c < 0x800 then 2 else if c < 0x1_0000 then 3 else 4
  }

  /** `uc | firstByteMark[len]`. */
  function FirstByte(uc: nat, len: nat): char {
    var mark := if len == 1 then 0 else if len == 2 then 0xC0 else if len == 3 then 0xE0 else 0xF0;
    if mark + uc < 0x100 then Byte(mark + uc) else '\0'
  }

  /** The `k` bytes still to be written in front, of which the first carries the length mark. */
  function Front(uc: nat, k: nat, len: nat): (r: string)
    ensures |r| == k
  {
    if k == 0 then []
    else if k == 1 then [FirstByte(uc, len)]
    else Front(Shift(uc), k - 1, len) + [LowBits(uc)]
  }

  lemma ShiftTwice(c: nat)
    ensures Shift(Shift(c)) == c / 0x1000 && Shift(Shift(Shift(c))) == c / 0x4_0000
  {
    var q := c / 0x40;
    var r := q / 0x40;
    assert c == 0x40 * q + c % 0x40 && q == 0x40 * r + q % 0x40;
  }

  /** The bytes of a code point, its bits taken off six at a time. */
  lemma Utf8ByShifts(c: CodePoint)
    ensures Utf8(c) == Front(c, Utf8Length(c), Utf8Length(c))
  {
    ShiftTwice(c);
    var u := Shift(c);
    var v := Shift(u);
    if c < 0x80 {
    } else if c < 0x800 {
      assert Front(u, 1, 2) == [FirstByte(u, 2)];
    } else if c < 0x1_0000 {
      assert Front(u, 2, 3) == [FirstByte(v, 3), LowBits(u)];
    } else {
      assert Front(v, 2, 4) == [FirstByte(Shift(v), 4), LowBits(v)];
      assert Front(u, 3, 4) == [FirstByte(Shift(v), 4), LowBits(v), LowBits(u)];
    }
  }

  /** Writes the lowest six bits in front as a continuation byte, and shifts them out. */
  method PutLowBits(out: array<char>, w: nat, at: nat, uc: nat, len: nat) returns (before: nat, rest: nat)
    requires w + 1 < at <= w + len <= out.Length
    modifies out
    ensures before == at - 1 && rest == Shift(uc) && out[..w] == old(out[..w])
    ensures Front(rest, before - w, len) + out[before..w + len] == Front(uc, at - w, len) + old(out[at..w + len])
  {
    before, rest := at - 1, Shift(uc);
    out[before] := LowBits(uc);
    assert out[before..w + len] == [LowBits(uc)] + out[at..w + len];
    assert Front(uc, at - w, len) == Front(rest, before - w, len) + [LowBits(uc)];
  }

  /** Writes the first byte, with the length mark. */
  method PutFirst(out: array<char>, w: nat, uc: nat, len: nat)
    requires 0 < len && w + len <= out.Length
    modifies out
    ensures out[..w + len] == old(out[..w]) + (Front(uc, 1, len) + old(out[w + 1..w + len]))
  {
    out[w] := FirstByte(uc, len);
    assert out[w..w + len] == [FirstByte(uc, len)] + out[w + 1..w + len];
    assert out[..w + len] == out[..w] + out[w..w + len];
  }

  /** Writing a code point backwards from its last byte, as the falling-through `switch` does. */
  method WriteUtf8(out: array<char>, w: nat, c: CodePoint) returns (next: nat)
    requires w + |Utf8(c)| <= out.Length
    modifies out
    ensures next == w + |Utf8(c)| && out[..next] == old(out[..w]) + Utf8(c)
  {
    Utf8ByShifts(c);
    var len := Utf8Length(c);
    assert 1 <= len <= 4;
    hide Utf8, Utf8Length, LowBits, Shift, FirstByte, Front;
    var at: nat, uc: nat := w + len, c;
    if len >= 4 { at, uc := PutLowBits(out, w, at, uc, len); }
    if len >= 3 { at, uc := PutLowBits(out, w, at, uc, len); }
    if len >= 2 { at, uc := PutLowBits(out, w, at, uc, len); }
    PutFirst(out, w, uc, len);
    next := w + len;
  }

  lemma HexCut(s: string, p: nat, end: nat)
    requires p <= end <= |s| && (end == |s| || s[end] == '\"')
    ensures ParseHex4(s[p..end]) == ParseHex4(s[p..])
  {
    var u, v := s[p..], s[p..end];
    assert forall k :: 0 <= k < |v| ==> v[k] == u[k];
    if |v| < 4 && |v| < |u| { assert u[|v|] == '\"'; }
  }

  /** What the escape is, by the text it is cut from. */
  lemma UnicodeCut(s: string, p: nat, end: nat)
    requires p + 2 <= end <= |s| && (end == |s| || s[end] == '\"')
    ensures var u := ParseHex4(s[p + 2..]);
      ParseUnicode(s[p..end]) ==
      if end < p + 6 || LowSurrogate(u) || u == 0 then None
      else if !HighSurrogate(u) then Some((u, 6))
      else if end < p + 11 || s[p + 6] != '\\' || s[p + 7] != 'u' then None
      else
        var low := ParseHex4(s[p + 8..]);
        if !LowSurrogate(low) then None else Some((JoinSurrogates(u, low), 12))
  {
    var b := s[p..end];
    assert b[2..] == s[p + 2..end];
    HexCut(s, p + 2, end);
    if end >= p + 11 {
      assert b[6] == s[p + 6] && b[7] == s[p + 7] && b[8..] == s[p + 8..end];
      HexCut(s, p + 8, end);
    }
    hide ParseHex4;
  }

  /** A `\u` escape, read from the text: the body's end is seen by comparing cursors. */
  method DecodeUnicode(s: string, p0: nat, end: nat) returns (ok: bool, uc: CodePoint, p: nat)
    requires p0 + 2 <= end <= |s| && (end == |s| || s[end] == '\"')
    ensures match ParseUnicode(s[p0..end]) case None => !ok case Some(r) => ok && (uc, p - p0) == r
  {
    UnicodeCut(s, p0, end);
    hide ParseUnicode, ParseHex4, JoinSurrogates;
    uc, p, ok := ParseHex4(s[p0 + 2..]), p0 + 5, false;
    if p >= end { return; }
    if LowSurrogate(uc) || uc == 0 { return; }
    if HighSurrogate(uc) {
      if p + 6 > end { return; }
      if s[p + 1] != '\\' || s[p + 2] != 'u' { return; }
      var uc2 := ParseHex4(s[p + 3..]);
      p := p + 6;
      if uc2 < 0xDC00 || uc2 > 0xDFFF { return; }
      uc := JoinSurrogates(uc, uc2);
    }
    p, ok := p + 1, true;
  }

  lemma {:induction false} PlainScanned(s: string, p: nat, end: nat, n: nat)
    requires Aligned(s, p, end) && p + n <= end
    requires forall k :: p <= k < p + n ==> s[k] != '\\'
    decreases n
    ensures Aligned(s, p + n, end) && ScanLength(s[p..]) == n + ScanLength(s[p + n..])
  {
    if n > 0 {
      AlignedStep(s, p, end);
      PlainScanned(s, p + 1, end, n - 1);
    }
  }

  lemma HexPlain(s: string, p: nat, end: nat)
    requires p <= end <= |s| && ParseHex4(s[p..end]) != 0
    ensures p + 4 <= end && forall k :: p <= k < p + 4 ==> s[k] != '\\'
  {
    var b := s[p..end];
    assert b[0] == s[p] && b[1] == s[p + 1] && b[2] == s[p + 2] && b[3] == s[p + 3];
  }

  lemma Utf8Short(c: CodePoint)
    ensures |Utf8(c)| <= 4 && (c < 0x1_0000 ==> |Utf8(c)| <= 3)
  {
  }

  /** A `\u` escape was scanned as at least as many units as it decodes to bytes. */
  lemma UnicodeScanned(s: string, p: nat, end: nat)
    requires Aligned(s, p, end) && p + 2 <= end && s[p] == '\\' && ParseUnicode(s[p..end]).Some?
    ensures var (c, n) := ParseUnicode(s[p..end]).value;
      p + n <= end && Aligned(s, p + n, end) && |Utf8(c)| + ScanLength(s[p + n..]) <= ScanLength(s[p..])
  {
    var b := s[p..end];
    var (c, n) := ParseUnicode(b).value;
    assert b[2..] == s[p + 2..end];
    Utf8Short(c);
    hide ParseHex4, Utf8, ScanLength, ScanEnd;
    AlignedStep(s, p, end);
    HexPlain(s, p + 2, end);
    PlainScanned(s, p + 2, end, 4);
    if n == 12 {
      assert b[6] == s[p + 6] && b[8..] == s[p + 8..end];
      AlignedStep(s, p + 6, end);
      HexPlain(s, p + 8, end);
      PlainScanned(s, p + 8, end, 4);
    }
  }

  lemma UnescapeUnit(s: string, p: nat, end: nat)
    requires p < end <= |s| && (s[p] == '\\' ==> p + 2 <= end)
    ensures s[p] != '\\' ==> Unescape(s[p..end]) == Cons([s[p]], Unescape(s[p + 1..end]))
    ensures s[p] == '\\' && s[p + 1] != 'u' ==>
      Unescape(s[p..end]) == Cons([SimpleEscape(s[p + 1])], Unescape(s[p + 2..end]))
    ensures s[p] == '\\' && s[p + 1] == 'u' ==>
      Unescape(s[p..end]) == match ParseUnicode(s[p..end])
        case None => None
        case Some((c, n)) => Cons(Utf8(c), Unescape(s[p + n..end]))
  {
    hide Utf8, SimpleEscape;
    var b := s[p..end];
    assert b[1..] == s[p + 1..end];
    if s[p] == '\\' {
      assert b[1] == s[p + 1] && b[2..] == s[p + 2..end];
      if ParseUnicode(b).Some? { assert b[ParseUnicode(b).value.1..] == s[p + ParseUnicode(b).value.1..end]; }
    }
  }

  /** Decoding never gives more bytes than the scan counted units. */
  lemma {:induction false} DecodedFits(s: string, p: nat, end: nat)
    requires Aligned(s, p, end) && Unescape(s[p..end]).Some?
    ensures |Unescape(s[p..end]).value| <= ScanLength(s[p..])
    decreases end - p
  {
    hide ScanLength, ScanEnd, Utf8, ParseUnicode, SimpleEscape;
    if p < end {
      AlignedStep(s, p, end);
      UnescapeUnit(s, p, end);
      if s[p] == '\\' && s[p + 1] == 'u' {
        UnicodeScanned(s, p, end);
        DecodedFits(s, p + ParseUnicode(s[p..end]).value.1, end);
      } else {
        DecodedFits(s, if s[p] == '\\' then p + 2 else p + 1, end);
      }
    }
  }

  method PutChar(out: array<char>, w: nat, c: char)
    requires w < out.Length
    modifies out
    ensures out[..w + 1] == old(out[..w]) + [c]
  {
    out[w] := c;
  }

  /** One character or escape of the literal. */
  method DecodeUnit(s: string, p0: nat, end: nat, out: array<char>, w0: nat)
    returns (ok: bool, p: nat, w: nat, ghost piece: string)
    requires Aligned(s, p0, end) && p0 < end && (end == |s| || s[end] == '\"')
    requires w0 + ScanLength(s[p0..]) <= out.Length
    modifies out
    ensures !ok ==> Unescape(s[p0..end]) == None
    ensures ok ==> p0 < p && Aligned(s, p, end) && w + ScanLength(s[p..]) <= w0 + ScanLength(s[p0..])
    ensures ok ==> Unescape(s[p0..end]) == Cons(piece, Unescape(s[p..end]))
    ensures ok ==> out[..w] == old(out[..w0]) + piece
  {
    hide *;
    AlignedStep(s, p0, end);
    UnescapeUnit(s, p0, end);
    ok, p, w, piece := true, p0, w0, "";
    if s[p] != '\\' {
      piece := [s[p]];
      PutChar(out, w, s[p]);
      p, w := p + 1, w + 1;
    } else if s[p + 1] != 'u' {
      piece := [SimpleEscape(s[p + 1])];
      PutChar(out, w, SimpleEscape(s[p + 1]));
      p, w := p + 2, w + 1;
    } else {
      var uc;
      ok, uc, p := DecodeUnicode(s, p0, end);
      if ok {
        UnicodeScanned(s, p0, end);
        w := WriteUtf8(out, w, uc);
        piece := Utf8(uc);
      }
    }
  }

  lemma ConsNext(done: string, piece: string, all: string, r: Option<string>)
    requires all == done + piece
    ensures Cons(done, Cons(piece, r)) == Cons(all, r)
  {
    if r.Some? { Assoc(done, piece, r.value); }
  }

  /** The second pass fills a buffer of the scanned length; it never writes past it. */
  method DecodeAt(s: string, start: nat, end: nat, len: nat) returns (ok: bool, text: string)
    requires Aligned(s, start, end) && (end == |s| || s[end] == '\"') && len == ScanLength(s[start..])
    ensures Unescape(s[start..end]) == if ok then Some(text) else None
  {
    hide ScanEnd, ScanLength;
    var out := new char[len + 1];
    var p: nat, w: nat := start, 0;
    text := "";
    assert Cons("", Unescape(s[p..end])) == Unescape(s[p..end]) by { ConsEmpty(Unescape(s[p..end])); }
    assert out[..w] == "";
    hide Unescape, Cons;
    while p < end
      invariant Aligned(s, p, end) && w + ScanLength(s[p..]) <= len
      invariant Unescape(s[start..end]) == Cons(out[..w], Unescape(s[p..end]))
      decreases end - p
    {
      ghost var done, piece, p1 := out[..w], "", p;
      ok, p, w, piece := DecodeUnit(s, p, end, out, w);
      if !ok {
        ConsNone(done);
        return;
      }
      ConsNext(done, piece, out[..w], Unescape(s[p..end]));
    }
    NothingLeft(s, p, out[..w]);
    out[w] := '\0';
    ok, text := true, out[..w];
  }

  lemma ConsEmpty(r: Option<string>)
    ensures Cons("", r) == r
  {
    if r.Some? { assert "" + r.value == r.value; }
  }

  lemma ConsNone(done: string)
    ensures Cons(done, None) == None
  {
  }

  lemma NothingLeft(s: string, p: nat, done: string)
    requires p <= |s|
    ensures Cons(done, Unescape(s[p..p])) == Some(done)
  {
    assert s[p..p] == "" && done + "" == done;
  }

  lemma StringParts(s: string, i: nat, end: nat)
    requires i < |s| && s[i] == '\"' && Aligned(s, i + 1, end)
    ensures ParseString(s[i..]) == match Unescape(s[i + 1..end])
      case None => None
      case Some(t) => Some((t, if end == |s| then [] else s[end + 1..]))
  {
    hide ScanEnd, Unescape;
    var u := s[i..];
    assert u[1..] == s[i + 1..];
    assert u[1..][..end - (i + 1)] == s[i + 1..end];
    assert u[1 + (end - (i + 1))..] == s[end..];
    if end < |s| { assert s[end..][1..] == s[end + 1..]; }
  }

  /** `parse_string`. */
  method ParseStringAt(s: string, i: nat) returns (ok: bool, text: string, j: nat)
    requires NoNul(s) && i <= |s|
    ensures match ParseString(s[i..])
      case None => !ok
      case Some(r) => ok && i < j <= |s| && r == (text, s[j..])
  {
    ok, text, j := false, "", i;
    At(s, i);
    hide ScanEnd, ScanLength, Unescape, NoNul;
    if CharAt(s, i) != '\"' { return; }
    var scanned, end, len := ScanAt(s, i + 1);
    if !scanned { return; }
    StringParts(s, i, end);
    hide ParseString;
    ok, text := DecodeAt(s, i + 1, end, len);
    j := end;
    At(s, j);
    if CharAt(s, j) == '\"' { j := j + 1; }
  }

  // ----- values

  /** What follows an element: more elements after a comma, or the closing bracket. */
  function AfterItem(t: string): Parsed<seq<Json>> {
    if Starts(t, ',') then ParseItems(t[1..])
    else if Starts(t, ']') then Some(([], t[1..]))
    else None
  }

  function Before<T>(xs: seq<T>, r: Parsed<seq<T>>): Parsed<seq<T>> {
    match r case None => None case Some((ys, rest)) => Some((xs + ys, rest))
  }

  lemma BeforeTwice<T>(xs: seq<T>, x: T, r: Parsed<seq<T>>)
    ensures Before(xs, Before([x], r)) == Before(xs + [x], r)
  {
    if r.Some? { assert xs + ([x] + r.value.0) == xs + [x] + r.value.0; }
  }

  lemma ItemsByFirst(s: string)
    ensures ParseItems(s) == match ParseValue(Skip(s))
      case None => None
      case Some((x, rest)) => Before([x], AfterItem(Skip(rest)))
  {
    match ParseValue(Skip(s))
    case None =>
    case Some((x, rest)) => assert [x] + [] == [x];
  }

  function AfterMember(t: string): Parsed<seq<Entry<Json>>> {
    if Starts(t, ',') then ParseMembers(t[1..])
    else if Starts(t, '}') then Some(([], t[1..]))
    else None
  }

  lemma MembersByFirst(s: string)
    ensures ParseMembers(s) == match ParseMember(s)
      case None => None
      case Some((m, rest)) => Before([m], AfterMember(Skip(rest)))
  {
    match ParseMember(s)
    case None =>
    case Some((m, rest)) => assert [m] + [] == [m];
  }

  /** What a parsing method returns is the parsed value and the cursor after it. */
  predicate Agrees<T(==)>(r: Parsed<T>, s: string, i: nat, ok: bool, v: T, j: nat) {
    match r
    case None => !ok
    case Some(p) => ok && i < j <= |s| && p == (v, s[j..])
  }

  lemma PrefixAt(s: string, i: nat, word: string)
    requires i <= |s| && word <= s[i..]
    ensures i + |word| <= |s| && s[i..][|word|..] == s[i + |word|..]
  {
  }

  /** `parse_value`. */
  method ParseValueAt(s: string, i: nat) returns (ok: bool, v: Json, j: nat)
    requires NoNul(s) && i <= |s|
    ensures Agrees(ParseValue(s[i..]), s, i, ok, v, j)
    decreases |s| - i, 1
  {
    ok, v, j := true, Null, i;
    At(s, i);
    if "null" <= s[i..] {
      PrefixAt(s, i, "null");
      j := i + 4;
    } else if "false" <= s[i..] {
      PrefixAt(s, i, "false");
      v, j := False, i + 5;
    } else if "true" <= s[i..] {
      PrefixAt(s, i, "true");
      v, j := True, i + 4;
    } else if CharAt(s, i) == '\"' {
      var text;
      ok, text, j := ParseStringAt(s, i);
      v := String(text);
    } else if CharAt(s, i) == '-' || IsDigit(CharAt(s, i)) {
      v, j := ParseNumberAt(s, i);
    } else if CharAt(s, i) == '[' {
      ok, v, j := ParseArrayAt(s, i);
    } else if CharAt(s, i) == '{' {
      ok, v, j := ParseObjectAt(s, i);
    } else {
      ok := false;
    }
  }

  /** What was parsed, and the cursor after the white space that follows it. */
  predicate Fetched<T(==)>(r: Parsed<T>, s: string, i: nat, ok: bool, v: T, j: nat) {
    match r
    case None => !ok
    case Some(p) => ok && i < j <= |s| && v == p.0 && s[j..] == Skip(p.1)
  }

  /** One element with the white space on both sides of it. */
  method ItemAt(s: string, i: nat) returns (ok: bool, x: Json, j: nat)
    requires NoNul(s) && i <= |s|
    ensures ok ==> i < j <= |s|
    ensures Fetched(ParseValue(Skip(s[i..])), s, i, ok, x, j)
    decreases |s| - i, 2
  {
    hide ParseValue, Skip, NoNul;
    j := SkipAt(s, i);
    ok, x, j := ParseValueAt(s, j);
    if ok { j := SkipAt(s, j); }
  }

  /** `xs` was read since `start`, and the cursor is at what follows an element. */
  ghost predicate ItemsRead(s: string, start: nat, xs: seq<Json>, j: nat) {
    start <= j <= |s| && ParseItems(s[start..]) == Before(xs, AfterItem(s[j..]))
  }

  lemma ItemsFirst(s: string, start: nat, ok: bool, x: Json, j: nat)
    requires start <= |s| && Fetched(ParseValue(Skip(s[start..])), s, start, ok, x, j)
    ensures if ok then ItemsRead(s, start, [x], j) else ParseItems(s[start..]) == None
  {
    ItemsByFirst(s[start..]);
  }

  lemma ItemsNext(s: string, start: nat, xs: seq<Json>, comma: nat, ok: bool, x: Json, j: nat)
    requires ItemsRead(s, start, xs, comma) && comma < |s| && s[comma] == ','
    requires Fetched(ParseValue(Skip(s[comma + 1..])), s, comma + 1, ok, x, j)
    ensures if ok then ItemsRead(s, start, xs + [x], j) else ParseItems(s[start..]) == None
  {
    assert s[comma..][1..] == s[comma + 1..];
    ItemsByFirst(s[comma + 1..]);
    if ok { BeforeTwice(xs, x, AfterItem(s[j..])); }
  }

  lemma ItemsEnd(s: string, start: nat, xs: seq<Json>, j: nat)
    requires ItemsRead(s, start, xs, j) && (j < |s| ==> s[j] != ',')
    ensures ParseItems(s[start..]) == if j < |s| && s[j] == ']' then Some((xs, s[j + 1..])) else None
  {
    if j < |s| { assert s[j..][0] == s[j] && s[j..][1..] == s[j + 1..]; }
    assert xs + [] == xs;
  }

  /** The elements of an array: a value, then values after commas, then the bracket. */
  method ItemsAt(s: string, start: nat) returns (ok: bool, xs: seq<Json>, j: nat)
    requires NoNul(s) && start <= |s|
    ensures Agrees(ParseItems(s[start..]), s, start, ok, xs, j)
    decreases |s| - start, 3
  {
    hide ParseItems, ParseValue, Skip, NoNul, Fetched, ItemsRead;
    var x;
    ok, x, j := ItemAt(s, start);
    ItemsFirst(s, start, ok, x, j);
    if !ok { return false, [], j; }
    xs := [x];
    while j < |s| && s[j] == ','
      invariant start < j <= |s| && ItemsRead(s, start, xs, j)
      decreases |s| - j
    {
      ghost var comma := j;
      ok, x, j := ItemAt(s, j + 1);
      ItemsNext(s, start, xs, comma, ok, x, j);
      if !ok { return; }
      xs := xs + [x];
    }
    ItemsEnd(s, start, xs, j);
    ok := j < |s| && s[j] == ']';
    if ok { j := j + 1; }
  }

  /** `parse_array`. */
  method ParseArrayAt(s: string, i: nat) returns (ok: bool, v: Json, j: nat)
    requires NoNul(s) && i < |s| && s[i] == '['
    ensures Agrees(ParseValue(s[i..]), s, i, ok, v, j)
    decreases |s| - i, 0
  {
    At(s, i);
    j := SkipAt(s, i + 1);
    At(s, j);
    if CharAt(s, j) == ']' {
      return true, Array([]), j + 1;
    }
    var xs;
    ok, xs, j := ItemsAt(s, j);
    v := Array(xs);
  }

  // ----- objects

  /** A name, a colon and a value, and the white space after them. */
  method MemberAt(s: string, i: nat) returns (ok: bool, m: Entry<Json>, j: nat)
    requires NoNul(s) && i <= |s|
    ensures ok ==> i < j <= |s|
    ensures Fetched(ParseMember(s[i..]), s, i, ok, m, j)
    decreases |s| - i, 3
  {
    hide ParseString, ParseValue, Skip, NoNul;
    var name, v;
    m := Entry("", Null);
    j := SkipAt(s, i);
    ok, name, j := ParseStringAt(s, j);
    if !ok { return; }
    j := SkipAt(s, j);
    if !(j < |s| && s[j] == ':') { return false, m, j; }
    assert s[j..][1..] == s[j + 1..];
    ok, v, j := ItemAt(s, j + 1);
    m := Entry(name, v);
  }

  ghost predicate MembersRead(s: string, start: nat, ms: seq<Entry<Json>>, j: nat) {
    start <= j <= |s| && ParseMembers(s[start..]) == Before(ms, AfterMember(s[j..]))
  }

  lemma MembersFirst(s: string, start: nat, ok: bool, m: Entry<Json>, j: nat)
    requires start <= |s| && Fetched(ParseMember(s[start..]), s, start, ok, m, j)
    ensures if ok then MembersRead(s, start, [m], j) else ParseMembers(s[start..]) == None
  {
    MembersByFirst(s[start..]);
  }

  lemma MembersNext(s: string, start: nat, ms: seq<Entry<Json>>, comma: nat, ok: bool, m: Entry<Json>, j: nat)
    requires MembersRead(s, start, ms, comma) && comma < |s| && s[comma] == ','
    requires Fetched(ParseMember(s[comma + 1..]), s, comma + 1, ok, m, j)
    ensures if ok then MembersRead(s, start, ms + [m], j) else ParseMembers(s[start..]) == None
  {
    assert s[comma..][1..] == s[comma + 1..];
    MembersByFirst(s[comma + 1..]);
    if ok { BeforeTwice(ms, m, AfterMember(s[j..])); }
  }

  lemma MembersEnd(s: string, start: nat, ms: seq<Entry<Json>>, j: nat)
    requires MembersRead(s, start, ms, j) && (j < |s| ==> s[j] != ',')
    ensures ParseMembers(s[start..]) == if j < |s| && s[j] == '}' then Some((ms, s[j + 1..])) else None
  {
    if j < |s| { assert s[j..][0] == s[j] && s[j..][1..] == s[j + 1..]; }
    assert ms + [] == ms;
  }

  /** The members of an object, up to and including the brace. */
  method MembersAt(s: string, start: nat) returns (ok: bool, ms: seq<Entry<Json>>, j: nat)
    requires NoNul(s) && start <= |s|
    ensures Agrees(ParseMembers(s[start..]), s, start, ok, ms, j)
    decreases |s| - start, 4
  {
    hide ParseMembers, ParseMember, Skip, NoNul, Fetched, MembersRead;
    var m;
    ok, m, j := MemberAt(s, start);
    MembersFirst(s, start, ok, m, j);
    if !ok { return false, [], j; }
    ms := [m];
    while j < |s| && s[j] == ','
      invariant start < j <= |s| && MembersRead(s, start, ms, j)
      decreases |s| - j
    {
      ghost var comma := j;
      ok, m, j := MemberAt(s, j + 1);
      MembersNext(s, start, ms, comma, ok, m, j);
      if !ok { return; }
      ms := ms + [m];
    }
    MembersEnd(s, start, ms, j);
    ok := j < |s| && s[j] == '}';
    if ok { j := j + 1; }
  }

  /** `parse_object`. */
  method ParseObjectAt(s: string, i: nat) returns (ok: bool, v: Json, j: nat)
    requires NoNul(s) && i < |s| && s[i] == '{'
    ensures Agrees(ParseValue(s[i..]), s, i, ok, v, j)
    decreases |s| - i, 0
  {
    At(s, i);
    j := SkipAt(s, i + 1);
    At(s, j);
    if CharAt(s, j) == '}' {
      return true, Object([]), j + 1;
    }
    var ms;
    ok, ms, j := MembersAt(s, j);
    v := Object(ms);
  }

  /** `cJSON_ParseWithOpts`: a value, and with `whole` nothing but white space after it. */
  method ParseWithOpts(s: string, whole: bool) returns (ok: bool, v: Json, end: nat)
    requires NoNul(s)
    ensures match ParseValue(Skip(s))
      case None => !ok
      case Some((w, rest)) =>
        && (ok <==> whole ==> Skip(rest) == [])
        && (ok ==> v == w && 0 < end <= |s| && s[end..] == if whole then [] else rest)
  {
    assert s[0..] == s;
    end := SkipAt(s, 0);
    ok, v, end := ParseValueAt(s, end);
    if ok && whole {
      end := SkipAt(s, end);
      At(s, end);
      ok := CharAt(s, end) == '\0';
    }
  }
}
