/** What the recursive-descent parser computes: a value and the text after it. */
module Parse {
  import opened Json
  import opened Numerals
  import opened Text

  /** A parsed result and the rest of the text, which the cursor then points to. */
  type Parsed<T> = Option<(T, string)>

  predicate Starts(s: string, c: char) {
    s != [] && s[0] == c
  }

  /** `skip`: white space is everything up to and including a blank. */
  function Skip(s: string): (r: string)
    ensures |r| <= |s|
  {
    if s != [] && s[0] as int <= 32 then Skip(s[1..]) else s
  }

  // ----- numbers

  function Power10(n: nat): (r: nat)
    ensures r > 0
  {
    if n == 0 then 1 else 10 * Power10(n - 1)
  }

  lemma NotNegative(a: nat, b: nat)
    ensures a * b >= 0
    ensures b > 0 ==> a / b >= 0
  {
  }

  /** The integer part, as the cast to `int` keeps it, of digits times a power of ten. */
  function Scaled(digits: nat, exponent: int): nat {
    var p := Power10(if exponent >= 0 then exponent else -exponent);
    NotNegative(digits, p);
    if exponent >= 0 then digits * p else digits / p
  }

  /** Fraction: the digits so far continued, how many were read, and the rest. */
  function ParseFraction(s: string, digits: nat): (r: (nat, nat, string))
    ensures |r.2| <= |s|
  {
    if Starts(s, '.') && StartsDigit(s[1..]) then
      var (n, rest) := ReadDigits(s[1..], digits);
      (n, |s[1..]| - |rest|, rest)
    else (digits, 0, s)
  }

  function ParseExponent(s: string): (r: (int, string))
    ensures |r.1| <= |s|
  {
    if Starts(s, 'e') || Starts(s, 'E') then
      var t := s[1..];
      var digits := if Starts(t, '+') || Starts(t, '-') then t[1..] else t;
      var (n, rest) := ReadDigits(digits, 0);
      (if Starts(t, '-') then -(n as int) else n, rest)
    else (0, s)
  }

  /** The digits before the point: one leading zero, then digits unless the next is zero too. */
  function ParseWhole(s: string): (r: (nat, string))
    ensures |r.1| <= |s|
    ensures StartsDigit(s) ==> |r.1| < |s|
  {
    var t := if Starts(s, '0') then s[1..] else s;
    if StartsDigit(t) && t[0] != '0' then ReadDigits(t, 0) else (0, t)
  }

  /** `parse_number`. */
  function ParseNumber(s: string): (r: (Json, string))
    requires Starts(s, '-') || StartsDigit(s)
    ensures |r.1| < |s|
  {
    var minus := s[0] == '-';
    var (whole, s1) := ParseWhole(if minus then s[1..] else s);
    var (digits, places, s2) := ParseFraction(s1, whole);
    var (exponent, s3) := ParseExponent(s2);
    var n := Scaled(digits, exponent - places);
    (Number(if minus then -(n as int) else n), s3)
  }

  // ----- strings

  function HexValue(c: char): Option<nat> {
    if '0' <= c <= '9' then Some(c as nat - '0' as nat)
    else if 'A' <= c <= 'F' then Some(10 + c as nat - 'A' as nat)
    else if 'a' <= c <= 'f' then Some(10 + c as nat - 'a' as nat)
    else None
  }

  predicate IsHex(c: char) {
    HexValue(c).Some?
  }

  /** `parse_hex4`: 0 when one of the four characters is not a hexadecimal digit. */
  function ParseHex4(s: string): (r: nat)
    ensures r < 0x1_0000
    ensures r != 0 ==> |s| >= 4 && IsHex(s[0]) && IsHex(s[1]) && IsHex(s[2]) && IsHex(s[3])
  {
    if |s| >= 4 && IsHex(s[0]) && IsHex(s[1]) && IsHex(s[2]) && IsHex(s[3]) then
      0x1000 * HexValue(s[0]).value + 0x100 * HexValue(s[1]).value + 0x10 * HexValue(s[2]).value + HexValue(s[3]).value
    else 0
  }

  type CodePoint = c: nat | c < 0x11_0000

  function Byte(n: nat): char
    requires n < 0x100
  {
    n as char
  }

  /** The bytes written for a code point: section 3 of RFC 3629. */
  function Utf8(c: CodePoint): string {
    if c < 0x80 then [Byte(c)]
    else if c < 0x800 then [Byte(0xC0 + c / 0x40), Byte(0x80 + c % 0x40)]
    else if c < 0x1_0000 then [Byte(0xE0 + c / 0x1000), Byte(0x80 + c / 0x40 % 0x40), Byte(0x80 + c % 0x40)]
    else [Byte(0xF0 + c / 0x4_0000), Byte(0x80 + c / 0x1000 % 0x40), Byte(0x80 + c / 0x40 % 0x40), Byte(0x80 + c % 0x40)]
  }

  predicate HighSurrogate(u: nat) {
    0xD800 <= u <= 0xDBFF
  }

  predicate LowSurrogate(u: nat) {
    0xDC00 <= u <= 0xDFFF
  }

  function JoinSurrogates(high: nat, low: nat): CodePoint
    requires HighSurrogate(high) && LowSurrogate(low)
  {
    0x1_0000 + (high % 0x400) * 0x400 + low % 0x400
  }

  /** A `\u` escape at the start of `b`: the code point and how many characters it takes. */
  function ParseUnicode(b: string): (r: Option<(CodePoint, nat)>)
    requires |b| >= 2
    ensures r.Some? ==> 6 <= r.value.1 <= |b| && r.value.1 <= 12 && r.value.0 != 0
  {
    var u := ParseHex4(b[2..]);
    if |b| < 6 || LowSurrogate(u) || u == 0 then None
    else if !HighSurrogate(u) then Some((u, 6))
    else if |b| < 11 || b[6] != '\\' || b[7] != 'u' then None
    else
      var low := ParseHex4(b[8..]);
      if !LowSurrogate(low) then None else Some((JoinSurrogates(u, low), 12))
  }

  function SimpleEscape(c: char): char {
    if c == 'b' then BACKSPACE
    else if c == 'f' then FORM_FEED
    else if c == 'n' then '\n'
    else if c == 'r' then '\r'
    else if c == 't' then '\t'
    else c
  }

  /** The decoding loop, on the characters between the quotes. */
  function Unescape(b: string): Option<string>
    decreases |b|
  {
    if b == [] then Some("")
    else if b[0] != '\\' then Cons([b[0]], Unescape(b[1..]))
    else if |b| == 1 then None
    else if b[1] != 'u' then Cons([SimpleEscape(b[1])], Unescape(b[2..]))
    else match ParseUnicode(b)
      case None => None
      case Some((c, n)) => Cons(Utf8(c), Unescape(b[n..]))
  }

  function Cons(s: string, r: Option<string>): Option<string> {
    match r case None => None case Some(t) => Some(s + t)
  }

  /** The scanning loop: where the literal ends; `None` if the text ends in a backslash. */
  function ScanEnd(s: string): (r: Option<nat>)
    ensures r.Some? ==> r.value <= |s| && (r.value == |s| || s[r.value] == '\"')
    decreases |s|
  {
    if s == [] || s[0] == '\"' then Some(0)
    else if s[0] == '\\' then
      if |s| == 1 then None
      else match ScanEnd(s[2..]) case None => None case Some(n) => Some(n + 2)
    else match ScanEnd(s[1..]) case None => None case Some(n) => Some(n + 1)
  }

  /** `parse_string`. An unterminated literal ends at the end of the text. */
  function ParseString(s: string): (r: Parsed<string>)
    ensures r.Some? ==> |r.value.1| < |s|
  {
    if !Starts(s, '\"') then None
    else match ScanEnd(s[1..])
      case None => None
      case Some(n) =>
        var rest := s[1 + n..];
        match Unescape(s[1..][..n])
        case None => None
        case Some(text) => Some((text, if rest == [] then rest else rest[1..]))
  }

  // ----- values

  /** `parse_value`, with `parse_array` and `parse_object`. */
  function ParseValue(s: string): (r: Parsed<Json>)
    ensures r.Some? ==> |r.value.1| < |s|
    decreases |s|, 0
  {
    if "null" <= s then Some((Null, s[4..]))
    else if "false" <= s then Some((False, s[5..]))
    else if "true" <= s then Some((True, s[4..]))
    else if Starts(s, '\"') then
      match ParseString(s) case None => None case Some((t, rest)) => Some((String(t), rest))
    else if Starts(s, '-') || StartsDigit(s) then Some(ParseNumber(s))
    else if Starts(s, '[') then
      var t := Skip(s[1..]);
      if Starts(t, ']') then Some((Array([]), t[1..]))
      else match ParseItems(t) case None => None case Some((xs, rest)) => Some((Array(xs), rest))
    else if Starts(s, '{') then
      var t := Skip(s[1..]);
      if Starts(t, '}') then Some((Object([]), t[1..]))
      else match ParseMembers(t) case None => None case Some((ms, rest)) => Some((Object(ms), rest))
    else None
  }

  /** One or more elements and the closing bracket. */
  function ParseItems(s: string): (r: Parsed<seq<Json>>)
    ensures r.Some? ==> |r.value.1| < |s|
    decreases |s|, 1
  {
    match ParseValue(Skip(s))
    case None => None
    case Some((x, rest)) =>
      var t := Skip(rest);
      if Starts(t, ',') then
        match ParseItems(t[1..]) case None => None case Some((xs, end)) => Some(([x] + xs, end))
      else if Starts(t, ']') then Some(([x], t[1..]))
      else None
  }

  /** One member: a name, a colon and a value. */
  function ParseMember(s: string): (r: Parsed<Entry<Json>>)
    ensures r.Some? ==> |r.value.1| < |s|
    decreases |s|, 1
  {
    match ParseString(Skip(s))
    case None => None
    case Some((name, rest)) =>
      var t := Skip(rest);
      if !Starts(t, ':') then None
      else match ParseValue(Skip(t[1..]))
        case None => None
        case Some((v, end)) => Some((Entry(name, v), end))
  }

  /** One or more members and the closing brace. */
  function ParseMembers(s: string): (r: Parsed<seq<Entry<Json>>>)
    ensures r.Some? ==> |r.value.1| < |s|
    decreases |s|, 2
  {
    match ParseMember(s)
    case None => None
    case Some((m, rest)) =>
      var t := Skip(rest);
      if Starts(t, ',') then
        match ParseMembers(t[1..]) case None => None case Some((ms, end)) => Some(([m] + ms, end))
      else if Starts(t, '}') then Some(([m], t[1..]))
      else None
  }
}
