/** The texts the parser accepts, as a grammar: what a text looks like and what it stands for, written down
    apart from the parser, which accepts exactly these and reads what they stand for. */
module Grammar {
  import opened Json
  import opened Numerals
  import opened Text
  import opened Parse
  import opened RoundTrip
  import opened Unicode

  // ----- string literals

  /** A character as it is, a backslash and another character, or an escaped code point. */
  datatype Unit = Plain(c: char) | Short(c: char) | Code(point: CodePoint, e: string)

  predicate IsUnit(u: Unit) {
    match u
    case Plain(c) => c != '\"' && c != '\\'
    case Short(c) => c != 'u'
    case Code(c, e) => Scalar(c) && Escapes(e, c)
  }

  function UnitText(u: Unit): string {
    match u
    case Plain(c) => [c]
    case Short(c) => ['\\', c]
    case Code(_, e) => e
  }

  /** Five letters stand for control characters; every other character after a backslash for itself. */
  function UnitBytes(u: Unit): string {
    match u
    case Plain(c) => [c]
    case Short('b') => [8 as char]
    case Short('t') => [9 as char]
    case Short('n') => [10 as char]
    case Short('f') => [12 as char]
    case Short('r') => [13 as char]
    case Short(c) => [c]
    case Code(c, _) => Utf8(c)
  }

  predicate AreUnits(us: seq<Unit>) {
    forall u :: u in us ==> IsUnit(u)
  }

  function UnitsText(us: seq<Unit>): string {
    if us == [] then "" else UnitText(us[0]) + UnitsText(us[1..])
  }

  function UnitsBytes(us: seq<Unit>): string {
    if us == [] then "" else UnitBytes(us[0]) + UnitsBytes(us[1..])
  }

  lemma UnitsTail(us: seq<Unit>)
    requires us != [] && AreUnits(us)
    ensures IsUnit(us[0]) && AreUnits(us[1..])
  {
    hide IsUnit;
  }

  /** Both passes take a unit as a whole. */
  lemma UnitScanned(u: Unit, s: string)
    requires IsUnit(u)
    ensures ScanEnd(UnitText(u) + s) == match ScanEnd(s) case None => None case Some(n) => Some(n + |UnitText(u)|)
  {
    match u
    case Plain(c) => ScanPlain(c, s);
    case Short(c) => assert (['\\', c] + s)[2..] == s;
    case Code(c, e) => ScanScalar(c, e, s); hide Escapes, Scalar;
  }

  lemma UnitUnescaped(u: Unit, s: string)
    requires IsUnit(u)
    ensures Unescape(UnitText(u) + s) == Cons(UnitBytes(u), Unescape(s))
  {
    match u
    case Plain(c) => assert ([c] + s)[1..] == s;
    case Short(c) => assert (['\\', c] + s)[2..] == s;
    case Code(c, e) =>
      ParseScalar(c, e, s);
      hide Escapes, Scalar, ParseUnicode, Utf8;
      assert (e + s)[|e|..] == s;
  }

  lemma UnitsStep(us: seq<Unit>)
    ensures UnitsText(us) == if us == [] then "" else UnitText(us[0]) + UnitsText(us[1..])
  {
    hide UnitText;
  }

  lemma NothingThen(s: string)
    ensures "" + s == s
  {
  }

  lemma {:induction false} UnitsScanned(us: seq<Unit>, s: string)
    requires AreUnits(us)
    ensures ScanEnd(UnitsText(us) + s) == match ScanEnd(s) case None => None case Some(n) => Some(n + |UnitsText(us)|)
  {
    hide *;
    UnitsStep(us);
    NothingThen(s);
    if us != [] {
      UnitsTail(us);
      UnitsScanned(us[1..], s);
      UnitScanned(us[0], UnitsText(us[1..]) + s);
      Assoc(UnitText(us[0]), UnitsText(us[1..]), s);
    }
  }

  lemma {:induction false} UnitsUnescaped(us: seq<Unit>)
    requires AreUnits(us)
    ensures Unescape(UnitsText(us)) == Some(UnitsBytes(us))
  {
    if us != [] {
      UnitsTail(us);
      hide AreUnits, IsUnit, UnitText, UnitBytes, Unescape;
      UnitsUnescaped(us[1..]);
      UnitUnescaped(us[0], UnitsText(us[1..]));
    }
  }

  /** A literal parses to what its units stand for; so does one that the text ends in. */
  lemma LiteralParses(us: seq<Unit>, rest: string)
    requires AreUnits(us)
    ensures ParseString("\"" + (UnitsText(us) + ("\"" + rest))) == Some((UnitsBytes(us), rest))
    ensures ParseString("\"" + UnitsText(us)) == Some((UnitsBytes(us), ""))
  {
    hide *;
    var e := UnitsText(us);
    LiteralParts(e, rest);
    OpenParts(e);
    UnitsScanned(us, "\"" + rest);
    UnitsScanned(us, "");
    UnitsUnescaped(us);
    Unicode.ScanQuote(rest);
    LiteralIs("\"" + (e + ("\"" + rest)), |e|);
    LiteralIs("\"" + e, |e|);
  }

  lemma LiteralIs(s: string, n: nat)
    requires s != [] && s[0] == '\"' && ScanEnd(s[1..]) == Some(n)
    ensures ParseString(s) == match Unescape(s[1..][..n])
      case None => None
      case Some(text) => Some((text, if s[1 + n..] == [] then [] else s[1 + n..][1..]))
  {
    hide ScanEnd, Unescape;
  }

  lemma OpenParts(e: string)
    ensures var s := "\"" + e; s[0] == '\"' && s[1..] == e && s[1..][..|e|] == e && s[1 + |e|..] == "" && e + "" == e
    ensures ScanEnd("") == Some(0)
  {
  }

  lemma {:induction false} ScanPrefix(s: string)
    requires ScanEnd(s).Some?
    ensures ScanEnd(s[..ScanEnd(s).value]) == ScanEnd(s)
    decreases |s|
  {
    var n := ScanEnd(s).value;
    if s != [] && s[0] != '\"' {
      var k := if s[0] == '\\' then 2 else 1;
      assert s[..n][k..] == s[k..][..n - k];
      ScanPrefix(s[k..]);
    }
  }

  /** What is decoded is made of units. */
  lemma {:induction false} UnescapedUnits(b: string) returns (us: seq<Unit>)
    requires ScanEnd(b) == Some(|b|) && Unescape(b).Some?
    ensures AreUnits(us) && b == UnitsText(us) && Unescape(b) == Some(UnitsBytes(us))
    decreases |b|
  {
    if b == [] { return []; }
    var u := FirstUnit(b);
    var k := |UnitText(u)|;
    assert b == UnitText(u) + b[k..];
    hide IsUnit, UnitText, UnitBytes, Unescape, ScanEnd;
    UnitScanned(u, b[k..]);
    UnitUnescaped(u, b[k..]);
    var rest := UnescapedUnits(b[k..]);
    us := [u] + rest;
    assert us[1..] == rest;
  }

  lemma FirstUnit(b: string) returns (u: Unit)
    requires b != [] && ScanEnd(b) == Some(|b|) && Unescape(b).Some?
    ensures IsUnit(u) && 0 < |UnitText(u)| <= |b| && b[..|UnitText(u)|] == UnitText(u)
  {
    if b[0] != '\\' {
      u := Plain(b[0]);
    } else if b[1] != 'u' {
      u := Short(b[1]);
    } else {
      var (c, n) := ParseUnicode(b).value;
      EscapeParsed(b);
      hide ParseUnicode, Scalar, Escapes;
      u := Code(c, b[..n]);
    }
  }

  lemma EscapeParsed(b: string)
    requires |b| >= 2 && b[0] == '\\' && b[1] == 'u' && ParseUnicode(b).Some?
    ensures var (c, n) := ParseUnicode(b).value; Scalar(c) && Escapes(b[..n], c)
  {
    var u := ParseHex4(b[2..]);
    HexParsed(b[2..]);
    hide ParseHex4, HexFor;
    assert b[2..][..4] == b[..6][2..] && b[..6][..2] == "\\u";
    if HighSurrogate(u) {
      var low := ParseHex4(b[8..]);
      HexParsed(b[8..]);
      JoinSplit(u, low);
      assert b[8..][..4] == b[..12][8..] && b[..12][..2] == "\\u" && b[..12][2..6] == b[2..][..4] && b[..12][6..8] == "\\u";
    }
  }

  lemma JoinSplit(high: nat, low: nat)
    requires HighSurrogate(high) && LowSurrogate(low)
    ensures var c := JoinSurrogates(high, low); c >= 0x1_0000 && Scalar(c) && Units(c) == [high, low]
  {
  }

  /** What parses as a literal is one, or is one that the text ends in. */
  lemma LiteralParsed(s: string) returns (us: seq<Unit>)
    requires ParseString(s).Some?
    ensures var (t, rest) := ParseString(s).value;
      && AreUnits(us) && t == UnitsBytes(us)
      && (s == "\"" + (UnitsText(us) + ("\"" + rest)) || (rest == "" && s == "\"" + UnitsText(us)))
  {
    var b := s[1..];
    var n := ScanEnd(b).value;
    ScanPrefix(b);
    hide ScanEnd, Unescape;
    us := UnescapedUnits(b[..n]);
    LiteralCut(s, n);
  }

  lemma LiteralCut(s: string, n: nat)
    requires s != [] && s[0] == '\"' && n <= |s[1..]| && (n == |s[1..]| || s[1..][n] == '\"')
    ensures var rest := s[1 + n..];
      if rest == [] then s == "\"" + s[1..][..n] else s == "\"" + (s[1..][..n] + ("\"" + rest[1..]))
  {
    var b, rest := s[1..], s[1 + n..];
    assert s == "\"" + b && b == b[..n] + b[n..] && b[n..] == rest;
    if rest != [] { assert rest == "\"" + rest[1..]; }
  }

  // ----- numbers

  datatype ExponentText = NoExponent | ExponentText(e: char, sign: string, digits: string)

  /** The parts of a number; `fraction` is what follows the point, and without it there is no point. */
  datatype NumberText = NumberText(minus: bool, whole: string, fraction: string, exponent: ExponentText)

  predicate IsExponent(x: ExponentText) {
    x.ExponentText? ==> x.e in {'e', 'E'} && x.sign in {"", "+", "-"} && AllDigits(x.digits)
  }

  /** One leading zero is allowed in front of other digits; after a minus sign there need not be any. */
  predicate IsWhole(whole: string) {
    AllDigits(whole) && (|whole| >= 2 && whole[0] == '0' ==> whole[1] != '0')
  }

  predicate IsNumber(n: NumberText) {
    IsWhole(n.whole) && AllDigits(n.fraction) && (n.minus || n.whole != "") && IsExponent(n.exponent)
  }

  function SpellExponent(x: ExponentText, k: string): string {
    match x case NoExponent => k case ExponentText(e, sign, digits) => [e] + (sign + (digits + k))
  }

  function SpellFraction(fraction: string, k: string): string {
    if fraction == "" then k else "." + (fraction + k)
  }

  /** The text of a number in front of `k`. */
  function SpellNumber(n: NumberText, k: string): string {
    (if n.minus then "-" else "") + (n.whole + SpellFraction(n.fraction, SpellExponent(n.exponent, k)))
  }

  function ExponentOf(x: ExponentText): int
    requires IsExponent(x)
  {
    match x
    case NoExponent => 0
    case ExponentText(_, sign, digits) => if sign == "-" then -(Decimal(digits) as int) else Decimal(digits)
  }

  function Zeros(n: nat): (r: string)
    ensures |r| == n && AllDigits(r)
  {
    seq(n, _ => '0')
  }

  /** The digits before the decimal point once it is moved, to the right if `shift` is positive. */
  function PointMoved(digits: string, shift: int): (r: string)
    ensures AllDigits(digits) ==> AllDigits(r)
  {
    if shift >= 0 then digits + Zeros(shift)
    else if |digits| + shift > 0 then digits[..|digits| + shift]
    else ""
  }

  /** The integer part of the number, as the cast to `int` keeps it. */
  function NumberValue(n: NumberText): int
    requires IsNumber(n)
  {
    var m := Decimal(PointMoved(n.whole + n.fraction, ExponentOf(n.exponent) - |n.fraction|));
    if n.minus then -(m as int) else m
  }

  /** The text after the digits before the point does not continue them. */
  predicate WholeEnds(whole: string, rest: string) {
    StartsDigit(rest) ==> whole == "0" && rest[0] == '0'
  }

  /** The text after the fraction does not continue it, or start one. */
  predicate FractionEnds(fraction: string, rest: string) {
    if fraction != "" then !StartsDigit(rest) else !(Starts(rest, '.') && StartsDigit(rest[1..]))
  }

  predicate ExponentEnds(x: ExponentText, rest: string) {
    match x
    case NoExponent => !Starts(rest, 'e') && !Starts(rest, 'E')
    case ExponentText(_, sign, digits) =>
      !StartsDigit(rest) && (sign == "" && digits == "" ==> !Starts(rest, '+') && !Starts(rest, '-'))
  }

  /** The text after the number does not continue it. */
  predicate NumberEnds(n: NumberText, rest: string) {
    && ExponentEnds(n.exponent, rest)
    && (n.exponent.NoExponent? ==> FractionEnds(n.fraction, rest) && (n.fraction == "" ==> WholeEnds(n.whole, rest)))
  }

  // ----- moving the point is multiplying and dividing by ten

  lemma {:induction false} ContinuedAppend(acc: nat, a: string, b: string)
    requires AllDigits(a) && AllDigits(b)
    ensures AllDigits(a + b) && Continued(acc, a + b) == Continued(Continued(acc, a), b)
  {
    if b == [] {
      assert a + b == a;
    } else {
      var p := b[..|b| - 1];
      assert forall c :: c in p ==> c in b;
      assert (a + b)[..|a + b| - 1] == a + p;
      ContinuedAppend(acc, a, p);
      assert b[|b| - 1] in b;
    }
  }

  lemma {:induction false} ContinuedZeros(acc: nat, n: nat)
    ensures Continued(acc, Zeros(n)) == acc * Power10(n)
  {
    if n > 0 {
      assert Zeros(n)[..n - 1] == Zeros(n - 1);
      ContinuedZeros(acc, n - 1);
      TimesTen(acc, Power10(n - 1));
    }
  }

  lemma TimesTen(a: nat, p: nat)
    ensures 10 * (a * p) == a * (10 * p)
  {
  }

  lemma DivideTwice(a: nat, p: nat)
    requires p > 0
    ensures a / (10 * p) == a / 10 / p
  {
    var q, r := a / 10 / p, a / 10 % p;
    assert a / 10 == p * q + r;
    assert a == 10 * (p * q + r) + a % 10;
    var rest := 10 * r + a % 10;
    assert 10 * r <= 10 * (p - 1);
    assert a == (10 * p) * q + rest by { TimesTen(q, p); }
    DivideIs(a, 10 * p, q, rest);
  }

  lemma DivideIs(a: nat, b: nat, q: nat, r: nat)
    requires b > 0 && r < b && a == b * q + r
    ensures a / b == q
  {
    var d := a / b - q;
    assert a == b * (a / b) + a % b;
    assert b * d == r - a % b by { assert b * d == b * (a / b) - b * q; }
    Multiple(b, d);
  }

  lemma Multiple(b: nat, d: int)
    ensures d > 0 ==> b * d >= b
    ensures d < 0 ==> b * d <= -(b as int)
  {
  }

  /** Cutting the last digits. */
  lemma {:induction false} DecimalCut(ds: string, k: nat)
    requires AllDigits(ds)
    ensures Decimal(PointMoved(ds, -(k as int))) == Decimal(ds) / Power10(k)
    decreases |ds|
  {
    if k == 0 {
      assert ds + Zeros(0) == ds;
    } else if ds == [] {
      Power10Positive(k);
    } else {
      var p := ds[..|ds| - 1];
      assert forall c :: c in p ==> c in ds;
      assert ds[|ds| - 1] in ds;
      DecimalCut(p, k - 1);
      CutOnce(ds, k);
      DivideTwice(Decimal(ds), Power10(k - 1));
    }
  }

  lemma Power10Positive(k: nat)
    ensures 0 / Power10(k) == 0
  {
  }

  lemma CutOnce(ds: string, k: nat)
    requires AllDigits(ds) && ds != [] && k > 0
    ensures var p := ds[..|ds| - 1]; PointMoved(ds, -(k as int)) == PointMoved(p, -(k - 1))
  {
    var p := ds[..|ds| - 1];
    if k == 1 { assert p + Zeros(0) == p; }
  }

  lemma ScaledIs(ds: string, shift: int)
    requires AllDigits(ds)
    ensures Scaled(Decimal(ds), shift) == Decimal(PointMoved(ds, shift))
  {
    if shift >= 0 {
      ContinuedAppend(0, ds, Zeros(shift));
      ContinuedZeros(Decimal(ds), shift);
    } else {
      DecimalCut(ds, -shift);
    }
    hide Power10;
  }

  // ----- the parts of a number are read one after the other

  lemma WholeParses(whole: string, rest: string)
    requires IsWhole(whole) && WholeEnds(whole, rest)
    ensures ParseWhole(whole + rest) == (Decimal(whole), rest)
  {
    var s := whole + rest;
    if whole == "" {
      assert s == rest;
    } else {
      assert whole[0] in whole && s[0] == whole[0] && whole == [whole[0]] + whole[1..];
      assert s[1..] == whole[1..] + rest;
      if whole[0] == '0' {
        LeadingZero(whole);
        if |whole| > 1 {
          assert whole[1] in whole && s[1..][0] == whole[1];
          ReadNumeral(whole[1..], 0, rest);
        } else {
          assert s[1..] == rest;
        }
      } else {
        ReadNumeral(whole, 0, rest);
      }
    }
    hide ReadDigits;
  }

  lemma LeadingZero(s: string)
    requires AllDigits(s) && s != [] && s[0] == '0'
    ensures AllDigits(s[1..]) && Decimal(s) == Decimal(s[1..])
  {
    assert forall c :: c in s[1..] ==> c in s;
    assert s == "0" + s[1..];
    ContinuedAppend(0, "0", s[1..]);
    assert "0"[..0] == [] && Continued(0, "0") == 10 * Continued(0, "0"[..0]) + 0;
  }

  lemma FractionParses(fraction: string, whole: nat, rest: string)
    requires AllDigits(fraction) && FractionEnds(fraction, rest)
    ensures ParseFraction(SpellFraction(fraction, rest), whole) == (Continued(whole, fraction), |fraction|, rest)
  {
    if fraction != "" {
      var s := SpellFraction(fraction, rest);
      assert s[1..] == fraction + rest && fraction[0] in fraction && s[1..][0] == fraction[0];
      ReadNumeral(fraction, whole, rest);
    }
    hide ReadDigits;
  }

  lemma ExponentParses(x: ExponentText, rest: string)
    requires IsExponent(x) && ExponentEnds(x, rest)
    ensures ParseExponent(SpellExponent(x, rest)) == (ExponentOf(x), rest)
  {
    match x
    case NoExponent =>
    case ExponentText(e, sign, digits) =>
      var s, t := SpellExponent(x, rest), sign + (digits + rest);
      assert s[0] == e && s[1..] == t;
      if sign != "" {
        assert t[0] == sign[0] && t[1..] == digits + rest;
      } else {
        assert t == digits + rest;
        if digits != "" { assert digits[0] in digits && t[0] == digits[0]; } else { assert t == rest; }
      }
      ReadNumeral(digits, 0, rest);
      hide ReadDigits;
  }

  lemma NumberEndsParts(n: NumberText, rest: string)
    requires IsNumber(n) && NumberEnds(n, rest)
    ensures var x := SpellExponent(n.exponent, rest);
      && IsExponent(n.exponent) && ExponentEnds(n.exponent, rest) && FractionEnds(n.fraction, x)
      && WholeEnds(n.whole, SpellFraction(n.fraction, x))
    ensures IsWhole(n.whole) && AllDigits(n.whole) && AllDigits(n.fraction)
  {
    hide AllDigits;
  }

  lemma NumberSign(n: NumberText, rest: string)
    requires IsNumber(n)
    ensures var s := SpellNumber(n, rest);
      && s != [] && (s[0] == '-' <==> n.minus) && (Starts(s, '-') || StartsDigit(s))
      && (if n.minus then s[1..] else s) == n.whole + SpellFraction(n.fraction, SpellExponent(n.exponent, rest))
  {
    hide SpellFraction, SpellExponent;
    if !n.minus { assert n.whole[0] in n.whole; }
  }

  /** The text of a number parses to what it stands for. */
  lemma NumberParses(n: NumberText, rest: string)
    requires IsNumber(n) && NumberEnds(n, rest)
    ensures var s := SpellNumber(n, rest);
      (Starts(s, '-') || StartsDigit(s)) && ParseNumber(s) == (Number(NumberValue(n)), rest)
  {
    hide *;
    var x := SpellExponent(n.exponent, rest);
    NumberEndsParts(n, rest);
    NumberSign(n, rest);
    WholeParses(n.whole, SpellFraction(n.fraction, x));
    FractionParses(n.fraction, Decimal(n.whole), x);
    ExponentParses(n.exponent, rest);
    DecimalAppend(n.whole, n.fraction);
    ScaledIs(n.whole + n.fraction, ExponentOf(n.exponent) - |n.fraction|);
    NumberFrom(SpellNumber(n, rest), n, rest);
  }

  lemma DecimalAppend(a: string, b: string)
    requires AllDigits(a) && AllDigits(b)
    ensures AllDigits(a + b) && Decimal(a + b) == Continued(Decimal(a), b)
  {
    ContinuedAppend(0, a, b);
    hide Continued;
  }

  lemma NumberFrom(s: string, n: NumberText, rest: string)
    requires IsNumber(n) && s != [] && (s[0] == '-' <==> n.minus) && (Starts(s, '-') || StartsDigit(s))
    requires var x := SpellExponent(n.exponent, rest);
      && ParseWhole(if n.minus then s[1..] else s) == (Decimal(n.whole), SpellFraction(n.fraction, x))
      && AllDigits(n.whole + n.fraction)
      && ParseFraction(SpellFraction(n.fraction, x), Decimal(n.whole)) == (Decimal(n.whole + n.fraction), |n.fraction|, x)
      && ParseExponent(x) == (ExponentOf(n.exponent), rest)
      && Scaled(Decimal(n.whole + n.fraction), ExponentOf(n.exponent) - |n.fraction|)
         == Decimal(PointMoved(n.whole + n.fraction, ExponentOf(n.exponent) - |n.fraction|))
    ensures ParseNumber(s) == (Number(NumberValue(n)), rest)
  {
    hide ParseWhole, ParseFraction, ParseExponent, Scaled, Continued, PointMoved, SpellFraction, SpellExponent;
  }

  // ----- and what is read has these parts

  lemma WholeParsed(s: string) returns (whole: string)
    ensures var rest := ParseWhole(s).1; IsWhole(whole) && s == whole + rest && WholeEnds(whole, rest)
  {
    hide *;
    var zero, t := WholeCut(s);
    if StartsDigit(t) && t[0] != '0' {
      var p := NumeralRead(t, 0);
      whole := zero + p;
      Assoc(zero, p, ReadDigits(t, 0).1);
      JoinedWhole(zero, p, t, ReadDigits(t, 0).1);
    } else {
      whole := zero;
      ZeroWhole(zero, t);
    }
  }

  lemma WholeCut(s: string) returns (zero: string, t: string)
    ensures s == zero + t && zero in {"", "0"} && (zero == "" ==> !Starts(t, '0')) && (StartsDigit(t) ==> t != [])
    ensures ParseWhole(s).1 == if StartsDigit(t) && t[0] != '0' then ReadDigits(t, 0).1 else t
  {
    zero, t := if Starts(s, '0') then "0" else "", if Starts(s, '0') then s[1..] else s;
    hide ReadDigits;
  }

  lemma JoinedWhole(zero: string, p: string, t: string, rest: string)
    requires zero in {"", "0"} && AllDigits(p) && t == p + rest && StartsDigit(t) && t[0] != '0' && !StartsDigit(rest)
    ensures IsWhole(zero + p) && WholeEnds(zero + p, rest)
  {
    if p != "" { assert p[0] == t[0]; }
  }

  lemma ZeroWhole(zero: string, t: string)
    requires zero in {"", "0"} && !(StartsDigit(t) && t[0] != '0') && (zero == "" ==> !Starts(t, '0'))
    ensures IsWhole(zero) && WholeEnds(zero, t)
  {
  }

  lemma FractionParsed(s: string, whole: nat) returns (fraction: string)
    ensures var rest := ParseFraction(s, whole).2;
      AllDigits(fraction) && s == SpellFraction(fraction, rest) && FractionEnds(fraction, rest)
  {
    fraction := "";
    if Starts(s, '.') && StartsDigit(s[1..]) {
      fraction := NumeralRead(s[1..], whole);
      assert s == "." + s[1..];
    }
    hide ReadDigits;
  }

  lemma ExponentParsed(s: string) returns (x: ExponentText)
    ensures IsExponent(x) && s == SpellExponent(x, ParseExponent(s).1) && ExponentEnds(x, ParseExponent(s).1)
  {
    x := NoExponent;
    if Starts(s, 'e') || Starts(s, 'E') {
      hide *;
      var t, sign, more := SignCut(s);
      var p := NumeralRead(more, 0);
      x := ExponentText(s[0], sign, p);
      ExponentBy(s, x, t, more);
    }
  }

  lemma SignCut(s: string) returns (t: string, sign: string, more: string)
    requires Starts(s, 'e') || Starts(s, 'E')
    ensures s != [] && s[0] in {'e', 'E'} && s == [s[0]] + t && t == sign + more && sign in {"", "+", "-"}
    ensures (sign == "" ==> !Starts(more, '+') && !Starts(more, '-')) && ParseExponent(s).1 == ReadDigits(more, 0).1
  {
    t := s[1..];
    sign := if Starts(t, '+') || Starts(t, '-') then [t[0]] else "";
    more := t[|sign|..];
    hide ReadDigits;
    if sign == "" { assert t[0..] == t; }
  }

  lemma ExponentBy(s: string, x: ExponentText, t: string, more: string)
    requires x.ExponentText? && x.e in {'e', 'E'} && s == [x.e] + t && t == x.sign + more && x.sign in {"", "+", "-"} && AllDigits(x.digits)
    requires x.sign == "" ==> !Starts(more, '+') && !Starts(more, '-')
    requires var rest := ParseExponent(s).1; rest == ReadDigits(more, 0).1 && more == x.digits + rest && !StartsDigit(rest)
    ensures IsExponent(x) && s == SpellExponent(x, ParseExponent(s).1) && ExponentEnds(x, ParseExponent(s).1)
  {
    hide ParseExponent, ReadDigits, AllDigits;
    if x.digits == "" { assert more == ParseExponent(s).1; }
  }

  /** What parses as a number is one. */
  lemma NumberParsed(s: string) returns (n: NumberText)
    requires Starts(s, '-') || StartsDigit(s)
    ensures var (v, rest) := ParseNumber(s);
      IsNumber(n) && NumberEnds(n, rest) && s == SpellNumber(n, rest) && v == Number(NumberValue(n))
  {
    var minus := s[0] == '-';
    var t := if minus then s[1..] else s;
    var (w, s1) := ParseWhole(t);
    var whole := WholeParsed(t);
    var (d, places, s2) := ParseFraction(s1, w);
    var fraction := FractionParsed(s1, w);
    var exponent := ExponentParsed(s2);
    var rest := ParseExponent(s2).1;
    n := NumberText(minus, whole, fraction, exponent);
    hide ParseWhole, ParseFraction, ParseExponent, Scaled;
    assert ParseNumber(s).1 == rest;
    if minus { assert s == "-" + t; } else { assert s == "" + t; }
    NumberIsParts(n, rest, s, t);
    NumberParses(n, rest);
  }

  lemma NumberIsParts(n: NumberText, rest: string, s: string, t: string)
    requires IsWhole(n.whole) && AllDigits(n.fraction) && IsExponent(n.exponent) && ExponentEnds(n.exponent, rest)
    requires var x := SpellExponent(n.exponent, rest);
      && FractionEnds(n.fraction, x) && WholeEnds(n.whole, SpellFraction(n.fraction, x))
      && t == n.whole + SpellFraction(n.fraction, x)
    requires s == (if n.minus then "-" else "") + t && (n.minus || StartsDigit(t))
    ensures IsNumber(n) && NumberEnds(n, rest) && s == SpellNumber(n, rest)
  {
    hide AllDigits;
    assert n.whole == "" ==> t == SpellFraction(n.fraction, SpellExponent(n.exponent, rest));
  }

  // ----- values

  /** A value as it is written; `inner` is the white space between the brackets of an empty array or object. */
  datatype Tree =
    | NullWord
    | FalseWord
    | TrueWord
    | Numeral(number: NumberText)
    | Literal(units: seq<Unit>)
    | List(items: seq<Padded>, inner: string)
    | Record(members: seq<Member>, inner: string)

  /** An element with the white space around it. */
  datatype Padded = Padded(before: string, tree: Tree, after: string)

  /** A member with the white space around its name, its colon and its value. */
  datatype Member = Member(before: string, name: seq<Unit>, between: string, padded: Padded)

  ghost predicate IsTree(t: Tree)
    decreases t, 1
  {
    match t
    case Numeral(n) => IsNumber(n)
    case Literal(us) => AreUnits(us)
    case List(xs, inner) => Blank(inner) && AreItems(xs)
    case Record(ms, inner) => Blank(inner) && AreMembers(ms)
    case _ => true
  }

  ghost predicate AreItems(xs: seq<Padded>)
    decreases xs, 0
  {
    forall x | x in xs :: IsPadded(x)
  }

  ghost predicate IsPadded(x: Padded)
    decreases x, 0
  {
    Blank(x.before) && IsTree(x.tree) && Blank(x.after)
  }

  ghost predicate AreMembers(ms: seq<Member>)
    decreases ms, 0
  {
    forall m | m in ms :: Blank(m.before) && AreUnits(m.name) && Blank(m.between) && IsPadded(m.padded)
  }

  function SpellLiteral(us: seq<Unit>, k: string): string {
    "\"" + (UnitsText(us) + ("\"" + k))
  }

  /** The text of a tree in front of `k`. */
  function Spell(t: Tree, k: string): string
    decreases t, 1
  {
    match t
    case NullWord => "null" + k
    case FalseWord => "false" + k
    case TrueWord => "true" + k
    case Numeral(n) => SpellNumber(n, k)
    case Literal(us) => SpellLiteral(us, k)
    case List(xs, inner) => "[" + (if xs == [] then inner + ("]" + k) else SpellItems(xs, "]" + k))
    case Record(ms, inner) => "{" + (if ms == [] then inner + ("}" + k) else SpellMembers(ms, "}" + k))
  }

  function SpellItems(xs: seq<Padded>, k: string): string
    decreases xs, 0
  {
    if xs == [] then k
    else SpellPadded(xs[0], if |xs| == 1 then k else "," + SpellItems(xs[1..], k))
  }

  function SpellPadded(x: Padded, k: string): string
    decreases x, 0
  {
    x.before + Spell(x.tree, x.after + k)
  }

  function SpellMembers(ms: seq<Member>, k: string): string
    decreases ms, 0
  {
    if ms == [] then k
    else
      ms[0].before
      + SpellLiteral(ms[0].name, ms[0].between + (":" + SpellPadded(ms[0].padded, if |ms| == 1 then k else "," + SpellMembers(ms[1..], k))))
  }

  /** What the tree stands for. */
  ghost function ValueOf(t: Tree): Json
    requires IsTree(t)
    decreases t, 1
  {
    match t
    case NullWord => Null
    case FalseWord => False
    case TrueWord => True
    case Numeral(n) => Number(NumberValue(n))
    case Literal(us) => String(UnitsBytes(us))
    case List(xs, _) => Array(ItemValues(xs))
    case Record(ms, _) => Object(MemberValues(ms))
  }

  ghost function ItemValues(xs: seq<Padded>): (r: seq<Json>)
    requires AreItems(xs)
    ensures |r| == |xs|
    decreases xs, 0
  {
    seq(|xs|, i requires 0 <= i < |xs| => assert xs[i] in xs && IsPadded(xs[i]); ValueOf(xs[i].tree))
  }

  ghost function MemberValues(ms: seq<Member>): (r: seq<Entry<Json>>)
    requires AreMembers(ms)
    ensures |r| == |ms|
    decreases ms, 0
  {
    seq(|ms|, i requires 0 <= i < |ms| => assert ms[i] in ms && IsPadded(ms[i].padded); Entry(UnitsBytes(ms[i].name), ValueOf(ms[i].padded.tree)))
  }

  /** The text after a value does not continue it. */
  ghost predicate TreeEnds(t: Tree, rest: string) {
    t.Numeral? ==> NumberEnds(t.number, rest)
  }

  // ----- lists of elements and members

  lemma ItemsHead(xs: seq<Padded>)
    requires xs != [] && AreItems(xs)
    ensures IsPadded(xs[0]) && IsTree(xs[0].tree) && AreItems(xs[1..])
    ensures ItemValues(xs) == [ValueOf(xs[0].tree)] + ItemValues(xs[1..])
  {
    hide IsTree, ValueOf;
    assert xs[0] in xs;
    assert AreItems(xs[1..]);
    assert forall i :: 0 <= i < |xs| - 1 ==> xs[1..][i] == xs[i + 1];
  }

  lemma MembersHead(ms: seq<Member>)
    requires ms != [] && AreMembers(ms)
    ensures var m := ms[0];
      && Blank(m.before) && AreUnits(m.name) && Blank(m.between) && IsPadded(m.padded) && IsTree(m.padded.tree) && AreMembers(ms[1..])
      && MemberValues(ms) == [Entry(UnitsBytes(m.name), ValueOf(m.padded.tree))] + MemberValues(ms[1..])
  {
    hide IsTree, ValueOf, AreUnits;
    assert ms[0] in ms;
    assert AreMembers(ms[1..]);
    assert forall i :: 0 <= i < |ms| - 1 ==> ms[1..][i] == ms[i + 1];
  }

  // ----- every text of the grammar parses

  lemma WordsParse(t: Tree, k: string)
    requires t.NullWord? || t.FalseWord? || t.TrueWord?
    ensures ParseValue(Spell(t, k)) == Some((ValueOf(t), k))
  {
    ParseLiterals(k);
  }

  lemma QuoteStarts(s: string)
    requires Starts(s, '\"')
    ensures ParseValue(s) == match ParseString(s) case None => None case Some((t, rest)) => Some((String(t), rest))
  {
    hide ParseString;
  }

  /** No white space in front of a value, and after it nothing that continues it. */
  lemma SpellStarts(t: Tree, k: string)
    requires IsTree(t)
    ensures var s := Spell(t, k); StartsSolid(s) && s[0] != ']' && s[0] != '}' && s[0] != ',' && Skip(s) == s
  {
    if t.Numeral? { NumberSign(t.number, k); }
    hide SpellNumber, SpellItems, SpellMembers, SpellLiteral, UnitsText;
    SpellFirst(t, k);
  }

  lemma SpellFirst(t: Tree, k: string)
    ensures t.Numeral? ==> Spell(t, k) == SpellNumber(t.number, k)
    ensures !t.Numeral? ==> Spell(t, k) != [] && Spell(t, k)[0] in {'n', 'f', 't', '\"', '[', '{'}
  {
    hide SpellItems, SpellMembers, SpellNumber, UnitsText;
  }

  lemma BlankEnds(t: Tree, after: string, k: string)
    requires Blank(after) && k != [] && k[0] in {',', ']', '}'}
    ensures TreeEnds(t, after + k)
  {
    if after != [] { assert (after + k)[0] == after[0]; } else { assert after + k == k; }
  }

  lemma ClosesSolid(k: string)
    requires k != [] && k[0] in {',', ']', '}', ':'}
    ensures Skip(k) == k
  {
  }

  lemma {:induction false} TreeParses(t: Tree, k: string)
    requires IsTree(t) && TreeEnds(t, k)
    ensures ParseValue(Spell(t, k)) == Some((ValueOf(t), k))
    decreases t, 1
  {
    match t
    case Numeral(n) => NumeralParses(n, k);
    case Literal(us) => LiteralValue(us, k);
    case List(xs, inner) => ListParses(xs, inner, k);
    case Record(ms, inner) => RecordParses(ms, inner, k);
    case _ => WordsParse(t, k);
  }

  lemma NumeralParses(n: NumberText, k: string)
    requires IsNumber(n) && NumberEnds(n, k)
    ensures ParseValue(SpellNumber(n, k)) == Some((Number(NumberValue(n)), k))
  {
    hide *;
    NumberParses(n, k);
    StartsNumber(SpellNumber(n, k));
  }

  lemma LiteralValue(us: seq<Unit>, k: string)
    requires AreUnits(us)
    ensures ParseValue(SpellLiteral(us, k)) == Some((String(UnitsBytes(us)), k))
  {
    LiteralParses(us, k);
    hide AreUnits, UnitsText, UnitsBytes, ParseString, ParseValue;
    QuoteStarts(SpellLiteral(us, k));
  }

  lemma {:induction false} PaddedParses(x: Padded, k: string)
    requires IsPadded(x) && k != [] && k[0] in {',', ']', '}'}
    ensures Skip(SpellPadded(x, k)) == Spell(x.tree, x.after + k)
    ensures ParseValue(Spell(x.tree, x.after + k)) == Some((ValueOf(x.tree), x.after + k)) && Skip(x.after + k) == k
    decreases x, 0
  {
    hide Spell, ParseValue, Skip, IsTree, ValueOf, TreeEnds;
    SpellStarts(x.tree, x.after + k);
    SkipBlank(x.before, Spell(x.tree, x.after + k));
    SkipBlank(x.after, k);
    ClosesSolid(k);
    BlankEnds(x.tree, x.after, k);
    TreeParses(x.tree, x.after + k);
  }

  lemma ItemsLast(s: string, v: Json, r: string, k: string)
    requires ParseValue(Skip(s)) == Some((v, r)) && Skip(r) == "]" + k
    ensures ParseItems(s) == Some(([v], k))
  {
    hide ParseValue, Skip;
    assert ("]" + k)[1..] == k;
  }

  lemma ItemsNext(s: string, v: Json, r: string, tail: string, xs: seq<Json>, k: string)
    requires ParseValue(Skip(s)) == Some((v, r)) && Skip(r) == "," + tail && ParseItems(tail) == Some((xs, k))
    ensures ParseItems(s) == Some(([v] + xs, k))
  {
    hide ParseValue, Skip;
    assert ("," + tail)[1..] == tail;
  }

  lemma ItemsSpelled(xs: seq<Padded>, k: string)
    requires xs != []
    ensures SpellItems(xs, k) == SpellPadded(xs[0], if |xs| == 1 then k else "," + SpellItems(xs[1..], k))
  {
    hide SpellPadded;
  }

  lemma OneItem(xs: seq<Padded>)
    requires |xs| == 1 && AreItems(xs)
    ensures IsTree(xs[0].tree) && ItemValues(xs) == [ValueOf(xs[0].tree)]
  {
    hide IsTree, ValueOf;
    assert xs[0] in xs && IsPadded(xs[0]);
  }

  lemma {:induction false} ItemsParse(xs: seq<Padded>, k: string)
    requires xs != [] && AreItems(xs)
    ensures ParseItems(SpellItems(xs, "]" + k)) == Some((ItemValues(xs), k))
    decreases xs, 0
  {
    hide *;
    var x, s := xs[0], SpellItems(xs, "]" + k);
    var more := if |xs| == 1 then "]" + k else "," + SpellItems(xs[1..], "]" + k);
    ItemsHead(xs);
    ItemsSpelled(xs, "]" + k);
    PaddedParses(x, more);
    if |xs| == 1 {
      OneItem(xs);
      ItemsLast(s, ValueOf(x.tree), x.after + more, k);
    } else {
      ItemsParse(xs[1..], k);
      ItemsNext(s, ValueOf(x.tree), x.after + more, SpellItems(xs[1..], "]" + k), ItemValues(xs[1..]), k);
    }
  }

  lemma {:induction false} PaddedStarts(x: Padded, k: string)
    requires IsPadded(x) && k != [] && k[0] in {',', ']', '}'}
    ensures var s := Skip(SpellPadded(x, k)); StartsSolid(s) && s[0] != ']' && s[0] != '}' && Skip(s) == s
    decreases x, 1
  {
    hide *;
    PaddedTree(x);
    PaddedParses(x, k);
    SpellStarts(x.tree, x.after + k);
  }

  lemma PaddedTree(x: Padded)
    requires IsPadded(x)
    ensures IsTree(x.tree)
  {
    hide IsTree;
  }

  lemma ListSpelled(xs: seq<Padded>, inner: string, k: string)
    ensures var s := Spell(List(xs, inner), k);
      s != [] && Starts(s, '[') && s[1..] == if xs == [] then inner + ("]" + k) else SpellItems(xs, "]" + k)
  {
    hide SpellItems;
  }

  lemma ListIs(xs: seq<Padded>, inner: string)
    requires IsTree(List(xs, inner))
    ensures Blank(inner) && AreItems(xs) && ValueOf(List(xs, inner)) == Array(ItemValues(xs))
    ensures xs == [] ==> ItemValues(xs) == []
  {
    hide AreItems;
  }

  lemma {:induction false} ListParses(xs: seq<Padded>, inner: string, k: string)
    requires IsTree(List(xs, inner))
    ensures ParseValue(Spell(List(xs, inner), k)) == Some((ValueOf(List(xs, inner)), k))
    decreases xs, 1
  {
    hide *;
    var s := Spell(List(xs, inner), k);
    ListIs(xs, inner);
    ListSpelled(xs, inner, k);
    ParseBracket(s);
    if xs == [] {
      SkipBlank(inner, "]" + k);
      Closing(']', k);
      ClosesSolid("]" + k);
    } else {
      ItemsHead(xs);
      ItemsSpelled(xs, "]" + k);
      PaddedStarts(xs[0], if |xs| == 1 then "]" + k else "," + SpellItems(xs[1..], "]" + k));
      NotClosed(Skip(s[1..]));
      ParseAfterSkip(Skip(s[1..]), s[1..]);
      ItemsParse(xs, k);
    }
  }

  lemma NotClosed(s: string)
    ensures StartsSolid(s) && s[0] != ']' && s[0] != '}' ==> !Starts(s, ']') && !Starts(s, '}')
  {
  }

  // ----- objects

  lemma MembersSpelled(ms: seq<Member>, k: string)
    requires ms != []
    ensures var more := if |ms| == 1 then k else "," + SpellMembers(ms[1..], k);
      SpellMembers(ms, k) == ms[0].before + SpellLiteral(ms[0].name, ms[0].between + (":" + SpellPadded(ms[0].padded, more)))
  {
    hide SpellPadded, SpellLiteral;
  }

  lemma MemberPieces(m: Member, more: string)
    ensures var value := SpellPadded(m.padded, more);
      Skip(":" + value) == ":" + value && (":" + value)[1..] == value && Starts(":" + value, ':')
    ensures forall k: string :: Starts(SpellLiteral(m.name, k), '\"') && Skip(SpellLiteral(m.name, k)) == SpellLiteral(m.name, k)
  {
    hide SpellPadded, UnitsText;
  }

  lemma LiteralText(us: seq<Unit>, k: string)
    ensures SpellLiteral(us, k) == "\"" + (UnitsText(us) + ("\"" + k))
  {
  }

  lemma MemberBy(s: string, name: string, r: string, colon: string, v: Json, end: string)
    requires ParseString(Skip(s)) == Some((name, r)) && Skip(r) == colon && Starts(colon, ':')
    requires ParseValue(Skip(colon[1..])) == Some((v, end))
    ensures ParseMember(s) == Some((Entry(name, v), end))
  {
    hide ParseString, ParseValue, Skip;
  }

  lemma {:induction false} MemberParses(m: Member, more: string)
    requires Blank(m.before) && AreUnits(m.name) && Blank(m.between) && IsPadded(m.padded) && IsTree(m.padded.tree)
    requires more != [] && more[0] in {',', ']', '}'}
    ensures var s := m.before + SpellLiteral(m.name, m.between + (":" + SpellPadded(m.padded, more)));
      && ParseMember(s) == Some((Entry(UnitsBytes(m.name), ValueOf(m.padded.tree)), m.padded.after + more))
      && Skip(m.padded.after + more) == more && Starts(Skip(s), '\"')
    decreases m, 0
  {
    hide *;
    var value := SpellPadded(m.padded, more);
    var lit := SpellLiteral(m.name, m.between + (":" + value));
    MemberPieces(m, more);
    SkipBlank(m.before, lit);
    LiteralText(m.name, m.between + (":" + value));
    LiteralParses(m.name, m.between + (":" + value));
    SkipBlank(m.between, ":" + value);
    PaddedParses(m.padded, more);
    MemberBy(m.before + lit, UnitsBytes(m.name), m.between + (":" + value), ":" + value, ValueOf(m.padded.tree), m.padded.after + more);
  }

  lemma MembersLast(s: string, m: Entry<Json>, r: string, k: string)
    requires ParseMember(s) == Some((m, r)) && Skip(r) == "}" + k
    ensures ParseMembers(s) == Some(([m], k))
  {
    LastMember(s, m, r, k);
  }

  lemma MembersNext(s: string, m: Entry<Json>, r: string, tail: string, ms: seq<Entry<Json>>, k: string)
    requires ParseMember(s) == Some((m, r)) && Skip(r) == "," + tail && ParseMembers(tail) == Some((ms, k))
    ensures ParseMembers(s) == Some(([m] + ms, k))
  {
    hide ParseMember, Skip;
    assert ("," + tail)[1..] == tail;
  }

  lemma OneMember(ms: seq<Member>)
    requires |ms| == 1 && AreMembers(ms)
    ensures IsTree(ms[0].padded.tree) && MemberValues(ms) == [Entry(UnitsBytes(ms[0].name), ValueOf(ms[0].padded.tree))]
  {
    hide IsTree, ValueOf, UnitsBytes;
    assert ms[0] in ms && IsPadded(ms[0].padded);
  }

  lemma {:induction false} MembersParse(ms: seq<Member>, k: string)
    requires ms != [] && AreMembers(ms)
    ensures ParseMembers(SpellMembers(ms, "}" + k)) == Some((MemberValues(ms), k))
    ensures Starts(Skip(SpellMembers(ms, "}" + k)), '\"')
    decreases ms, 0
  {
    hide *;
    var m, s := ms[0], SpellMembers(ms, "}" + k);
    var more := if |ms| == 1 then "}" + k else "," + SpellMembers(ms[1..], "}" + k);
    MembersHead(ms);
    var e := Entry(UnitsBytes(m.name), ValueOf(m.padded.tree));
    MembersSpelled(ms, "}" + k);
    MemberParses(m, more);
    if |ms| == 1 {
      OneMember(ms);
      MembersLast(s, e, m.padded.after + more, k);
    } else {
      MembersParse(ms[1..], k);
      MembersNext(s, e, m.padded.after + more, SpellMembers(ms[1..], "}" + k), MemberValues(ms[1..]), k);
    }
  }

  lemma RecordSpelled(ms: seq<Member>, inner: string, k: string)
    ensures var s := Spell(Record(ms, inner), k);
      s != [] && Starts(s, '{') && s[1..] == if ms == [] then inner + ("}" + k) else SpellMembers(ms, "}" + k)
  {
    hide SpellMembers;
  }

  lemma RecordIs(ms: seq<Member>, inner: string)
    requires IsTree(Record(ms, inner))
    ensures Blank(inner) && AreMembers(ms) && ValueOf(Record(ms, inner)) == Object(MemberValues(ms))
    ensures ms == [] ==> MemberValues(ms) == []
  {
    hide AreMembers;
  }

  lemma {:induction false} RecordParses(ms: seq<Member>, inner: string, k: string)
    requires IsTree(Record(ms, inner))
    ensures ParseValue(Spell(Record(ms, inner), k)) == Some((ValueOf(Record(ms, inner)), k))
    decreases ms, 1
  {
    hide *;
    var s := Spell(Record(ms, inner), k);
    RecordIs(ms, inner);
    RecordSpelled(ms, inner, k);
    ParseBrace(s);
    if ms == [] {
      SkipBlank(inner, "}" + k);
      Closing('}', k);
      ClosesSolid("}" + k);
    } else {
      MembersParse(ms, k);
      QuoteNotBrace(Skip(s[1..]));
      SkipTwice(s[1..]);
      ParseAfterSkip(Skip(s[1..]), s[1..]);
    }
  }

  // ----- and what parses is such a text

  /** A literal the text ends in, which the parser takes as closed. */
  ghost predicate OpenLiteral(s: string, v: Json) {
    exists us :: AreUnits(us) && s == "\"" + UnitsText(us) && v == String(UnitsBytes(us))
  }

  lemma {:induction false} SkipSplit(s: string) returns (w: string)
    ensures Blank(w) && s == w + Skip(s)
  {
    w := "";
    if s != [] && s[0] as int <= 32 {
      var more := SkipSplit(s[1..]);
      w := [s[0]] + more;
      assert s == [s[0]] + s[1..];
    }
  }

  lemma SkipSome(s: string)
    ensures |Skip(s)| <= |s| && (Skip(s) != [] ==> s != [])
  {
    hide Skip;
  }

  lemma Opened(s: string)
    ensures forall c :: Starts(s, c) ==> s != [] && s == [c] + s[1..]
  {
  }

  lemma StartsWith(s: string)
    ensures forall c :: Starts(s, c) ==> s[0] == c
  {
  }

  /** One element and what follows it. */
  lemma ItemsShape(s: string)
    requires ParseItems(s).Some?
    ensures ParseValue(Skip(s)).Some?
    ensures var (v, r) := ParseValue(Skip(s)).value;
      var t := Skip(r);
      && t != [] && r != [] && |t| < |s| && t == [t[0]] + t[1..]
      && if t[0] == ',' then ParseItems(t[1..]).Some? && ParseItems(s) == Some(([v] + ParseItems(t[1..]).value.0, ParseItems(t[1..]).value.1))
         else t[0] == ']' && ParseItems(s) == Some(([v], t[1..]))
  {
    hide ParseValue, Skip, Starts;
    var r := ParseValue(Skip(s)).value.1;
    SkipSome(s);
    SkipSome(r);
    Opened(Skip(r));
    StartsWith(Skip(r));
  }

  lemma MembersShape(s: string)
    requires ParseMembers(s).Some?
    ensures ParseMember(s).Some?
    ensures var (m, r) := ParseMember(s).value;
      var t := Skip(r);
      && t != [] && r != [] && |t| < |s| && t == [t[0]] + t[1..]
      && if t[0] == ',' then ParseMembers(t[1..]).Some? && ParseMembers(s) == Some(([m] + ParseMembers(t[1..]).value.0, ParseMembers(t[1..]).value.1))
         else t[0] == '}' && ParseMembers(s) == Some(([m], t[1..]))
  {
    hide ParseMember, Skip, Starts;
    var r := ParseMember(s).value.1;
    SkipSome(r);
    Opened(Skip(r));
    StartsWith(Skip(r));
  }

  lemma MemberShape(s: string)
    requires ParseMember(s).Some?
    ensures ParseString(Skip(s)).Some?
    ensures var (name, r) := ParseString(Skip(s)).value;
      var t := Skip(r);
      && t != [] && r != [] && t[0] == ':' && t == ":" + t[1..] && |t| < |s| && ParseValue(Skip(t[1..])).Some? && |Skip(t[1..])| < |s|
      && ParseMember(s) == Some((Entry(name, ParseValue(Skip(t[1..])).value.0), ParseValue(Skip(t[1..])).value.1))
  {
    hide ParseValue, ParseString, Skip, Starts;
    var r := ParseString(Skip(s)).value.1;
    SkipSome(s);
    SkipSome(r);
    Opened(Skip(r));
    StartsWith(Skip(r));
  }

  lemma ItemsCons(x: Padded, ys: seq<Padded>, k: string)
    requires IsPadded(x) && AreItems(ys)
    ensures AreItems([x] + ys) && IsTree(x.tree) && ItemValues([x] + ys) == [ValueOf(x.tree)] + ItemValues(ys)
    ensures SpellItems([x] + ys, k) == SpellPadded(x, if ys == [] then k else "," + SpellItems(ys, k))
  {
    var xs := [x] + ys;
    assert xs[1..] == ys;
    assert forall y | y in xs :: IsPadded(y);
    ItemsHead(xs);
    ItemsSpelled(xs, k);
    hide *;
  }

  lemma MembersCons(m: Member, ns: seq<Member>, k: string)
    requires Blank(m.before) && AreUnits(m.name) && Blank(m.between) && IsPadded(m.padded) && AreMembers(ns)
    ensures AreMembers([m] + ns) && IsTree(m.padded.tree)
    ensures MemberValues([m] + ns) == [Entry(UnitsBytes(m.name), ValueOf(m.padded.tree))] + MemberValues(ns)
    ensures var more := if ns == [] then k else "," + SpellMembers(ns, k);
      SpellMembers([m] + ns, k) == m.before + SpellLiteral(m.name, m.between + (":" + SpellPadded(m.padded, more)))
  {
    var ms := [m] + ns;
    assert ms[1..] == ns;
    assert AreMembers(ms);
    MembersHead(ms);
    MembersSpelled(ms, k);
    hide *;
  }

  lemma PaddedIs(before: string, t: Tree, after: string, k: string)
    ensures SpellPadded(Padded(before, t, after), k) == before + Spell(t, after + k)
    ensures Blank(before) && IsTree(t) && Blank(after) ==> IsPadded(Padded(before, t, after))
  {
    hide Spell, IsTree;
  }

  lemma NoItems()
    ensures AreItems([]) && ItemValues([]) == [] && AreMembers([]) && MemberValues([]) == []
  {
  }

  lemma {:induction false} ParsedItems(s: string) returns (xs: seq<Padded>)
    requires ParseItems(s).Some?
    ensures var (vs, rest) := ParseItems(s).value;
      xs != [] && AreItems(xs) && s == SpellItems(xs, "]" + rest) && vs == ItemValues(xs)
    decreases |s|, 2
  {
    hide *;
    var rest := ParseItems(s).value.1;
    var w := SkipSplit(s);
    ItemsShape(s);
    var r := ParseValue(Skip(s)).value.1;
    var a := SkipSplit(r);
    var t := ParsedValue(Skip(s));
    var x, more := Padded(w, t.value, a), Skip(r);
    var ys: seq<Padded> := [];
    NoItems();
    if more[0] == ',' { ys := ParsedItems(more[1..]); }
    PaddedIs(w, t.value, a, more);
    ItemsCons(x, ys, "]" + rest);
    xs := [x] + ys;
  }

  lemma {:induction false} ParsedMember(s: string) returns (m: Member)
    requires ParseMember(s).Some? && ParseMember(s).value.1 != []
    ensures var (e, r) := ParseMember(s).value;
      && Blank(m.before) && AreUnits(m.name) && Blank(m.between) && IsPadded(m.padded) && IsTree(m.padded.tree)
      && e == Entry(UnitsBytes(m.name), ValueOf(m.padded.tree))
      && s == m.before + SpellLiteral(m.name, m.between + (":" + SpellPadded(m.padded, Skip(r))))
    decreases |s|, 2
  {
    hide *;
    MemberShape(s);
    var w := SkipSplit(s);
    var r := ParseString(Skip(s)).value.1;
    var us := LiteralParsed(Skip(s));
    var between := SkipSplit(r);
    var v := Skip(r)[1..];
    var before := SkipSplit(v);
    var end := ParseValue(Skip(v)).value.1;
    var after := SkipSplit(end);
    var t := ParsedValue(Skip(v));
    PaddedIs(before, t.value, after, Skip(end));
    LiteralText(us, r);
    m := Member(w, us, between, Padded(before, t.value, after));
  }

  lemma {:induction false} ParsedMembers(s: string) returns (ms: seq<Member>)
    requires ParseMembers(s).Some?
    ensures var (es, rest) := ParseMembers(s).value;
      ms != [] && AreMembers(ms) && s == SpellMembers(ms, "}" + rest) && es == MemberValues(ms)
    decreases |s|, 3
  {
    hide *;
    var rest := ParseMembers(s).value.1;
    MembersShape(s);
    var m := ParsedMember(s);
    var more := Skip(ParseMember(s).value.1);
    var ns: seq<Member> := [];
    NoItems();
    if more[0] == ',' { ns := ParsedMembers(more[1..]); }
    MembersCons(m, ns, "}" + rest);
    ms := [m] + ns;
  }

  /** A value by its first character. */
  lemma ValueShape(s: string)
    requires ParseValue(s).Some?
    ensures || ("null" <= s && ParseValue(s) == Some((Null, s[4..]))) || ("false" <= s && ParseValue(s) == Some((False, s[5..])))
            || ("true" <= s && ParseValue(s) == Some((True, s[4..])))
            || Starts(s, '\"') || Starts(s, '-') || StartsDigit(s) || Starts(s, '[') || Starts(s, '{')
  {
  }

  lemma {:induction false} ParsedValue(s: string) returns (t: Option<Tree>)
    requires ParseValue(s).Some?
    ensures var (v, rest) := ParseValue(s).value;
      match t
      case Some(tree) => IsTree(tree) && s == Spell(tree, rest) && v == ValueOf(tree) && TreeEnds(tree, rest)
      case None => rest == "" && OpenLiteral(s, v)
    decreases |s|, 1
  {
    hide *;
    ValueShape(s);
    if Starts(s, '\"') {
      t := ParsedLiteral(s);
    } else if Starts(s, '-') || StartsDigit(s) {
      var n := NumberParsed(s);
      StartsNumber(s);
      NumeralIs(n, ParseNumber(s).1);
      t := Some(Numeral(n));
    } else if Starts(s, '[') {
      t := ParsedList(s);
    } else if Starts(s, '{') {
      t := ParsedRecord(s);
    } else {
      t := ParsedWord(s);
    }
  }

  lemma NumeralIs(n: NumberText, k: string)
    requires IsNumber(n)
    ensures var t := Numeral(n);
      IsTree(t) && Spell(t, k) == SpellNumber(n, k) && ValueOf(t) == Number(NumberValue(n)) && (TreeEnds(t, k) <==> NumberEnds(n, k))
  {
    hide IsNumber, SpellNumber, NumberValue, NumberEnds;
  }

  lemma ParsedWord(s: string) returns (t: Option<Tree>)
    requires ParseValue(s).Some? && !Starts(s, '\"') && !Starts(s, '-') && !StartsDigit(s) && !Starts(s, '[') && !Starts(s, '{')
    ensures t.Some? && IsTree(t.value) && s == Spell(t.value, ParseValue(s).value.1)
    ensures ParseValue(s).value.0 == ValueOf(t.value) && TreeEnds(t.value, ParseValue(s).value.1)
  {
    ValueShape(s);
    t := Some(if "null" <= s then NullWord else if "false" <= s then FalseWord else TrueWord);
    if "null" <= s { assert s == "null" + s[4..]; }
    else if "false" <= s { assert s == "false" + s[5..]; }
    else { assert s == "true" + s[4..]; }
  }

  lemma ParsedLiteral(s: string) returns (t: Option<Tree>)
    requires Starts(s, '\"') && ParseValue(s).Some?
    ensures var (v, rest) := ParseValue(s).value;
      match t
      case Some(tree) => IsTree(tree) && s == Spell(tree, rest) && v == ValueOf(tree) && TreeEnds(tree, rest)
      case None => rest == "" && OpenLiteral(s, v)
  {
    QuoteStarts(s);
    hide ParseValue, ParseString, UnitsText, UnitsBytes, AreUnits;
    var us := LiteralParsed(s);
    var rest := ParseString(s).value.1;
    LiteralText(us, rest);
    t := if s == SpellLiteral(us, rest) then Some(Literal(us)) else None;
    hide SpellLiteral;
  }

  lemma {:induction false} ParsedList(s: string) returns (t: Option<Tree>)
    requires Starts(s, '[') && ParseValue(s).Some?
    ensures var (v, rest) := ParseValue(s).value;
      t.Some? && IsTree(t.value) && s == Spell(t.value, rest) && v == ValueOf(t.value) && TreeEnds(t.value, rest)
    decreases |s|, 0
  {
    hide *;
    Opened(s);
    ParseBracket(s);
    var rest := ParseValue(s).value.1;
    var w := SkipSplit(s[1..]);
    SkipTwice(s[1..]);
    ParseAfterSkip(Skip(s[1..]), s[1..]);
    var xs: seq<Padded> := [];
    NoItems();
    if Starts(Skip(s[1..]), ']') { Opened(Skip(s[1..])); } else { xs := ParsedItems(s[1..]); w := NoBlank(); }
    ListBuilt(xs, w, rest);
    t := Some(List(xs, w));
  }

  lemma NoBlank() returns (w: string)
    ensures w == "" && Blank(w)
  {
    w := "";
  }

  lemma ListBuilt(xs: seq<Padded>, inner: string, k: string)
    requires Blank(inner) && AreItems(xs)
    ensures var t := List(xs, inner);
      && IsTree(t) && ValueOf(t) == Array(ItemValues(xs)) && TreeEnds(t, k)
      && Spell(t, k) == "[" + (if xs == [] then inner + ("]" + k) else SpellItems(xs, "]" + k))
  {
    hide AreItems, SpellItems, ItemValues;
  }

  lemma {:induction false} ParsedRecord(s: string) returns (t: Option<Tree>)
    requires Starts(s, '{') && ParseValue(s).Some?
    ensures var (v, rest) := ParseValue(s).value;
      t.Some? && IsTree(t.value) && s == Spell(t.value, rest) && v == ValueOf(t.value) && TreeEnds(t.value, rest)
    decreases |s|, 0
  {
    hide *;
    Opened(s);
    ParseBrace(s);
    var rest := ParseValue(s).value.1;
    var w := SkipSplit(s[1..]);
    SkipTwice(s[1..]);
    ParseAfterSkip(Skip(s[1..]), s[1..]);
    var ms: seq<Member> := [];
    NoItems();
    if Starts(Skip(s[1..]), '}') { Opened(Skip(s[1..])); } else { ms := ParsedMembers(s[1..]); w := NoBlank(); }
    RecordBuilt(ms, w, rest);
    t := Some(Record(ms, w));
  }

  lemma RecordBuilt(ms: seq<Member>, inner: string, k: string)
    requires Blank(inner) && AreMembers(ms)
    ensures var t := Record(ms, inner);
      && IsTree(t) && ValueOf(t) == Object(MemberValues(ms)) && TreeEnds(t, k)
      && Spell(t, k) == "{" + (if ms == [] then inner + ("}" + k) else SpellMembers(ms, "}" + k))
  {
    hide AreMembers, SpellMembers, MemberValues;
  }

  // ----- the main result

  /** `s` starts with the text of a value `v`, and `rest` does not continue it. */
  ghost predicate Reads(s: string, v: Json, rest: string) {
    exists t :: IsTree(t) && TreeEnds(t, rest) && s == Spell(t, rest) && v == ValueOf(t)
  }

  /** The parser accepts exactly the texts of the grammar, and those that end in an open literal, and reads what
      they stand for. */
  lemma ParsesExactly(s: string, v: Json, rest: string)
    ensures ParseValue(s) == Some((v, rest)) <==> Reads(s, v, rest) || (rest == "" && OpenLiteral(s, v))
  {
    hide *;
    if ParseValue(s) == Some((v, rest)) {
      var t := ParsedValue(s);
      if t.Some? { ReadsBy(s, v, rest, t.value); }
    }
    if Reads(s, v, rest) { ReadsParse(s, v, rest); }
    if rest == "" && OpenLiteral(s, v) { OpenParses(s, v); }
  }

  lemma ReadsBy(s: string, v: Json, rest: string, t: Tree)
    requires IsTree(t) && TreeEnds(t, rest) && s == Spell(t, rest) && v == ValueOf(t)
    ensures Reads(s, v, rest)
  {
    hide IsTree, TreeEnds, Spell, ValueOf;
  }

  lemma ReadsParse(s: string, v: Json, rest: string)
    requires Reads(s, v, rest)
    ensures ParseValue(s) == Some((v, rest))
  {
    hide IsTree, TreeEnds, Spell, ValueOf, ParseValue;
    var t :| IsTree(t) && TreeEnds(t, rest) && s == Spell(t, rest) && v == ValueOf(t);
    TreeParses(t, rest);
  }

  lemma OpenParses(s: string, v: Json)
    requires OpenLiteral(s, v)
    ensures ParseValue(s) == Some((v, ""))
  {
    hide UnitsText, UnitsBytes, AreUnits, ParseValue, ParseString;
    var us :| AreUnits(us) && s == "\"" + UnitsText(us) && v == String(UnitsBytes(us));
    LiteralParses(us, "");
    QuoteStarts(s);
  }

  // ----- whole texts

  /** `p` is the text of a value up to `rest`; `w` and `rest` are white space. */
  ghost predicate FramedBy(s: string, v: Json, w: string, p: string, rest: string) {
    Blank(w) && Blank(rest) && s == w + p && (Reads(p, v, rest) || (rest == "" && OpenLiteral(p, v)))
  }

  lemma {:induction false} SkipsAll(s: string)
    ensures Skip(s) == [] <==> Blank(s)
  {
    if s != [] && s[0] as int <= 32 {
      SkipsAll(s[1..]);
      assert forall i :: 0 <= i < |s| - 1 ==> s[1..][i] == s[i + 1];
    } else if s != [] {
      assert !Blank(s) by { assert s[0] as int > 32; }
    }
  }

  lemma ReadsSolid(p: string, v: Json, rest: string)
    requires Reads(p, v, rest) || OpenLiteral(p, v)
    ensures Skip(p) == p
  {
    if Reads(p, v, rest) {
      hide IsTree, TreeEnds, Spell, ValueOf, Skip;
      var t :| IsTree(t) && TreeEnds(t, rest) && p == Spell(t, rest) && v == ValueOf(t);
      SpellStarts(t, rest);
    }
  }

  /** A text as a whole is accepted exactly if it is white space, a value and white space. */
  lemma WholeExactly(s: string, v: Json)
    ensures (ParseValue(Skip(s)).Some? && ParseValue(Skip(s)).value.0 == v && Skip(ParseValue(Skip(s)).value.1) == [])
            <==> exists w: string, p: string, rest: string :: FramedBy(s, v, w, p, rest)
  {
    hide *;
    if ParseValue(Skip(s)).Some? && ParseValue(Skip(s)).value.0 == v && Skip(ParseValue(Skip(s)).value.1) == [] {
      var rest := ParseValue(Skip(s)).value.1;
      var w := SkipSplit(s);
      SkipsAll(rest);
      ParsesExactly(Skip(s), v, rest);
      Framed(s, v, w, Skip(s), rest);
    }
    if w: string, p: string, rest: string :| FramedBy(s, v, w, p, rest) {
      Framed(s, v, w, p, rest);
      SkipBlank(w, p);
      ReadsSolid(p, v, rest);
      ParsesExactly(p, v, rest);
      SkipsAll(rest);
    }
  }

  lemma Framed(s: string, v: Json, w: string, p: string, rest: string)
    ensures FramedBy(s, v, w, p, rest) <==>
      Blank(w) && Blank(rest) && s == w + p && (Reads(p, v, rest) || (rest == "" && OpenLiteral(p, v)))
  {
    hide Reads, OpenLiteral, Blank;
  }
}
