/** Decimal digits: what `%d` prints and what the digit loops read back. */
module Numerals {

  predicate IsDigit(c: char) {
    '0' <= c <= '9'
  }

  function DigitValue(c: char): nat
    requires IsDigit(c)
  {
    c as nat - '0' as nat
  }

  /** What `sprintf("%d")` prints for an index. */
  function Digits(n: nat): string {
    (if n < 10 then "" else Digits(n / 10)) + [('0' as int + n % 10) as char]
  }

  /** Value of the digits in front, continuing from `acc`, and what follows them. */
  function ReadDigits(s: string, acc: nat): (r: (nat, string))
    ensures |r.1| <= |s|
  {
    if s == [] || !IsDigit(s[0]) then (acc, s)
    else ReadDigits(s[1..], 10 * acc + DigitValue(s[0]))
  }

  lemma ReadOneDigit(d: nat, acc: nat, rest: string)
    requires d < 10
    ensures ReadDigits([('0' as int + d) as char] + rest, acc) == ReadDigits(rest, acc * 10 + d)
  {
    var s := [('0' as int + d) as char] + rest;
    assert s[1..] == rest;
  }

  lemma DigitsStep(n: nat, q: nat, d: nat)
    requires q == n / 10 && d == n % 10
    ensures var last := [('0' as int + d) as char];
      Digits(n) == (if n < 10 then last else Digits(q) + last) && (n < 10 ==> q == 0)
  {
  }

  lemma {:induction false} ReadDigitsOfDigits(n: nat, acc: nat, rest: string)
    requires acc == 0
    ensures ReadDigits(Digits(n) + rest, acc) == ReadDigits(rest, n)
  {
    hide *;
    var d, q := n % 10, n / 10;
    var last := [('0' as int + d) as char];
    assert n == 10 * q + d;
    DigitsStep(n, q, d);
    ReadOneDigit(d, q, rest);
    if n >= 10 {
      assert (Digits(q) + last) + rest == Digits(q) + (last + rest);
      ReadDigitsOfDigits(q, 0, last + rest);
    }
  }

  lemma {:induction false} DigitsAreDigits(n: nat)
    ensures Digits(n) != [] && IsDigit(Digits(n)[0])
    ensures forall c :: c in Digits(n) ==> IsDigit(c)
  {
    if n >= 10 { DigitsAreDigits(n / 10); }
  }

  // ----- decimal numerals

  predicate AllDigits(s: string) {
    forall c :: c in s ==> IsDigit(c)
  }

  predicate StartsDigit(s: string) {
    s != [] && IsDigit(s[0])
  }

  /** The number a decimal numeral stands for, continuing from `acc`. */
  function Continued(acc: nat, s: string): nat
    requires AllDigits(s)
  {
    if s == [] then acc
    else
      var p := s[..|s| - 1];
      assert forall c :: c in p ==> c in s;
      10 * Continued(acc, p) + DigitValue(s[|s| - 1])
  }

  function Decimal(s: string): nat
    requires AllDigits(s)
  {
    Continued(0, s)
  }

  /** The digit loop reads a numeral, leading zeros included, up to the first character that is no digit. */
  lemma {:induction false} ReadNumeral(s: string, acc: nat, rest: string)
    requires AllDigits(s)
    ensures ReadDigits(s + rest, acc) == ReadDigits(rest, Continued(acc, s))
    ensures !StartsDigit(rest) ==> ReadDigits(s + rest, acc) == (Continued(acc, s), rest)
    decreases |s|
  {
    if s == [] {
      assert s + rest == rest;
    } else {
      var p, c := s[..|s| - 1], s[|s| - 1];
      assert forall d :: d in p ==> d in s;
      assert c in s;
      assert s + rest == p + ([c] + rest);
      ReadNumeral(p, acc, [c] + rest);
      assert ([c] + rest)[1..] == rest;
    }
  }

  /** What it reads is a numeral. */
  lemma {:induction false} NumeralRead(s: string, acc: nat) returns (p: string)
    ensures var r := ReadDigits(s, acc); AllDigits(p) && s == p + r.1 && !StartsDigit(r.1) && r.0 == Continued(acc, p)
    decreases |s|
  {
    if !StartsDigit(s) { return ""; }
    var q := NumeralRead(s[1..], 10 * acc + DigitValue(s[0]));
    p := [s[0]] + q;
    var r := ReadDigits(s, acc).1;
    assert s == p + r by { assert s == [s[0]] + s[1..]; }
    ReadNumeral(p, acc, r);
  }

  /** A number is printed without leading zeros, and as the numeral that stands for it. */
  lemma {:induction false} DigitsDecimal(n: nat)
    ensures AllDigits(Digits(n)) && Decimal(Digits(n)) == n && (Digits(n)[0] == '0' <==> n == 0) && (|Digits(n)| == 1 <==> n < 10)
  {
    DigitsAreDigits(n);
    if n >= 10 {
      var q := Digits(n / 10);
      DigitsDecimal(n / 10);
      DigitsAreDigits(n / 10);
      assert Digits(n)[..|Digits(n)| - 1] == q;
    } else {
      var s := [('0' as int + n) as char];
      assert Digits(n) == s && s[..0] == [] && DigitValue(s[0]) == n;
      assert Continued(0, s) == 10 * Continued(0, s[..0]) + DigitValue(s[0]);
    }
  }
}
