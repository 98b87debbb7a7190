/** The size a growing print buffer takes: `pow2gt` smears the bits of a number to the right. */
module NextPowers {
  /** Bitwise or, and shifting right, on numbers that are not negative. */
  function Or(a: nat, b: nat): nat
    decreases a + b
  {
    if a == 0 then b
    else if b == 0 then a
    else 2 * Or(a / 2, b / 2) + if a % 2 == 1 || b % 2 == 1 then 1 else 0
  }

  function Shift(a: nat, j: nat): nat {
    if j == 0 then a else Shift(a / 2, j - 1)
  }

  /** `x |= x >> w`. */
  function Smear(x: nat, w: nat): nat {
    Or(x, Shift(x, w))
  }

  /** `pow2gt`. */
  function Pow2gt(x: nat): nat
    requires 0 < x
  {
    Smear(Smear(Smear(Smear(Smear(x - 1, 1), 2), 4), 8), 16) + 1
  }

  /** The smallest power of two that is at least `n`, from the power `p` on. */
  function NextPower(n: nat, p: nat): (r: nat)
    requires 0 < p
    ensures n <= r && (r == p || r < 2 * n)
    decreases n - p
  {
    if n <= p then p else NextPower(n, 2 * p)
  }

  // ----- bits

  predicate Bit(a: nat, i: nat) {
    if i == 0 then a % 2 == 1 else Bit(a / 2, i - 1)
  }

  lemma {:induction false} NoBit(i: nat)
    ensures !Bit(0, i)
  {
    if i > 0 { NoBit(i - 1); }
  }

  lemma {:induction false} BitOr(a: nat, b: nat, i: nat)
    ensures Bit(Or(a, b), i) <==> Bit(a, i) || Bit(b, i)
    decreases i
  {
    NoBit(i);
    if a != 0 && b != 0 && i > 0 {
      assert Or(a, b) / 2 == Or(a / 2, b / 2);
      BitOr(a / 2, b / 2, i - 1);
    }
  }

  lemma {:induction false} BitShift(a: nat, j: nat, i: nat)
    ensures Bit(Shift(a, j), i) <==> Bit(a, i + j)
    decreases j
  {
    if j > 0 { BitShift(a / 2, j - 1, i); }
  }

  /** One of the `w` bits from `i` on is set. */
  ghost predicate BitIn(m: nat, i: nat, w: nat) {
    exists j: nat :: i <= j < i + w && Bit(m, j)
  }

  /** A number each bit of which says whether one of `w` bits of `m` is set; smearing by `w` doubles that. */
  ghost predicate Spread(x: nat, m: nat, w: nat) {
    forall i: nat :: Bit(x, i) <==> BitIn(m, i, w)
  }

  lemma SpreadTwice(x: nat, m: nat, w: nat)
    requires Spread(x, m, w)
    ensures Spread(Smear(x, w), m, 2 * w)
  {
    forall i: nat ensures Bit(Smear(x, w), i) <==> BitIn(m, i, 2 * w) {
      BitOr(x, Shift(x, w), i);
      BitShift(x, w, i);
      assert Bit(x, i) <==> BitIn(m, i, w);
      assert Bit(x, i + w) <==> BitIn(m, i + w, w);
      hide Bit;
      assert BitIn(m, i, 2 * w) <==> BitIn(m, i, w) || BitIn(m, i + w, w);
    }
  }

  // ----- powers

  function Power(k: nat): (p: nat)
    ensures p > 0
  {
    if k == 0 then 1 else 2 * Power(k - 1)
  }

  /** The number of bits of `m`. */
  function Width(m: nat): nat {
    if m == 0 then 0 else 1 + Width(m / 2)
  }

  lemma {:induction false} NoBitAbove(m: nat, i: nat)
    requires i >= Width(m)
    ensures !Bit(m, i)
  {
    if m == 0 { NoBit(i); } else { NoBitAbove(m / 2, i - 1); }
  }

  lemma {:induction false} WidthBounds(m: nat)
    ensures m < Power(Width(m)) && (m == 0 ==> Width(m) == 0)
    ensures m > 0 ==> Width(m) > 0 && Power(Width(m)) <= 2 * m && Bit(m, Width(m) - 1)
    decreases m
  {
    if m > 0 {
      WidthBounds(m / 2);
      if m == 1 { assert m / 2 == 0; }
    }
  }

  /** A number with exactly its lowest `k` bits set. */
  lemma {:induction false} AllOnes(s: nat, k: nat)
    requires forall i: nat :: Bit(s, i) <==> i < k
    ensures s == Power(k) - 1
    decreases s
  {
    assert Bit(s, 0) <==> 0 < k;
    if s == 0 {
      if k > 0 { NoBit(0); assert false; }
    } else {
      forall i: nat ensures Bit(s / 2, i) <==> i < (if k == 0 then 0 else k - 1) {
        assert Bit(s, i + 1) <==> i + 1 < k;
      }
      AllOnes(s / 2, if k == 0 then 0 else k - 1);
    }
  }

  lemma {:induction false} PowerGrows(j: nat, k: nat)
    requires j < k
    ensures 2 * Power(j) <= Power(k)
    decreases k
  {
    if j < k - 1 { PowerGrows(j, k - 1); }
  }

  lemma {:induction false} NextPowerFrom(n: nat, j: nat, k: nat)
    requires j <= k && n <= Power(k) && (j < k ==> Power(k) < 2 * n)
    ensures NextPower(n, Power(j)) == Power(k)
    decreases k - j
  {
    if j < k {
      PowerGrows(j, k);
      NextPowerFrom(n, j + 1, k);
    }
  }

  lemma {:induction false} WidthAtMost(m: nat, k: nat)
    requires m < Power(k)
    ensures Width(m) <= k
    decreases k
  {
    if m > 0 { WidthAtMost(m / 2, k - 1); }
  }

  lemma Powers()
    ensures Power(32) == 0x1_0000_0000
  {
    assert Power(8) == 0x100;
    assert Power(16) == 0x1_0000 by { assert Power(12) == 0x1000; }
    assert Power(20) == 0x10_0000 && Power(24) == 0x100_0000 && Power(28) == 0x1000_0000;
  }

  /** Smearing the bits of a 32-bit number gives the next power of two. */
  lemma SmearedIsNextPower(x: nat)
    requires 0 < x <= 0x1_0000_0000
    ensures Pow2gt(x) == NextPower(x, 1)
  {
    hide *;
    var m, k := x - 1, Width(x - 1);
    Powers();
    forall i: nat ensures Bit(m, i) <==> BitIn(m, i, 1) { Itself(m, i); }
    SpreadBy(m);
    SpreadTwice(m, m, 1);
    SpreadTwice(Smear(m, 1), m, 2);
    SpreadTwice(Smear(Smear(m, 1), 2), m, 4);
    SpreadTwice(Smear(Smear(Smear(m, 1), 2), 4), m, 8);
    SpreadTwice(Smear(Smear(Smear(Smear(m, 1), 2), 4), 8), m, 16);
    var s := Smear(Smear(Smear(Smear(Smear(m, 1), 2), 4), 8), 16);
    WidthBounds(m);
    forall i: nat | i >= k ensures !Bit(m, i) { NoBitAbove(m, i); }
    WidthAtMost(m, 32);
    SpreadOnes(s, m, k);
    AllOnes(s, k);
    Pow2gtIs(x);
    PowerZero();
    NextPowerFrom(x, 0, k);
  }

  lemma Pow2gtIs(x: nat)
    requires 0 < x
    ensures Pow2gt(x) == Smear(Smear(Smear(Smear(Smear(x - 1, 1), 2), 4), 8), 16) + 1
  {
  }

  lemma SpreadBy(m: nat)
    requires forall i: nat :: Bit(m, i) <==> BitIn(m, i, 1)
    ensures Spread(m, m, 1)
  {
    hide Bit, BitIn;
  }

  lemma Itself(m: nat, i: nat)
    ensures Bit(m, i) <==> BitIn(m, i, 1)
  {
    hide Bit;
  }

  lemma PowerZero()
    ensures Power(0) == 1
  {
  }

  lemma SpreadOnes(s: nat, m: nat, k: nat)
    requires Spread(s, m, 32) && k <= 32 && (m > 0 ==> k > 0 && Bit(m, k - 1)) && (m == 0 ==> k == 0)
    requires forall i: nat :: i >= k ==> !Bit(m, i)
    ensures forall i: nat :: Bit(s, i) <==> i < k
  {
    hide Bit;
    forall i: nat ensures Bit(s, i) <==> i < k {
      assert Bit(s, i) <==> BitIn(m, i, 32);
      if i < k { assert i <= k - 1 < i + 32; }
    }
  }
}
