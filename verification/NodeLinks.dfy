/** Where old links lead as long as nothing is moved: to a later node of the same list, or to a node that
    was freed. Then every write through one does harm, and the runs of `LinkedPatch` on marked trees are
    the runs of `NodePatch`. */
module NodeLinks {
  import opened Json
  import opened Sorting
  import opened Numerals
  import opened Compare
  import opened Pointer
  import opened Patch
  import opened OldLinks
  import opened NodeTrees
  import opened NodePatch
  import LinkedPatch

  // ----- identities

  ghost predicate Has(c: Cell, x: nat)
    decreases c, 1
  {
    c.id == x || HasBelow(c, x)
  }

  ghost predicate HasBelow(c: Cell, x: nat)
    decreases c, 0
  {
    exists i :: 0 <= i < |Parts(c)| && Has(Parts(c)[i], x)
  }

  ghost predicate Apart(a: Cell, b: Cell) {
    forall x: nat :: !(Has(a, x) && Has(b, x))
  }

  /** No two nodes have the same identity. */
  ghost predicate Unique(c: Cell) {
    var ks := Parts(c);
    && (forall i :: 0 <= i < |ks| ==> Unique(ks[i]) && !Has(ks[i], c.id))
    && (forall i, j :: 0 <= i < j < |ks| ==> Apart(ks[i], ks[j]))
  }

  ghost function Live(c: Cell): iset<nat> {
    iset x: nat | Has(c, x)
  }

  ghost predicate NumberedUnder(c: Cell, n: nat) {
    forall x: nat :: Has(c, x) ==> x < n
  }

  // ----- where the old links lead

  ghost predicate Later(ms: seq<Entry<Cell>>, p: nat) {
    exists j :: 0 < j < |ms| && ms[j].item.id == p
  }

  ghost predicate TiedHere(c: Cell, live: iset<nat>, n: nat) {
    c.Record? && c.link.Some? ==> c.link.value < n && (Later(c.members, c.link.value) || c.link.value !in live)
  }

  /** Every old link leads to a later node of its list, or to none of the nodes `live`. */
  ghost predicate Tied(c: Cell, live: iset<nat>, n: nat) {
    TiedHere(c, live, n) && forall i :: 0 <= i < |Parts(c)| ==> Tied(Parts(c)[i], live, n)
  }

  /** `n` has not been used yet. */
  ghost predicate Sound(c: Cell, n: nat) {
    Unique(c) && NumberedUnder(c, n) && Tied(c, Live(c), n)
  }

  lemma {:induction false} LastIsLive(c: Cell, p: nat)
    requires LastBelow(c, p)
    ensures HasBelow(c, p)
  {
    var ks := Parts(c);
    if !(ks != [] && ks[|ks| - 1].id == p) {
      var i :| 0 <= i < |ks| && LastBelow(ks[i], p);
      LastIsLive(ks[i], p);
      assert Has(ks[i], p);
    } else {
      assert Has(ks[|ks| - 1], p);
    }
  }

  lemma {:induction false} TiedAt(c: Cell, loc: Loc, live: iset<nat>, n: nat)
    requires Tied(c, live, n) && ValidLoc(Value(c), loc)
    ensures Tied(CellAt(c, loc), live, n)
    decreases |loc|
  {
    if loc != [] { TiedAt(Parts(c)[loc[0]], loc[1..], live, n); }
  }

  lemma {:induction false} UniqueAt(c: Cell, loc: Loc)
    requires Unique(c) && ValidLoc(Value(c), loc)
    ensures Unique(CellAt(c, loc)) && forall x: nat :: Has(CellAt(c, loc), x) ==> Has(c, x)
    decreases |loc|
  {
    if loc != [] {
      var k := Parts(c)[loc[0]];
      UniqueAt(k, loc[1..]);
      forall x: nat | Has(k, x) ensures Has(c, x) {}
    }
  }

  /** As long as the links are tied, going through one does harm. */
  lemma ThroughIsHarm(c: Cell, n: nat, loc: Loc, name: string)
    requires Sound(c, n) && ValidLoc(Value(c), loc)
    ensures Breaks(CellAt(c, loc), name, c, None) <==> LinkedPatch.HitsOldLink(Marks(CellAt(c, loc)), name)
  {
    var node := CellAt(c, loc);
    hide Has, Unique, NumberedUnder, Tied, LastBelow, Live, FindName;
    TiedAt(c, loc, Live(c), n);
    TiedHereOf(node, Live(c), n);
    if node.Record? {
      MarkFinds(node.members, name);
      if node.link.Some? && |node.members| == 1 { NotLast(c, node.link.value); }
    }
  }

  lemma TiedHereOf(c: Cell, live: iset<nat>, n: nat)
    requires Tied(c, live, n)
    ensures TiedHere(c, live, n)
  {
    hide TiedHere;
  }

  lemma NotLast(c: Cell, p: nat)
    ensures p !in Live(c) ==> !LastIn(c, p)
  {
    if LastBelow(c, p) { LastIsLive(c, p); }
  }

  lemma ApartEither(c: Cell, a: nat, b: nat)
    requires Unique(c) && a < |Parts(c)| && b < |Parts(c)| && a != b
    ensures Apart(Parts(c)[a], Parts(c)[b])
  {
    hide Has;
    assert Apart(Parts(c)[if a < b then a else b], Parts(c)[if a < b then b else a]);
  }

  lemma UniquePart(c: Cell, a: nat)
    requires Unique(c) && a < |Parts(c)|
    ensures Unique(Parts(c)[a]) && !Has(Parts(c)[a], c.id)
  {
    hide Has, Apart;
  }

  lemma UniqueBy(d: Cell)
    requires forall a :: 0 <= a < |Parts(d)| ==> Unique(Parts(d)[a]) && !Has(Parts(d)[a], d.id)
    requires forall a, b :: 0 <= a < b < |Parts(d)| ==> Apart(Parts(d)[a], Parts(d)[b])
    ensures Unique(d)
  {
    hide Has, Apart;
  }

  // ----- exchanging a node

  lemma WithPartParts(c: Cell, i: nat, u: Cell)
    requires i < |Parts(c)|
    ensures Parts(WithPart(c, i, u)) == Parts(c)[i := u] && WithPart(c, i, u).id == c.id
  {
    hide Marks;
  }

  lemma {:induction false} EditHas(c: Cell, loc: Loc, u: Cell, x: nat)
    requires Unique(c) && ValidLoc(Value(c), loc)
    ensures Has(SetCell(c, loc, u), x) <==> Has(u, x) || (Has(c, x) && !Has(CellAt(c, loc), x))
    decreases |loc|
  {
    if loc != [] {
      var ks, i := Parts(c), loc[0];
      var k := SetCell(ks[i], loc[1..], u);
      EditHas(ks[i], loc[1..], u, x);
      UniqueAt(ks[i], loc[1..]);
      WithPartParts(c, i, k);
      hide Marks, Erase, CellAt, SetCell, WithPart, Unique;
      PartHas(c, WithPart(c, i, k), i, k, x);
      OtherHas(c, i, x);
    }
  }

  /** One part exchanged. */
  lemma PartHas(c: Cell, d: Cell, i: nat, k: Cell, x: nat)
    requires i < |Parts(c)| && d.id == c.id && Parts(d) == Parts(c)[i := k]
    ensures Has(d, x) <==> c.id == x || Has(k, x) || exists j :: 0 <= j < |Parts(c)| && j != i && Has(Parts(c)[j], x)
  {
    var ks, ls := Parts(c), Parts(d);
    if HasBelow(d, x) {
      var j :| 0 <= j < |ls| && Has(ls[j], x);
      assert j != i ==> ls[j] == ks[j];
    }
    if Has(k, x) { assert ls[i] == k; }
    if j :| 0 <= j < |ks| && j != i && Has(ks[j], x) { assert ls[j] == ks[j]; }
  }

  lemma OtherHas(c: Cell, i: nat, x: nat)
    requires Unique(c) && i < |Parts(c)|
    ensures Has(c, x) && !Has(Parts(c)[i], x) <==>
            c.id == x || exists j :: 0 <= j < |Parts(c)| && j != i && Has(Parts(c)[j], x)
  {
    var ks := Parts(c);
    if j :| 0 <= j < |ks| && j != i && Has(ks[j], x) {
      assert Apart(ks[if i < j then i else j], ks[if i < j then j else i]);
    }
  }

  lemma PartUnique(c: Cell, d: Cell, i: nat, k: Cell)
    requires i < |Parts(c)| && d.id == c.id && Parts(d) == Parts(c)[i := k]
    requires Unique(c) && Unique(k) && forall x: nat :: Has(k, x) ==> Has(Parts(c)[i], x) || !Has(c, x)
    ensures Unique(d)
  {
    hide *;
    var ks, ls := Parts(c), Parts(d);
    UniquePart(c, i);
    HasRoot(c);
    forall a | 0 <= a < |ls| ensures Unique(ls[a]) && !Has(ls[a], d.id) {
      if a != i { UniquePart(c, a); }
    }
    forall a, b | 0 <= a < b < |ls| ensures Apart(ls[a], ls[b]) {
      ApartEither(c, a, b);
      if a == i { ApartPut(c, b, ks[i], k); ApartTurned(ks[b], k); }
      if b == i { ApartEither(c, b, a); ApartPut(c, a, ks[i], k); }
    }
    UniqueBy(d);
  }

  lemma HasRoot(c: Cell)
    ensures Has(c, c.id)
  {
  }

  lemma ApartTurned(a: Cell, b: Cell)
    requires Apart(a, b)
    ensures Apart(b, a)
  {
    hide Has;
  }

  lemma ApartPut(c: Cell, a: nat, was: Cell, k: Cell)
    requires a < |Parts(c)| && (Apart(was, Parts(c)[a]) || Apart(Parts(c)[a], was))
    requires forall x: nat :: Has(k, x) ==> Has(was, x) || !Has(c, x)
    ensures Apart(Parts(c)[a], k)
  {
    forall x: nat | Has(Parts(c)[a], x) ensures !Has(k, x) { assert Has(c, x); }
  }

  lemma {:induction false} EditUnique(c: Cell, loc: Loc, u: Cell)
    requires Unique(c) && ValidLoc(Value(c), loc) && Unique(u)
    requires forall x: nat :: Has(u, x) ==> Has(CellAt(c, loc), x) || !Has(c, x)
    ensures Unique(SetCell(c, loc, u))
    decreases |loc|
  {
    if loc != [] {
      var ks, i := Parts(c), loc[0];
      var k := SetCell(ks[i], loc[1..], u);
      UniqueAt(ks[i], loc[1..]);
      forall x: nat | Has(u, x) ensures Has(CellAt(ks[i], loc[1..]), x) || !Has(ks[i], x) {
        if Has(ks[i], x) { assert Has(c, x); }
      }
      EditUnique(ks[i], loc[1..], u);
      forall x: nat | Has(k, x) ensures Has(ks[i], x) || !Has(c, x) { EditHas(ks[i], loc[1..], u, x); }
      WithPartParts(c, i, k);
      hide Marks, Erase, CellAt, SetCell, WithPart;
      PartUnique(c, WithPart(c, i, k), i, k);
    }
  }

  /** No node of `live` is in `was` unless it is new. */
  ghost predicate Fewer(live: iset<nat>, was: iset<nat>, n: nat) {
    forall x: nat :: x in live ==> x in was || n <= x
  }

  lemma {:induction false} TiedFewer(c: Cell, was: iset<nat>, live: iset<nat>, n: nat, m: nat)
    requires Tied(c, was, n) && Fewer(live, was, n) && n <= m
    ensures Tied(c, live, m)
  {
    forall i | 0 <= i < |Parts(c)| ensures Tied(Parts(c)[i], live, m) { TiedFewer(Parts(c)[i], was, live, n, m); }
  }

  lemma {:induction false} EditTied(c: Cell, loc: Loc, u: Cell, was: iset<nat>, live: iset<nat>, n: nat, m: nat)
    requires ValidLoc(Value(c), loc) && u.id == CellAt(c, loc).id
    requires Tied(c, was, n) && Fewer(live, was, n) && n <= m && Tied(u, live, m)
    ensures Tied(SetCell(c, loc, u), live, m) && SetCell(c, loc, u).id == c.id
    decreases |loc|
  {
    if loc != [] {
      var ks, i := Parts(c), loc[0];
      var k := SetCell(ks[i], loc[1..], u);
      EditTied(ks[i], loc[1..], u, was, live, n, m);
      TiedFewer(c, was, live, n, m);
      WithPartParts(c, i, k);
      hide Marks, Erase, CellAt, SetCell, Fewer;
      TiedPut(c, i, k, live, m);
      var ls := Parts(WithPart(c, i, k));
      forall j | 0 <= j < |ls| ensures Tied(ls[j], live, m) { assert j != i ==> ls[j] == ks[j]; }
    }
  }

  lemma TiedPut(c: Cell, i: nat, k: Cell, live: iset<nat>, n: nat)
    requires i < |Parts(c)| && k.id == Parts(c)[i].id && TiedHere(c, live, n)
    ensures TiedHere(WithPart(c, i, k), live, n)
  {
    if c.Record? && c.link.Some? && Later(c.members, c.link.value) {
      var ms, ns := c.members, WithPart(c, i, k).members;
      var j :| 0 < j < |ms| && ms[j].item.id == c.link.value;
      assert ns[j].item.id == c.link.value;
    }
    hide Marks;
  }

  /** An exchanged node whose own links are tied leaves the document sound. */
  lemma SoundEdit(c: Cell, n: nat, loc: Loc, u: Cell, m: nat)
    requires Sound(c, n) && ValidLoc(Value(c), loc) && u.id == CellAt(c, loc).id && n <= m && Unique(u)
    requires forall x: nat :: Has(u, x) ==> Has(CellAt(c, loc), x) || n <= x < m
    requires Tied(u, Live(SetCell(c, loc, u)), m)
    ensures Sound(SetCell(c, loc, u), m)
  {
    var d := SetCell(c, loc, u);
    hide Has, Unique, Tied, SetCell, CellAt, Marks, Erase;
    UniqueAt(c, loc);
    forall x: nat ensures Has(d, x) <==> Has(u, x) || (Has(c, x) && !Has(CellAt(c, loc), x)) { EditHas(c, loc, u, x); }
    EditUnique(c, loc, u);
    EditTied(c, loc, u, Live(c), Live(d), n, m);
  }

  // ----- taking a part out and putting one in

  /** Part `a` of `d` was part `fs[a]` of `c`, except for part `k`. */
  ghost predicate From(c: Cell, d: Cell, fs: seq<nat>, k: nat) {
    && d.id == c.id && |fs| == |Parts(d)|
    && (forall a :: 0 <= a < |fs| && a != k ==> fs[a] < |Parts(c)| && Parts(d)[a] == Parts(c)[fs[a]])
    && (forall a, b :: 0 <= a < b < |fs| && a != k && b != k ==> fs[a] != fs[b])
  }

  lemma FromAt(c: Cell, d: Cell, fs: seq<nat>, k: nat, a: nat)
    requires From(c, d, fs, k) && a < |fs| && a != k
    ensures d.id == c.id && |fs| == |Parts(d)| && fs[a] < |Parts(c)| && Parts(d)[a] == Parts(c)[fs[a]]
    ensures forall b :: 0 <= b < |fs| && b != k && b != a ==> fs[a] != fs[b]
  {
    hide Parts;
  }

  lemma FromSize(c: Cell, d: Cell, fs: seq<nat>, k: nat)
    requires From(c, d, fs, k)
    ensures d.id == c.id && |fs| == |Parts(d)|
  {
    hide Parts;
  }

  lemma UniqueFrom(c: Cell, d: Cell, fs: seq<nat>, k: nat)
    requires Unique(c) && From(c, d, fs, k)
    requires k < |Parts(d)| ==> Unique(Parts(d)[k]) && !Has(Parts(d)[k], c.id)
    requires k < |Parts(d)| ==> forall a :: 0 <= a < |Parts(c)| ==> Apart(Parts(c)[a], Parts(d)[k]) && Apart(Parts(d)[k], Parts(c)[a])
    ensures Unique(d)
  {
    hide *;
    var ls := Parts(d);
    FromSize(c, d, fs, k);
    forall a | 0 <= a < |ls| ensures Unique(ls[a]) && !Has(ls[a], d.id) {
      if a != k {
        FromAt(c, d, fs, k, a);
        UniquePart(c, fs[a]);
      }
    }
    forall a, b | 0 <= a < b < |ls| ensures Apart(ls[a], ls[b]) {
      if a != k { FromAt(c, d, fs, k, a); }
      if b != k { FromAt(c, d, fs, k, b); }
      if a != k && b != k { ApartEither(c, fs[a], fs[b]); }
    }
    UniqueBy(d);
  }

  lemma HasFrom(c: Cell, d: Cell, fs: seq<nat>, k: nat, x: nat)
    requires From(c, d, fs, k) && Has(d, x)
    ensures Has(c, x) || (k < |Parts(d)| && Has(Parts(d)[k], x))
  {
    if HasBelow(d, x) {
      var a :| 0 <= a < |Parts(d)| && Has(Parts(d)[a], x);
      if a != k { FromAt(c, d, fs, k, a); }
    }
    hide From;
  }

  lemma PartOf(d: Cell, x: nat) returns (a: nat)
    requires Has(d, x) && x != d.id
    ensures a < |Parts(d)| && Has(Parts(d)[a], x)
  {
    a :| 0 <= a < |Parts(d)| && Has(Parts(d)[a], x);
  }

  lemma ApartBoth(a: Cell, b: Cell, x: nat)
    requires Apart(a, b)
    ensures !(Has(a, x) && Has(b, x))
  {
    hide Has;
  }

  lemma GoneFrom(c: Cell, d: Cell, fs: seq<nat>, i: nat)
    requires Unique(c) && From(c, d, fs, |Parts(d)|) && i < |Parts(c)| && i !in fs
    ensures !Has(d, Parts(c)[i].id)
  {
    hide *;
    FromSize(c, d, fs, |Parts(d)|);
    UniquePart(c, i);
    HasRoot(Parts(c)[i]);
    if Has(d, Parts(c)[i].id) {
      var a := PartOf(d, Parts(c)[i].id);
      FromAt(c, d, fs, |Parts(d)|, a);
      ApartEither(c, fs[a], i);
      ApartBoth(Parts(c)[fs[a]], Parts(c)[i], Parts(c)[i].id);
    }
  }

  lemma FromBy(c: Cell, d: Cell, fs: seq<nat>, k: nat)
    requires d.id == c.id && |fs| == |Parts(d)|
    requires forall a :: 0 <= a < |fs| && a != k ==> fs[a] < |Parts(c)| && Parts(d)[a] == Parts(c)[fs[a]]
    requires forall a, b :: 0 <= a < b < |fs| && a != k && b != k ==> fs[a] != fs[b]
    ensures From(c, d, fs, k)
  {
    hide Parts;
  }

  lemma WithoutFrom(c: Cell, d: Cell, i: nat) returns (fs: seq<nat>)
    requires i < |Parts(c)| && d.id == c.id && Parts(d) == Without(Parts(c), i)
    ensures From(c, d, fs, |Parts(d)|) && i !in fs
  {
    hide *;
    WithoutIndex(Parts(c), i);
    var n := |Parts(d)|;
    fs := seq(n, a requires 0 <= a < n => if a < i then a else a + 1);
    FromBy(c, d, fs, n);
  }

  lemma WithoutParts(c: Cell, d: Cell, i: nat)
    requires Unique(c) && i < |Parts(c)| && d.id == c.id && Parts(d) == Without(Parts(c), i)
    ensures Unique(d) && !Has(d, Parts(c)[i].id) && forall x: nat :: Has(d, x) ==> Has(c, x)
  {
    hide *;
    var fs := WithoutFrom(c, d, i);
    UniqueFrom(c, d, fs, |Parts(d)|);
    forall x: nat | Has(d, x) ensures Has(c, x) { HasFrom(c, d, fs, |Parts(d)|, x); }
    GoneFrom(c, d, fs, i);
  }

  lemma NewApart(c: Cell, v: Cell, n: nat, m: nat)
    requires NumberedUnder(c, n) && forall x: nat :: Has(v, x) ==> n <= x < m
    ensures !Has(v, c.id) && forall a :: 0 <= a < |Parts(c)| ==> Apart(Parts(c)[a], v) && Apart(v, Parts(c)[a])
  {
    assert Has(c, c.id);
    forall a, x: nat | 0 <= a < |Parts(c)| && Has(Parts(c)[a], x) ensures x < n { assert Has(c, x); }
  }

  lemma InsertedAt<T>(s: seq<T>, k: nat, v: T)
    requires k <= |s|
    ensures var r := s[..k] + [v] + s[k..];
      |r| == |s| + 1 && forall a :: 0 <= a < |r| ==> r[a] == if a < k then s[a] else if a == k then v else s[a - 1]
  {
  }

  lemma InsertFrom(c: Cell, d: Cell, k: nat, v: Cell) returns (fs: seq<nat>)
    requires k <= |Parts(c)| && d.id == c.id && Parts(d) == Parts(c)[..k] + [v] + Parts(c)[k..]
    ensures From(c, d, fs, k) && k < |Parts(d)| && Parts(d)[k] == v
  {
    hide *;
    InsertedAt(Parts(c), k, v);
    var n := |Parts(d)|;
    fs := seq(n, a requires 0 <= a < n => if a <= k then a else a - 1);
    FromBy(c, d, fs, k);
  }

  lemma InsertParts(c: Cell, d: Cell, k: nat, v: Cell, n: nat, m: nat)
    requires k <= |Parts(c)| && d.id == c.id && Parts(d) == Parts(c)[..k] + [v] + Parts(c)[k..]
    requires Unique(c) && Unique(v) && NumberedUnder(c, n) && forall x: nat :: Has(v, x) ==> n <= x < m
    ensures Unique(d) && forall x: nat :: Has(d, x) ==> Has(c, x) || n <= x < m
  {
    hide *;
    var fs := InsertFrom(c, d, k, v);
    NewApart(c, v, n, m);
    UniqueFrom(c, d, fs, k);
    forall x: nat | Has(d, x) ensures Has(c, x) || n <= x < m { HasFrom(c, d, fs, k, x); }
  }

  lemma RecordWithout(id: nat, ms: seq<Entry<Cell>>, link: Option<nat>, i: nat)
    requires i < |ms|
    ensures var c := Record(id, ms, link);
      i < |Parts(c)| && Parts(c)[i] == ms[i].item && forall l :: Parts(Record(id, Without(ms, i), l)) == Without(Parts(c), i)
  {
    WithoutIndex(ms, i);
    WithoutIndex(Parts(Record(id, ms, link)), i);
    hide Without, Marks;
  }

  lemma DetachParts(c: Cell, name: string) returns (i: nat)
    ensures var (rest, item) := DetachPart(c, name);
      && rest.id == c.id
      && (item.None? ==> rest == c)
      && (item.Some? ==> i < |Parts(c)| && Parts(rest) == Without(Parts(c), i) && item.value == Parts(c)[i])
      && (c.Record? ==> i == FindName(c.members, name) && (item.Some? <==> i < |c.members|))
  {
    match c
    case List(_, xs) => i := Clamp(Atoi(name));
    case Record(id, ms, link) =>
      i := FindName(ms, name);
      if i < |ms| { RecordWithout(id, ms, link, i); }
      hide Without, FindName, Marks, Parts;
    case Plain(_, _) => i := 0;
  }

  /** The link of a record from which a member that is not the first was taken. */
  lemma LaterStays(ms: seq<Entry<Cell>>, i: nat, p: nat)
    requires 0 < i < |ms| && Later(ms, p) && p != ms[i].item.id
    ensures Later(Without(ms, i), p)
  {
    WithoutIndex(ms, i);
    var j :| 0 < j < |ms| && ms[j].item.id == p;
    assert Without(ms, i)[if j < i then j else j - 1] == ms[j];
  }

  lemma TiedPart(c: Cell, a: nat, live: iset<nat>, n: nat)
    requires Tied(c, live, n) && a < |Parts(c)|
    ensures Tied(Parts(c)[a], live, n)
  {
    hide TiedHere;
  }

  lemma TiedBy(c: Cell, live: iset<nat>, n: nat)
    requires TiedHere(c, live, n) && forall a :: 0 <= a < |Parts(c)| ==> Tied(Parts(c)[a], live, n)
    ensures Tied(c, live, n)
  {
    hide TiedHere;
  }

  /** The old link of a list from which another member than the first was taken. */
  lemma DetachedLink(c: Cell, name: string, live: iset<nat>, n: nat)
    requires TiedHere(c, live, n) && !LinkedPatch.HitsOldLink(Marks(c), name)
    requires var (_, item) := DetachPart(c, name); item.Some? ==> item.value.id !in live
    ensures TiedHere(DetachPart(c, name).0, live, n)
  {
    if c.Record? {
      var ms, i := c.members, FindName(c.members, name);
      MarkFinds(ms, name);
      if c.link.Some? && 0 < i < |ms| && Later(ms, c.link.value) && c.link.value != ms[i].item.id { LaterStays(ms, i, c.link.value); }
    }
    hide Without, FindName, Later, MarkMembers, MarkItems;
  }

  lemma DetachedTied(c: Cell, name: string, was: iset<nat>, live: iset<nat>, n: nat)
    requires Tied(c, was, n) && Fewer(live, was, n) && !LinkedPatch.HitsOldLink(Marks(c), name)
    requires var (_, item) := DetachPart(c, name); item.Some? ==> item.value.id !in live
    ensures Tied(DetachPart(c, name).0, live, n)
  {
    var (rest, item) := DetachPart(c, name);
    hide *;
    TiedFewer(c, was, live, n, n);
    TiedHereOf(c, live, n);
    var i := DetachParts(c, name);
    if item.Some? {
      DetachedLink(c, name, live, n);
      WithoutIndex(Parts(c), i);
      forall a | 0 <= a < |Parts(rest)| ensures Tied(Parts(rest)[a], live, n) {
        TiedPart(c, if a < i then a else a + 1, live, n);
      }
      TiedBy(rest, live, n);
    }
  }

  lemma SoundIs(c: Cell, n: nat)
    requires Sound(c, n)
    ensures Unique(c) && NumberedUnder(c, n) && Tied(c, Live(c), n)
  {
    hide Unique, NumberedUnder, Tied, Live;
  }

  lemma LiveFewer(c: Cell, d: Cell, n: nat)
    requires forall x: nat :: Has(d, x) ==> Has(c, x) || n <= x
    ensures Fewer(Live(d), Live(c), n) && forall x: nat :: x in Live(d) <==> Has(d, x)
  {
    hide Has;
  }

  lemma DetachSound(doc: Cell, n: nat, loc: Loc, name: string)
    requires Sound(doc, n) && ValidLoc(Value(doc), loc) && !LinkedPatch.HitsOldLink(Marks(CellAt(doc, loc)), name)
    ensures Sound(SetCell(doc, loc, DetachPart(CellAt(doc, loc), name).0), n)
  {
    hide *;
    var node := CellAt(doc, loc);
    var (rest, item) := DetachPart(node, name);
    var d := SetCell(doc, loc, rest);
    SoundIs(doc, n);
    UniqueAt(doc, loc);
    var i := DetachParts(node, name);
    if item.Some? { WithoutParts(node, rest, i); }
    forall x: nat ensures Has(d, x) <==> Has(rest, x) || (Has(doc, x) && !Has(node, x)) { EditHas(doc, loc, rest, x); }
    if item.Some? { HasPart(node, i); }
    TiedAt(doc, loc, Live(doc), n);
    LiveFewer(doc, d, n);
    DetachedTied(node, name, Live(doc), Live(d), n);
    SoundEdit(doc, n, loc, rest, n);
  }

  lemma HasPart(c: Cell, i: nat)
    requires i < |Parts(c)|
    ensures Has(c, Parts(c)[i].id)
  {
    assert Has(Parts(c)[i], Parts(c)[i].id);
  }

  // ----- new nodes

  ghost predicate Within(c: Cell, n: nat, m: nat) {
    forall x: nat :: Has(c, x) ==> n <= x < m
  }

  lemma LeafNew(c: Cell, n: nat)
    requires c.Plain? && c.id == n
    ensures Unique(c) && Within(c, n, n + 1)
  {
  }

  lemma {:induction false} LabelSound(v: Json, n: nat)
    ensures var (c, m) := Label(v, n); Unique(c) && Within(c, n, m)
    decreases v, 1
  {
    hide LabelItems, LabelMembers, Has, Unique, Within, InOrder, Marks, Fresh, Erase;
    match v {
      case Array(xs) =>
        LabelItemsSound(xs, n + 1);
        var (cs, m) := LabelItems(xs, n + 1);
        RootNew(List(n, cs), n, m);
      case Object(ms) =>
        LabelMembersSound(ms, n + 1);
        var (es, m) := LabelMembers(ms, n + 1);
        ItemsAre(n, es);
        RootNew(Record(n, es, None), n, m);
      case _ =>
        LeafNew(Plain(n, v), n);
    }
  }

  /** Trees out of numbers that follow each other. */
  ghost predicate InOrder(ks: seq<Cell>, n: nat, m: nat) {
    && (forall i :: 0 <= i < |ks| ==> Unique(ks[i]) && Within(ks[i], n, m))
    && (forall i, j :: 0 <= i < j < |ks| ==> Apart(ks[i], ks[j]))
  }

  lemma RootNew(c: Cell, n: nat, m: nat)
    requires c.id == n < m && InOrder(Parts(c), n + 1, m)
    ensures Unique(c) && Within(c, n, m)
  {
    hide Marks;
    forall i | 0 <= i < |Parts(c)| ensures !Has(Parts(c)[i], n) { assert Within(Parts(c)[i], n + 1, m); }
    forall x: nat | Has(c, x) ensures n <= x < m {
      if HasBelow(c, x) {
        var i :| 0 <= i < |Parts(c)| && Has(Parts(c)[i], x);
        assert Within(Parts(c)[i], n + 1, m);
      }
    }
  }

  lemma InOrderCons(c: Cell, ks: seq<Cell>, n: nat, m: nat, k: nat)
    requires Unique(c) && Within(c, n, m) && InOrder(ks, m, k) && n <= m <= k
    ensures InOrder([c] + ks, n, k)
  {
    hide Has, Unique;
    var ls := [c] + ks;
    forall i | 0 <= i < |ls| ensures Unique(ls[i]) && Within(ls[i], n, k) {
      if i > 0 { assert ls[i] == ks[i - 1] && Within(ks[i - 1], m, k); }
    }
    forall i, j | 0 <= i < j < |ls| ensures Apart(ls[i], ls[j]) {
      assert ls[j] == ks[j - 1] && Within(ks[j - 1], m, k);
      if i > 0 { assert ls[i] == ks[i - 1]; }
    }
  }

  lemma {:induction false} LabelItemsSound(xs: seq<Json>, n: nat)
    ensures var (cs, m) := LabelItems(xs, n); n <= m && InOrder(cs, n, m)
    decreases xs, 0
  {
    if xs != [] {
      var (c, m) := Label(xs[0], n);
      var (cs, k) := LabelItems(xs[1..], m);
      LabelSound(xs[0], n);
      LabelItemsSound(xs[1..], m);
      hide InOrder, Unique, Within, Label, Marks, Fresh;
      InOrderCons(c, cs, n, m, k);
    }
  }

  function ItemsOf(ms: seq<Entry<Cell>>): seq<Cell> {
    seq(|ms|, i requires 0 <= i < |ms| => ms[i].item)
  }

  lemma ItemsAre(id: nat, ms: seq<Entry<Cell>>)
    ensures ItemsOf(ms) == Parts(Record(id, ms, None))
  {
    hide Marks;
  }

  lemma LabelMembersStep(ms: seq<Entry<Json>>, n: nat)
    ensures ms == [] ==> LabelMembers(ms, n) == ([], n) && InOrder(ItemsOf([]), n, n)
    ensures ms != [] ==>
      var (c, m) := Label(ms[0].item, n);
      var (es, k) := LabelMembers(ms[1..], m);
      && LabelMembers(ms, n) == ([Entry(ms[0].name, c)] + es, k) && n <= m <= k
      && ItemsOf([Entry(ms[0].name, c)] + es) == [c] + ItemsOf(es)
  {
    hide Label, Marks, Fresh;
  }

  lemma {:induction false} LabelMembersSound(ms: seq<Entry<Json>>, n: nat)
    ensures var (es, m) := LabelMembers(ms, n); n <= m && InOrder(ItemsOf(es), n, m)
    decreases ms, 0
  {
    hide *;
    LabelMembersStep(ms, n);
    if ms != [] {
      var (c, m) := Label(ms[0].item, n);
      LabelSound(ms[0].item, n);
      LabelMembersSound(ms[1..], m);
      var (es, k) := LabelMembers(ms[1..], m);
      InOrderCons(c, ItemsOf(es), n, m, k);
    }
  }

  /** A tree without old links has none to tie. */
  lemma {:induction false} CleanTied(c: Cell, live: iset<nat>, n: nat)
    requires Clean(Marks(c))
    ensures Tied(c, live, n)
  {
    forall i | 0 <= i < |Parts(c)| ensures Tied(Parts(c)[i], live, n) {
      LinkedPatch.CleanKid(Marks(c), i);
      CleanTied(Parts(c)[i], live, n);
    }
    hide Parts, Later, MarkMembers, MarkItems;
  }

  /** What a value is put into: the node, or what is left of it when a member of that name was there. */
  function Rest(c: Cell, name: string): Cell {
    if c.Record? then DetachPart(c, name).0 else c
  }

  lemma AddPartParts(c: Cell, name: string, v: Cell) returns (k: nat)
    requires !c.Plain?
    ensures var r, d := Rest(c, name), AddPart(c, name, v);
      d.id == r.id && k <= |Parts(r)| && Parts(d) == Parts(r)[..k] + [v] + Parts(r)[k..]
  {
    match c
    case List(_, xs) =>
      k := if name != "-" && Clamp(Atoi(name)) < |xs| then Clamp(Atoi(name)) else |xs|;
      hide Atoi, Marks;
      assert xs[..|xs|] == xs && xs[|xs|..] == [];
    case Record(id, ms, link) =>
      k := |Parts(Rest(c, name))|;
      AppendedParts(Rest(c, name), Entry(name, v), AddPart(c, name, v));
      hide FindName, Without, Marks;
  }

  lemma AppendedParts(r: Cell, e: Entry<Cell>, d: Cell)
    requires r.Record? && d.Record? && d.members == r.members + [e]
    ensures Parts(d) == Parts(r)[..|Parts(r)|] + [e.item] + Parts(r)[|Parts(r)|..]
  {
    hide Marks;
    assert Parts(r)[..|Parts(r)|] == Parts(r) && Parts(r)[|Parts(r)|..] == [];
  }

  lemma LaterAppended(ms: seq<Entry<Cell>>, e: Entry<Cell>, p: nat)
    requires Later(ms, p)
    ensures Later(ms + [e], p)
  {
    var j :| 0 < j < |ms| && ms[j].item.id == p;
    assert (ms + [e])[j] == ms[j];
  }

  lemma AddedLink(c: Cell, name: string, v: Cell, live: iset<nat>, n: nat)
    requires TiedHere(Rest(c, name), live, n)
    ensures TiedHere(AddPart(c, name, v), live, n)
  {
    if c.Record? && AddPart(c, name, v).link.Some? {
      var r := Rest(c, name);
      hide FindName, Without, Marks, Later;
      if Later(r.members, c.link.value) { LaterAppended(r.members, Entry(name, v), c.link.value); }
    }
  }

  lemma AddedTied(c: Cell, name: string, v: Cell, live: iset<nat>, n: nat)
    requires !c.Plain? && Tied(Rest(c, name), live, n) && Tied(v, live, n)
    ensures Tied(AddPart(c, name, v), live, n)
  {
    hide *;
    var r, d := Rest(c, name), AddPart(c, name, v);
    var k := AddPartParts(c, name, v);
    InsertedAt(Parts(r), k, v);
    TiedHereOf(r, live, n);
    AddedLink(c, name, v, live, n);
    forall a | 0 <= a < |Parts(d)| ensures Tied(Parts(d)[a], live, n) {
      if a != k { TiedPart(r, if a < k then a else a - 1, live, n); }
    }
    TiedBy(d, live, n);
  }

  lemma RestSound(c: Cell, name: string)
    requires Unique(c)
    ensures Rest(c, name).id == c.id && Unique(Rest(c, name)) && forall x: nat :: Has(Rest(c, name), x) ==> Has(c, x)
    ensures var (_, item) := DetachPart(c, name);
      item.Some? ==> Has(c, item.value.id) && (c.Record? ==> !Has(Rest(c, name), item.value.id))
  {
    RestIs(c, name);
    hide *;
    var i := DetachParts(c, name);
    var (rest, item) := DetachPart(c, name);
    if item.Some? {
      WithoutParts(c, rest, i);
      HasPart(c, i);
    }
  }

  lemma RestIs(c: Cell, name: string)
    ensures Rest(c, name) == if c.Record? then DetachPart(c, name).0 else c
  {
  }

  lemma AddSound(doc: Cell, n: nat, loc: Loc, name: string, v: Cell, m: nat)
    requires Sound(doc, n) && ValidLoc(Value(doc), loc) && !LinkedPatch.HitsOldLink(Marks(CellAt(doc, loc)), name)
    requires n <= m && Unique(v) && Within(v, n, m) && Clean(Marks(v))
    ensures Sound(SetCell(doc, loc, AddPart(CellAt(doc, loc), name, v)), m)
  {
    hide *;
    var node := CellAt(doc, loc);
    var u := AddPart(node, name, v);
    var d := SetCell(doc, loc, u);
    SoundIs(doc, n);
    UniqueAt(doc, loc);
    BelowNext(doc, n);
    WithinIs(v, n, m);
    AddPartMarks(node, name, v);
    RestSound(node, name);
    var r := Rest(node, name);
    if node.Plain? {
      PlainKept(node, name, v);
    } else {
      var k := AddPartParts(node, name, v);
      UnderPart(node, r, n);
      InsertParts(r, u, k, v, n, m);
    }
    forall x: nat ensures Has(d, x) <==> Has(u, x) || (Has(doc, x) && !Has(node, x)) { EditHas(doc, loc, u, x); }
    LiveFewer(doc, d, n);
    TiedAt(doc, loc, Live(doc), n);
    CleanTied(v, Live(d), m);
    if !node.Plain? {
      AddedGone(node, name, v, u, n, m);
      RestTied(node, name, Live(doc), Live(d), n);
      TiedUp(r, Live(d), n, m);
      AddedTied(node, name, v, Live(d), m);
    } else {
      TiedFewer(node, Live(doc), Live(d), n, m);
    }
    SoundEdit(doc, n, loc, u, m);
  }

  lemma PlainKept(c: Cell, name: string, v: Cell)
    requires c.Plain?
    ensures AddPart(c, name, v) == c
  {
  }

  lemma BelowNext(c: Cell, n: nat)
    requires NumberedUnder(c, n)
    ensures forall x: nat :: Has(c, x) ==> x < n
  {
    hide Has;
  }

  lemma WithinIs(c: Cell, n: nat, m: nat)
    requires Within(c, n, m)
    ensures forall x: nat :: Has(c, x) ==> n <= x < m
  {
    hide Has;
  }

  lemma UnderPart(c: Cell, d: Cell, n: nat)
    requires (forall x: nat :: Has(d, x) ==> Has(c, x)) && forall x: nat :: Has(c, x) ==> x < n
    ensures NumberedUnder(d, n)
  {
    hide Has;
  }

  lemma TiedUp(c: Cell, live: iset<nat>, n: nat, m: nat)
    requires Tied(c, live, n) && n <= m
    ensures Tied(c, live, m)
  {
    hide Tied;
    TiedFewer(c, live, live, n, m);
  }

  /** A member that made place for the value is in the document no more. */
  lemma AddedGone(c: Cell, name: string, v: Cell, u: Cell, n: nat, m: nat)
    requires Unique(c) && (forall x: nat :: Has(c, x) ==> x < n) && forall x: nat :: Has(v, x) ==> n <= x < m
    requires !c.Plain? && u == AddPart(c, name, v)
    ensures var (_, item) := DetachPart(c, name); c.Record? && item.Some? ==> Has(c, item.value.id) && !Has(u, item.value.id)
  {
    hide *;
    RestSound(c, name);
    var k := AddPartParts(c, name, v);
    var r := Rest(c, name);
    var (_, item) := DetachPart(c, name);
    if c.Record? && item.Some? && Has(u, item.value.id) { InsertedHas(r, u, k, v, item.value.id); }
  }

  lemma InsertedHas(r: Cell, u: Cell, k: nat, v: Cell, x: nat)
    requires u.id == r.id && k <= |Parts(r)| && Parts(u) == Parts(r)[..k] + [v] + Parts(r)[k..] && Has(u, x)
    ensures Has(r, x) || Has(v, x)
  {
    hide *;
    var fs := InsertFrom(r, u, k, v);
    HasFrom(r, u, fs, k, x);
  }

  lemma RestTied(c: Cell, name: string, was: iset<nat>, live: iset<nat>, n: nat)
    requires Tied(c, was, n) && Fewer(live, was, n) && !LinkedPatch.HitsOldLink(Marks(c), name)
    requires var (_, item) := DetachPart(c, name); c.Record? && item.Some? ==> item.value.id !in live
    ensures Tied(Rest(c, name), live, n)
  {
    RestIs(c, name);
    hide *;
    if c.Record? { DetachedTied(c, name, was, live, n); } else { TiedFewer(c, was, live, n, n); }
  }
}
