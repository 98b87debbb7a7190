/** The loops of `cJSONUtils_Compare` on a document with old links. */
module LinkedCompare {
  import opened Json
  import opened Text
  import opened Sorting
  import opened Compare
  import opened PointerLoops
  import opened OldLinks

  /** The code, and the document as the comparison leaves it: sorted, with the old links of sorting. */
  method CompareMarked(a: Linked, b: Json) returns (code: int, a1: Linked)
    requires Printable(Erase(a)) && Printable(b)
    ensures code == Comparison(Erase(a), b).code && a1 == Visited(a, b)
    decreases a, 2
  {
    code, a1 := 0, a;
    if !SameKind(Erase(a), b) { return -1, a; }
    match a {
      case Leaf(v) =>
        if v.Number? && v.n != b.n { code := -2; }
        if v.String? && v.s != b.s { code := -3; }
      case Items(xs) =>
        var ys;
        code, ys := CompareItemsMarked(xs, b.items);
        a1 := Items(ys);
      case Members(ms, stale) =>
        code, a1 := CompareObjectMarked(ms, stale, b.members);
    }
  }

  lemma ItemsRound(xs: seq<Linked>, ys: seq<Json>, i: nat)
    requires i < |xs| && i < |ys|
    ensures var r := Comparison(Erase(xs[i]), ys[i]);
      && VisitedItems(xs[i..], ys[i..])
         == [Visited(xs[i], ys[i])] + (if r.code != 0 then xs[i + 1..] else VisitedItems(xs[i + 1..], ys[i + 1..]))
      && CompareItems(EraseItems(xs[i..]), ys[i..]).code
         == if r.code != 0 then r.code else CompareItems(EraseItems(xs[i + 1..]), ys[i + 1..]).code
  {
    assert xs[i..][0] == xs[i] && xs[i..][1..] == xs[i + 1..] && ys[i..][0] == ys[i] && ys[i..][1..] == ys[i + 1..];
    assert EraseItems(xs[i..])[1..] == EraseItems(xs[i + 1..]) && EraseItems(xs[i..])[0] == Erase(xs[i]);
    hide Visited, Comparison, Erase, EraseItems;
  }

  lemma ItemsDone(xs: seq<Linked>, ys: seq<Json>, i: nat)
    requires i <= |xs| && i <= |ys| && (i == |xs| || i == |ys|)
    ensures VisitedItems(xs[i..], ys[i..]) == xs[i..]
    ensures CompareItems(EraseItems(xs[i..]), ys[i..]).code == if i < |xs| || i < |ys| then -4 else 0
  {
    hide Erase;
  }

  lemma PrintableIn(xs: seq<Json>, x: Json)
    requires Printable(Array(xs)) && x in xs
    ensures Printable(x)
  {
  }

  lemma ItemPrintable(xs: seq<Linked>, ys: seq<Json>, i: nat)
    requires Printable(Array(EraseItems(xs))) && Printable(Array(ys)) && i < |xs| && i < |ys|
    ensures Printable(Erase(xs[i])) && Printable(ys[i])
  {
    hide *;
    assert EraseItems(xs)[i] in EraseItems(xs);
    PrintableIn(EraseItems(xs), Erase(xs[i]));
    PrintableIn(ys, ys[i]);
  }

  lemma Assoc3<T>(a: seq<T>, x: T, b: seq<T>)
    ensures a + ([x] + b) == a + [x] + b
  {
  }

  method CompareItemsMarked(xs: seq<Linked>, ys: seq<Json>) returns (code: int, xs1: seq<Linked>)
    requires Printable(Array(EraseItems(xs))) && Printable(Array(ys))
    ensures code == CompareItems(EraseItems(xs), ys).code && xs1 == VisitedItems(xs, ys)
    decreases xs, 0
  {
    hide *;
    xs1 := [];
    assert xs[0..] == xs && ys[0..] == ys;
    var i := 0;
    while i < |xs| && i < |ys|
      invariant i <= |xs| && i <= |ys|
      invariant xs1 + VisitedItems(xs[i..], ys[i..]) == VisitedItems(xs, ys)
      invariant CompareItems(EraseItems(xs[i..]), ys[i..]).code == CompareItems(EraseItems(xs), ys).code
    {
      ItemsRound(xs, ys, i);
      ItemPrintable(xs, ys, i);
      var x;
      code, x := CompareMarked(xs[i], ys[i]);
      Assoc3(xs1, x, xs[i + 1..]);
      Assoc3(xs1, x, VisitedItems(xs[i + 1..], ys[i + 1..]));
      xs1 := xs1 + [x];
      i := i + 1;
      if code != 0 { return code, xs1 + xs[i..]; }
    }
    ItemsDone(xs, ys, i);
    code := if i < |xs| || i < |ys| then -4 else 0;
    xs1 := xs1 + xs[i..];
  }

  /** Members made of C strings, and their values inside the object. */
  ghost predicate MembersHold(fs: seq<Entry<Linked>>, ts: seq<Entry<Json>>, owner: Linked, v: Json) {
    && (forall e | e in fs :: NoNul(e.name) && Printable(Erase(e.item)) && e.item < owner)
    && (forall e | e in EraseMembers(fs) :: e.item < v)
    && (forall e | e in ts :: NoNul(e.name) && Printable(e.item))
  }

  lemma MemberHolds(fs: seq<Entry<Linked>>, ts: seq<Entry<Json>>, owner: Linked, v: Json, i: nat)
    requires MembersHold(fs, ts, owner, v) && i < |fs| && i < |ts|
    ensures NoNul(fs[i].name) && Printable(Erase(fs[i].item)) && fs[i].item < owner && NoNul(ts[i].name) && Printable(ts[i].item)
  {
    hide Erase, Printable, EraseMembers;
    assert fs[i] in fs && ts[i] in ts;
  }

  ghost predicate TailsOwned(fs: seq<Entry<Linked>>, owner: Linked, v: Json, i: nat) {
    i <= |fs| && (forall e | e in fs[i..] :: e.item < owner) && (forall e | e in EraseMembers(fs[i..]) :: e.item < v)
  }

  lemma MembersRound(fs: seq<Entry<Linked>>, ts: seq<Entry<Json>>, owner: Linked, v: Json, i: nat)
    requires i < |fs| && i < |ts| && TailsOwned(fs, owner, v, i) && TailsOwned(fs, owner, v, i + 1)
    ensures var diff, r := CaseOrder(fs[i].name, ts[i].name), Comparison(Erase(fs[i].item), ts[i].item);
      && VisitedMembers(fs[i..], ts[i..], owner)
         == (if diff != 0 then fs[i..]
             else [fs[i].(item := Visited(fs[i].item, ts[i].item))]
                  + (if r.code != 0 then fs[i + 1..] else VisitedMembers(fs[i + 1..], ts[i + 1..], owner)))
      && CompareMembers(EraseMembers(fs[i..]), ts[i..], v).code
         == if diff != 0 then -6 else if r.code != 0 then r.code else CompareMembers(EraseMembers(fs[i + 1..]), ts[i + 1..], v).code
  {
    assert fs[i..][0] == fs[i] && fs[i..][1..] == fs[i + 1..] && ts[i..][0] == ts[i] && ts[i..][1..] == ts[i + 1..];
    EraseMembersTail(fs[i..]);
    hide Visited, Comparison, Erase, EraseMembers, CaseOrder;
  }

  lemma MembersDone(fs: seq<Entry<Linked>>, ts: seq<Entry<Json>>, owner: Linked, v: Json, i: nat)
    requires i <= |fs| && i <= |ts| && (i == |fs| || i == |ts|) && TailsOwned(fs, owner, v, i)
    ensures VisitedMembers(fs[i..], ts[i..], owner) == fs[i..]
    ensures CompareMembers(EraseMembers(fs[i..]), ts[i..], v).code == if i < |fs| || i < |ts| then -5 else 0
  {
    hide Erase;
  }

  lemma TailsAt(fs: seq<Entry<Linked>>, ts: seq<Entry<Json>>, owner: Linked, v: Json, i: nat)
    requires MembersHold(fs, ts, owner, v) && i <= |fs|
    ensures TailsOwned(fs, owner, v, i)
    ensures (forall e | e in fs :: e.item < owner) && (forall e | e in EraseMembers(fs) :: e.item < v)
  {
    hide Erase, Printable;
    forall e | e in EraseMembers(fs[i..]) ensures e in EraseMembers(fs) {
      var j :| 0 <= j < |fs[i..]| && EraseMembers(fs[i..])[j] == e;
      assert EraseMembers(fs)[i + j] == e;
    }
  }

  lemma TailsAre(fs: seq<Entry<Linked>>, owner: Linked, v: Json, i: nat)
    requires TailsOwned(fs, owner, v, i)
    ensures i <= |fs| && (forall e | e in fs[i..] :: e.item < owner) && (forall e | e in EraseMembers(fs[i..]) :: e.item < v)
  {
    hide Erase;
  }

  /** The loop over the sorted members. */
  method CompareMembersMarked(fs: seq<Entry<Linked>>, ts: seq<Entry<Json>>, ghost owner: Linked, ghost v: Json)
    returns (code: int, fs1: seq<Entry<Linked>>)
    requires MembersHold(fs, ts, owner, v)
    requires (forall e | e in fs :: e.item < owner) && (forall e | e in EraseMembers(fs) :: e.item < v)
    ensures code == CompareMembers(EraseMembers(fs), ts, v).code && fs1 == VisitedMembers(fs, ts, owner)
    decreases owner, 0
  {
    hide *;
    fs1 := [];
    assert fs[0..] == fs && ts[0..] == ts;
    TailsAt(fs, ts, owner, v, 0);
    var i := 0;
    while i < |fs| && i < |ts|
      invariant i <= |fs| && i <= |ts| && TailsOwned(fs, owner, v, i)
      invariant (forall e | e in fs[i..] :: e.item < owner) && (forall e | e in EraseMembers(fs[i..]) :: e.item < v)
      invariant fs1 + VisitedMembers(fs[i..], ts[i..], owner) == VisitedMembers(fs, ts, owner)
      invariant CompareMembers(EraseMembers(fs[i..]), ts[i..], v).code == CompareMembers(EraseMembers(fs), ts, v).code
    {
      MemberHolds(fs, ts, owner, v, i);
      TailsAt(fs, ts, owner, v, i + 1);
      MembersRound(fs, ts, owner, v, i);
      TailsAre(fs, owner, v, i + 1);
      var order := Strcasecmp(fs[i].name, ts[i].name);
      if order != 0 { return -6, fs1 + fs[i..]; }
      var x;
      code, x := CompareMarked(fs[i].item, ts[i].item);
      var f := fs[i].(item := x);
      Assoc3(fs1, f, fs[i + 1..]);
      Assoc3(fs1, f, VisitedMembers(fs[i + 1..], ts[i + 1..], owner));
      fs1 := fs1 + [f];
      i := i + 1;
      if code != 0 { return code, fs1 + fs[i..]; }
    }
    MembersDone(fs, ts, owner, v, i);
    code := if i < |fs| || i < |ts| then -5 else 0;
    fs1 := fs1 + fs[i..];
  }

  lemma SortedHolds(ms: seq<Entry<Linked>>, stale: bool, ns: seq<Entry<Json>>)
    requires Printable(Object(EraseMembers(ms))) && Printable(Object(ns))
    ensures MembersHold(Sort(ms), Sort(ns), Members(ms, stale), Object(EraseMembers(ms)))
  {
    SortKeepsMembers(ms);
    SortKeepsMembers(ns);
    SortKeepsMembers(EraseMembers(ms));
    EraseSorts(ms);
    hide Sort, Erase;
    forall e | e in ms ensures NoNul(e.name) && Printable(Erase(e.item)) {
      var i :| 0 <= i < |ms| && ms[i] == e;
      assert EraseMembers(ms)[i] in EraseMembers(ms);
    }
  }

  lemma ObjectCompared(ms: seq<Entry<Linked>>, ns: seq<Entry<Json>>)
    requires forall e | e in Sort(EraseMembers(ms)) :: e.item < Object(EraseMembers(ms))
    ensures Comparison(Object(EraseMembers(ms)), Object(ns)).code
         == CompareMembers(Sort(EraseMembers(ms)), Sort(ns), Object(EraseMembers(ms))).code
  {
    hide CompareMembers, Sort, EraseMembers;
  }

  method CompareObjectMarked(ms: seq<Entry<Linked>>, stale: bool, ns: seq<Entry<Json>>) returns (code: int, a1: Linked)
    requires Printable(Object(EraseMembers(ms))) && Printable(Object(ns))
    ensures code == Comparison(Object(EraseMembers(ms)), Object(ns)).code && a1 == Visited(Members(ms, stale), Object(ns))
    decreases Members(ms, stale), 1
  {
    hide *;
    ghost var owner, v := Members(ms, stale), Object(EraseMembers(ms));
    SortedHolds(ms, stale, ns);
    TailsAt(Sort(ms), Sort(ns), owner, v, 0);
    EraseSorts(ms);
    var fs;
    code, fs := CompareMembersMarked(Sort(ms), Sort(ns), owner, v);
    VisitedIs(ms, stale, Object(ns));
    ObjectCompared(ms, ns);
    a1 := Members(fs, Sorted(ms, stale));
  }
}
