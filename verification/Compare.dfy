/** `cJSONUtils_Compare`: compares two trees, sorting the objects it visits in place. */
module Compare {
  import opened Json
  import opened Sorting

  /** The returned code together with both trees as the call leaves them. */
  datatype Compared<+T> = Compared(code: int, a: T, b: T)

  predicate SameKind(a: Json, b: Json) {
    match a
    case Null => b.Null?
    case False => b.False?
    case True => b.True?
    case Number(_) => b.Number?
    case String(_) => b.String?
    case Array(_) => b.Array?
    case Object(_) => b.Object?
  }

  function Comparison(a: Json, b: Json): Compared<Json>
    decreases a, 1, 0
  {
    if !SameKind(a, b) then Compared(-1, a, b)
    else match a
      case Number(n) => Compared(if n != b.n then -2 else 0, a, b)
      case String(s) => Compared(if s != b.s then -3 else 0, a, b)
      case Array(xs) =>
        var r := CompareItems(xs, b.items);
        Compared(r.code, Array(r.a), Array(r.b))
      case Object(ms) =>
        SortKeepsMembers(ms);
        var r := CompareMembers(Sort(ms), Sort(b.members), a);
        Compared(r.code, Object(r.a), Object(r.b))
      case _ => Compared(0, a, b)
  }

  function CompareItems(xs: seq<Json>, ys: seq<Json>): Compared<seq<Json>>
    decreases xs, 0, 0
  {
    if xs == [] || ys == [] then Compared(if xs == [] && ys == [] then 0 else -4, xs, ys)
    else
      var r := Comparison(xs[0], ys[0]);
      if r.code != 0 then Compared(r.code, [r.a] + xs[1..], [r.b] + ys[1..])
      else
        var rest := CompareItems(xs[1..], ys[1..]);
        Compared(rest.code, [r.a] + rest.a, [r.b] + rest.b)
  }

  function CompareMembers(fs: seq<Entry<Json>>, ts: seq<Entry<Json>>, ghost owner: Json): Compared<seq<Entry<Json>>>
    requires forall e | e in fs :: e.item < owner
    decreases owner, 0, |fs|
  {
    if fs == [] || ts == [] then Compared(if fs == [] && ts == [] then 0 else -5, fs, ts)
    else if CaseOrder(fs[0].name, ts[0].name) != 0 then Compared(-6, fs, ts)
    else
      var r := Comparison(fs[0].item, ts[0].item);
      var f, t := fs[0].(item := r.a), ts[0].(item := r.b);
      if r.code != 0 then Compared(r.code, [f] + fs[1..], [t] + ts[1..])
      else
        var rest := CompareMembers(fs[1..], ts[1..], owner);
        Compared(rest.code, [f] + rest.a, [t] + rest.b)
  }

  // ----- zero means "same meaning", and sorting in place is not observable

  lemma SortedObject(a: Json)
    requires a.Object? && WellNamed(a)
    ensures var fs := Sort(a.members);
      && WellNamedMembers(fs) && StrictlyOrdered(fs) && Fields(fs) == Fields(a.members)
      && (forall e | e in fs :: e.item < a) && Meaning(a) == VObject(Fields(a.members))
  {
    SortKeepsMembers(a.members);
    SortKeepsFields(a.members);
    hide Sort, Fields, StrictlyOrdered, LowerName;
  }

  lemma ObjectsCompared(a: Json, b: Json)
    requires a.Object? && b.Object? && forall e | e in Sort(a.members) :: e.item < a
    ensures var r := CompareMembers(Sort(a.members), Sort(b.members), a);
      Comparison(a, b) == Compared(r.code, Object(r.a), Object(r.b))
  {
    hide CompareMembers, Sort;
  }

  /** An object with the same members in sorted order. */
  lemma ObjectKept(a: Json, gs: seq<Entry<Json>>)
    requires a.Object? && WellNamed(a) && SameMembers(Sort(a.members), gs)
    ensures Meaning(Object(gs)) == Meaning(a) && WellNamed(Object(gs))
  {
    SortedObject(a);
    hide Sort, Fields, LowerName, DistinctNames;
  }

  lemma {:induction false} ObjectsDecideMeaning(a: Json, b: Json)
    requires WellNamed(a) && WellNamed(b) && a.Object? && b.Object?
    ensures Comparison(a, b).code == 0 <==> Meaning(a) == Meaning(b)
    ensures Meaning(Comparison(a, b).a) == Meaning(a) && WellNamed(Comparison(a, b).a)
    ensures Meaning(Comparison(a, b).b) == Meaning(b) && WellNamed(Comparison(a, b).b)
    decreases a, 1, 0
  {
    hide *;
    SortedObject(a);
    SortedObject(b);
    ObjectsCompared(a, b);
    MembersDecideMeaning(Sort(a.members), Sort(b.members), a);
    var r := CompareMembers(Sort(a.members), Sort(b.members), a);
    ObjectKept(a, r.a);
    ObjectKept(b, r.b);
  }

  /** For objects whose names differ ignoring case: 0 exactly for trees with the same
      meaning, and both trees keep theirs. */
  lemma {:induction false} CompareDecidesMeaning(a: Json, b: Json)
    requires WellNamed(a) && WellNamed(b)
    ensures Comparison(a, b).code == 0 <==> Meaning(a) == Meaning(b)
    ensures Meaning(Comparison(a, b).a) == Meaning(a) && WellNamed(Comparison(a, b).a)
    ensures Meaning(Comparison(a, b).b) == Meaning(b) && WellNamed(Comparison(a, b).b)
    decreases a, 2, 0
  {
    if SameKind(a, b) {
      match a {
        case Array(xs) =>
          ItemsDecideMeaning(xs, b.items);
        case Object(ms) =>
          ObjectsDecideMeaning(a, b);
        case _ =>
      }
      hide CompareItems, CompareMembers, Sort;
    }
  }

  lemma {:induction false} ItemsDecideMeaning(xs: seq<Json>, ys: seq<Json>)
    requires (forall x | x in xs :: WellNamed(x)) && (forall y | y in ys :: WellNamed(y))
    ensures var r := CompareItems(xs, ys);
            && (r.code == 0 <==> Meanings(xs) == Meanings(ys))
            && Meanings(r.a) == Meanings(xs) && (forall x | x in r.a :: WellNamed(x))
            && Meanings(r.b) == Meanings(ys) && (forall y | y in r.b :: WellNamed(y))
    decreases xs, 0, 0
  {
    if xs != [] && ys != [] {
      CompareDecidesMeaning(xs[0], ys[0]);
      ItemsDecideMeaning(xs[1..], ys[1..]);
      MeaningsHead(xs);
      MeaningsHead(ys);
      var r := CompareItems(xs, ys);
      MeaningsHead(r.a);
      MeaningsHead(r.b);
    }
  }

  lemma MeaningsHead(xs: seq<Json>)
    requires xs != []
    ensures Meanings(xs)[0] == Meaning(xs[0]) && Meanings(xs)[1..] == Meanings(xs[1..])
    ensures Meanings(xs) == [Meaning(xs[0])] + Meanings(xs[1..])
  {
  }

  ghost predicate WellNamedMembers(es: seq<Entry<Json>>) {
    DistinctNames(es) && forall e | e in es :: WellNamed(e.item)
  }

  ghost predicate SameNames(a: seq<Entry<Json>>, b: seq<Entry<Json>>) {
    |a| == |b| && forall i :: 0 <= i < |a| ==> a[i].name == b[i].name
  }

  lemma SameNamesDistinct(a: seq<Entry<Json>>, b: seq<Entry<Json>>)
    requires SameNames(a, b) && DistinctNames(a)
    ensures DistinctNames(b)
  {
    forall i, j | 0 <= i < j < |b|
      ensures LowerName(b[i].name) != LowerName(b[j].name)
    {
      assert a[i].name == b[i].name && a[j].name == b[j].name;
    }
  }

  lemma FieldsHead(e: Entry<Json>, es: seq<Entry<Json>>)
    ensures Fields([e] + es) == Fields(es)[LowerName(e.name) := Meaning(e.item)]
  {
    assert ([e] + es)[1..] == es;
  }

  /** `b` lists the same names as `a` with items of the same meaning. */
  ghost predicate SameMembers(a: seq<Entry<Json>>, b: seq<Entry<Json>>) {
    SameNames(a, b) && WellNamedMembers(b) && Fields(a) == Fields(b)
  }

  lemma SameMembersCons(es: seq<Entry<Json>>, item: Json, rest: seq<Entry<Json>>)
    requires es != [] && WellNamedMembers(es) && SameMembers(es[1..], rest)
    requires Meaning(item) == Meaning(es[0].item) && WellNamed(item)
    ensures SameMembers(es, [es[0].(item := item)] + rest)
  {
    var r := [es[0].(item := item)] + rest;
    forall i | 0 <= i < |es|
      ensures es[i].name == r[i].name
    {
      if i > 0 { assert es[1..][i - 1].name == rest[i - 1].name; }
    }
    SameNamesDistinct(es, r);
    FieldsHead(r[0], rest);
  }

  lemma WellNamedTail(es: seq<Entry<Json>>)
    requires es != [] && WellNamedMembers(es)
    ensures WellNamedMembers(es[1..]) && WellNamed(es[0].item)
  {
  }

  /** One round of the comparison of two member lists. */
  lemma MembersCompared(fs: seq<Entry<Json>>, ts: seq<Entry<Json>>, owner: Json)
    requires forall e | e in fs :: e.item < owner
    ensures fs != [] ==> fs[0].item < owner && forall e | e in fs[1..] :: e.item < owner
    ensures CompareMembers(fs, ts, owner) ==
      if fs == [] || ts == [] then Compared(if fs == [] && ts == [] then 0 else -5, fs, ts)
      else if CaseOrder(fs[0].name, ts[0].name) != 0 then Compared(-6, fs, ts)
      else
        var r := Comparison(fs[0].item, ts[0].item);
        var f, t := fs[0].(item := r.a), ts[0].(item := r.b);
        if r.code != 0 then Compared(r.code, [f] + fs[1..], [t] + ts[1..])
        else
          var rest := CompareMembers(fs[1..], ts[1..], owner);
          Compared(rest.code, [f] + rest.a, [t] + rest.b)
  {
    hide CaseOrder, Comparison;
  }

  lemma SameMembersSelf(fs: seq<Entry<Json>>)
    requires WellNamedMembers(fs)
    ensures SameMembers(fs, fs)
  {
    hide Fields, WellNamedMembers;
  }

  lemma OneEmpty(fs: seq<Entry<Json>>, ts: seq<Entry<Json>>)
    requires fs == [] || ts == []
    ensures Fields(fs) == Fields(ts) <==> fs == [] && ts == []
  {
    hide LowerName, Meaning;
    if fs != [] { assert LowerName(fs[0].name) in Fields(fs); }
    if ts != [] { assert LowerName(ts[0].name) in Fields(ts); }
  }

  lemma {:induction false} MembersDecideMeaning(fs: seq<Entry<Json>>, ts: seq<Entry<Json>>, owner: Json)
    requires forall e | e in fs :: e.item < owner
    requires WellNamedMembers(fs) && WellNamedMembers(ts)
    requires StrictlyOrdered(fs) && StrictlyOrdered(ts)
    ensures CompareMembers(fs, ts, owner).code == 0 <==> Fields(fs) == Fields(ts)
    ensures SameMembers(fs, CompareMembers(fs, ts, owner).a)
    ensures SameMembers(ts, CompareMembers(fs, ts, owner).b)
    decreases owner, 0, |fs|
  {
    hide *;
    MembersCompared(fs, ts, owner);
    SameMembersSelf(fs);
    SameMembersSelf(ts);
    if fs != [] && ts != [] {
      HeadsDecide(fs, ts);
      if CaseOrder(fs[0].name, ts[0].name) == 0 {
        WellNamedTail(fs);
        WellNamedTail(ts);
        SameMembersSelf(fs[1..]);
        SameMembersSelf(ts[1..]);
        CompareDecidesMeaning(fs[0].item, ts[0].item);
        var r := Comparison(fs[0].item, ts[0].item);
        if r.code == 0 {
          StrictlyOrderedTail(fs);
          StrictlyOrderedTail(ts);
          MembersDecideMeaning(fs[1..], ts[1..], owner);
          var rest := CompareMembers(fs[1..], ts[1..], owner);
          SameMembersCons(fs, r.a, rest.a);
          SameMembersCons(ts, r.b, rest.b);
        } else {
          SameMembersCons(fs, r.a, fs[1..]);
          SameMembersCons(ts, r.b, ts[1..]);
        }
      }
    } else {
      OneEmpty(fs, ts);
    }
  }

  /** The head of an ordered member list and the rest, as fields. */
  lemma OrderedFields(es: seq<Entry<Json>>)
    requires es != [] && StrictlyOrdered(es)
    ensures LowerName(es[0].name) in Fields(es)
    ensures Fields(es)[LowerName(es[0].name)] == Meaning(es[0].item)
    ensures Fields(es[1..]) == Fields(es) - {LowerName(es[0].name)}
  {
    hide Meaning, CaseOrder, LowerName;
    StrictlyOrderedTail(es);
    AbsentBefore(es[0].name, es[1..]);
  }

  lemma SplitFields(f: map<string, Val>, t: map<string, Val>, k: string)
    requires k in f && k in t
    ensures f == t <==> f[k] == t[k] && f - {k} == t - {k}
  {
    if f[k] == t[k] && f - {k} == t - {k} {
      assert f == (f - {k})[k := f[k]] && t == (t - {k})[k := t[k]];
    }
  }

  /** Ordered member lists mean the same exactly when heads and tails agree. */
  lemma HeadsDecide(fs: seq<Entry<Json>>, ts: seq<Entry<Json>>)
    requires fs != [] && ts != []
    requires StrictlyOrdered(fs) && StrictlyOrdered(ts)
    ensures Fields(fs) == Fields(ts) <==>
              && CaseOrder(fs[0].name, ts[0].name) == 0
              && Meaning(fs[0].item) == Meaning(ts[0].item)
              && Fields(fs[1..]) == Fields(ts[1..])
  {
    var x, y := fs[0].name, ts[0].name;
    hide Meaning, CaseOrder, LowerName, Fields;
    CaseOrderReversed(x, y);
    CaseOrderZero(x, y);
    OrderedFields(fs);
    OrderedFields(ts);
    StrictlyOrderedTail(fs);
    StrictlyOrderedTail(ts);
    if CaseOrder(x, y) < 0 {
      AbsentBefore(x, ts);
    } else if CaseOrder(x, y) > 0 {
      AbsentBefore(y, fs);
    } else {
      SplitFields(Fields(fs), Fields(ts), LowerName(x));
    }
  }

  // ----- canonical form: the same statement with no condition on names

  /** Members sorted by the list sort, names in lower case, all the way down. */
  ghost function Canonical(v: Json): Json
    decreases v, 1, 0
  {
    match v
    case Array(xs) => Array(seq(|xs|, i requires 0 <= i < |xs| => Canonical(xs[i])))
    case Object(ms) => SortKeepsMembers(ms); Object(CanonicalMembers(Sort(ms), v))
    case _ => v
  }

  ghost function CanonicalMembers(es: seq<Entry<Json>>, owner: Json): seq<Entry<Json>>
    requires forall e | e in es :: e.item < owner
    decreases owner, 0, |es|
  {
    if es == [] then []
    else [Entry(LowerName(es[0].name), Canonical(es[0].item))] + CanonicalMembers(es[1..], owner)
  }

  /** 0 exactly for trees with one canonical form; hence an equivalence relation. */
  lemma {:induction false} CompareDecidesCanonical(a: Json, b: Json)
    ensures Comparison(a, b).code == 0 <==> Canonical(a) == Canonical(b)
    decreases a, 1, 0
  {
    if SameKind(a, b) {
      match a {
        case Array(xs) =>
          ItemsDecideCanonical(xs, b.items);
          assert Canonical(a) == Canonical(b) <==> Canonical(a).items == Canonical(b).items;
          assert |Canonical(a).items| == |xs| && |Canonical(b).items| == |b.items|;
          assert forall i :: 0 <= i < |xs| ==> Canonical(a).items[i] == Canonical(xs[i]);
          assert forall i :: 0 <= i < |b.items| ==> Canonical(b).items[i] == Canonical(b.items[i]);
        case Object(ms) =>
          SortKeepsMembers(ms);
          SortKeepsMembers(b.members);
          MembersDecideCanonical(Sort(ms), Sort(b.members), a, b);
        case _ =>
      }
    }
  }

  lemma {:induction false} ItemsDecideCanonical(xs: seq<Json>, ys: seq<Json>)
    ensures CompareItems(xs, ys).code == 0 <==>
              |xs| == |ys| && forall i :: 0 <= i < |xs| ==> Canonical(xs[i]) == Canonical(ys[i])
    decreases xs, 0, 0
  {
    if xs != [] && ys != [] {
      CompareDecidesCanonical(xs[0], ys[0]);
      ItemsDecideCanonical(xs[1..], ys[1..]);
      if CompareItems(xs, ys).code == 0 {
        forall i | 0 <= i < |xs|
          ensures Canonical(xs[i]) == Canonical(ys[i])
        {
          if i > 0 { assert xs[i] == xs[1..][i - 1] && ys[i] == ys[1..][i - 1]; }
        }
      } else if |xs| == |ys| && forall i :: 0 <= i < |xs| ==> Canonical(xs[i]) == Canonical(ys[i]) {
        forall i | 0 <= i < |xs[1..]|
          ensures Canonical(xs[1..][i]) == Canonical(ys[1..][i])
        {
          assert xs[1..][i] == xs[i + 1] && ys[1..][i] == ys[i + 1];
        }
        assert false;
      }
    }
  }

  lemma {:induction false} MembersDecideCanonical(fs: seq<Entry<Json>>, ts: seq<Entry<Json>>, a: Json, b: Json)
    requires (forall e | e in fs :: e.item < a) && (forall e | e in ts :: e.item < b)
    ensures CompareMembers(fs, ts, a).code == 0 <==> CanonicalMembers(fs, a) == CanonicalMembers(ts, b)
    decreases a, 0, |fs|
  {
    if fs != [] && ts != [] {
      CaseOrderZero(fs[0].name, ts[0].name);
      CompareDecidesCanonical(fs[0].item, ts[0].item);
      MembersDecideCanonical(fs[1..], ts[1..], a, b);
      var x, y := CanonicalMembers(fs, a), CanonicalMembers(ts, b);
      assert x[0] == Entry(LowerName(fs[0].name), Canonical(fs[0].item));
      assert y[0] == Entry(LowerName(ts[0].name), Canonical(ts[0].item));
      assert x[1..] == CanonicalMembers(fs[1..], a) && y[1..] == CanonicalMembers(ts[1..], b);
    }
  }

  lemma CompareIsEquivalence(a: Json, b: Json, c: Json)
    ensures Comparison(a, a).code == 0
    ensures Comparison(a, b).code == 0 ==> Comparison(b, a).code == 0
    ensures Comparison(a, b).code == 0 && Comparison(b, c).code == 0 ==> Comparison(a, c).code == 0
  {
    CompareDecidesCanonical(a, a);
    CompareDecidesCanonical(a, b);
    CompareDecidesCanonical(b, a);
    CompareDecidesCanonical(b, c);
    CompareDecidesCanonical(a, c);
  }
}
