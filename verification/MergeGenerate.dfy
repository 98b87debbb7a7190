/** Generating a merge patch, and exactly when merging it reaches the second tree. */
module MergeGenerate {
  import opened Json
  import opened Sorting
  import opened Compare
  import opened MergeApply
  import Differences

  // ----- height: comparing sorts in place but keeps the nesting

  ghost function Height(v: Json): nat {
    match v
    case Array(xs) => 1 + ItemsHeight(xs)
    case Object(ms) => 1 + MembersHeight(ms)
    case _ => 0
  }

  ghost function Max(a: nat, b: nat): nat {
    if a < b then b else a
  }

  ghost function ItemsHeight(xs: seq<Json>): nat {
    if xs == [] then 0 else Max(Height(xs[0]), ItemsHeight(xs[1..]))
  }

  ghost function MembersHeight(es: seq<Entry<Json>>): nat {
    if es == [] then 0 else Max(Height(es[0].item), MembersHeight(es[1..]))
  }

  lemma {:induction false} MembersHeightBound(es: seq<Entry<Json>>, h: nat)
    ensures MembersHeight(es) <= h <==> forall e :: e in es ==> Height(e.item) <= h
  {
    if es != [] {
      MembersHeightBound(es[1..], h);
      assert forall e :: e in es <==> e == es[0] || e in es[1..];
    }
  }

  lemma SortKeepsHeight(es: seq<Entry<Json>>)
    ensures MembersHeight(Sort(es)) == MembersHeight(es)
    ensures forall e :: e in Sort(es) ==> Height(e.item) <= MembersHeight(es)
  {
    SortKeepsMembers(es);
    MembersHeightBound(es, MembersHeight(es));
    MembersHeightBound(Sort(es), MembersHeight(es));
    MembersHeightBound(Sort(es), MembersHeight(Sort(es)));
    MembersHeightBound(es, MembersHeight(Sort(es)));
  }

  lemma {:induction false} CompareKeepsHeight(a: Json, b: Json)
    ensures Height(Comparison(a, b).a) == Height(a)
    decreases a, 1, 0
  {
    if SameKind(a, b) {
      match a {
        case Array(xs) => CompareKeepsItemsHeight(xs, b.items);
        case Object(ms) =>
          SortKeepsMembers(ms);
          SortKeepsHeight(ms);
          CompareKeepsMembersHeight(Sort(ms), Sort(b.members), a);
        case _ =>
      }
    }
  }

  lemma {:induction false} CompareKeepsItemsHeight(xs: seq<Json>, ys: seq<Json>)
    ensures ItemsHeight(CompareItems(xs, ys).a) == ItemsHeight(xs)
    decreases xs, 0, 0
  {
    if xs != [] && ys != [] {
      CompareKeepsHeight(xs[0], ys[0]);
      CompareKeepsItemsHeight(xs[1..], ys[1..]);
      var r := CompareItems(xs, ys).a;
      assert r[1..] == if Comparison(xs[0], ys[0]).code != 0 then xs[1..] else CompareItems(xs[1..], ys[1..]).a;
    }
  }

  lemma {:induction false} CompareKeepsMembersHeight(fs: seq<Entry<Json>>, ts: seq<Entry<Json>>, owner: Json)
    requires forall e | e in fs :: e.item < owner
    ensures MembersHeight(CompareMembers(fs, ts, owner).a) == MembersHeight(fs)
    decreases owner, 0, |fs|
  {
    if fs != [] && ts != [] && CaseOrder(fs[0].name, ts[0].name) == 0 {
      CompareKeepsHeight(fs[0].item, ts[0].item);
      CompareKeepsMembersHeight(fs[1..], ts[1..], owner);
      var r := CompareMembers(fs, ts, owner).a;
      assert r[1..] == if Comparison(fs[0].item, ts[0].item).code != 0 then fs[1..]
                       else CompareMembers(fs[1..], ts[1..], owner).a;
    }
  }

  // ----- generating

  /** Sign of `strcmp`. */
  function ByteOrder(a: string, b: string): int
    decreases |a|
  {
    if a == [] then (if b == [] then 0 else -1)
    else if b == [] then 1
    else if a[0] < b[0] then -1
    else if a[0] > b[0] then 1
    else ByteOrder(a[1..], b[1..])
  }

  /** It is dictionary order. */
  lemma {:induction false} ByteOrderIs(a: string, b: string)
    ensures ByteOrder(a, b) < 0 <==> Differences.Precedes(a, b)
    ensures ByteOrder(a, b) > 0 <==> Differences.Precedes(b, a)
  {
    if a != [] && b != [] && a[0] == b[0] {
      ByteOrderIs(a[1..], b[1..]);
      hide Differences.Precedes;
      Differences.PrecedesTail(a, b);
      Differences.PrecedesTail(b, a);
    } else {
      Differences.PrecedesHere(a, b);
      Differences.PrecedesHere(b, a);
      hide Differences.Precedes;
    }
  }

  ghost predicate Bounded(fs: seq<Entry<Json>>, h: nat) {
    forall e | e in fs :: Height(e.item) < h
  }

  /** `cJSONUtils_GenerateMergePatch`. */
  function GenerateMergePatch(from: Option<Json>, to: Option<Json>): Option<Json>
    decreases if from.Some? then 1 + Height(from.value) else 0, 0
  {
    if to.None? then Some(Null)
    else if !to.value.Object? || from.None? || !from.value.Object? then to
    else
      var fs := from.value.members;
      SortKeepsHeight(fs);
      var ms := MergeDiff(Sort(fs), Sort(to.value.members), Height(from.value));
      if ms == [] then None else Some(Object(ms))
  }

  function MergeDiff(fs: seq<Entry<Json>>, ts: seq<Entry<Json>>, ghost h: nat): seq<Entry<Json>>
    requires Bounded(fs, h)
    decreases h, 2, |fs| + |ts|
  {
    if fs == [] && ts == [] then []
    else
      var order := if fs == [] then 1 else if ts == [] then -1 else ByteOrder(fs[0].name, ts[0].name);
      if order < 0 then [Entry(fs[0].name, Null)] + MergeDiff(fs[1..], ts, h)
      else if order > 0 then [ts[0]] + MergeDiff(fs, ts[1..], h)
      else MemberDiff(fs[0], ts[0], h) + MergeDiff(fs[1..], ts[1..], h)
  }

  /** A member both objects have: nothing if the values compare equal, else their patch. */
  function MemberDiff(f: Entry<Json>, t: Entry<Json>, ghost h: nat): seq<Entry<Json>>
    requires Height(f.item) < h
    decreases h, 1, 0
  {
    var r := Comparison(f.item, t.item);
    if r.code == 0 then []
    else
      CompareKeepsHeight(f.item, t.item);
      match GenerateMergePatch(Some(r.a), Some(r.b))
      case None => []
      case Some(p) => [Entry(t.name, p)]
  }

  // ----- how the walk meets the members of two lists

  datatype Meeting = Together | NullFirst | SetFirst

  function NamesOf<T>(es: seq<Entry<T>>): (r: seq<string>)
    ensures |r| == |es| && forall i :: 0 <= i < |es| ==> r[i] == es[i].name
  {
    seq(|es|, i requires 0 <= i < |es| => es[i].name)
  }

  /** How the walk with `strcmp` passes the names of two lists that are `key` in lower case: in one
      step, or one after the other. A name passed in the first list becomes a null, one passed in the
      second is set. */
  function Meet(fs: seq<string>, ts: seq<string>, key: string): Meeting
    decreases |fs| + |ts|
  {
    if fs == [] then SetFirst
    else if ts == [] then NullFirst
    else
      var order := ByteOrder(fs[0], ts[0]);
      if order < 0 then (if LowerName(fs[0]) == key then NullFirst else Meet(fs[1..], ts, key))
      else if order > 0 then (if LowerName(ts[0]) == key then SetFirst else Meet(fs, ts[1..], key))
      else if LowerName(fs[0]) == key then Together
      else Meet(fs[1..], ts[1..], key)
  }

  /** No object reached through objects has a null member. */
  ghost predicate NullFree(v: Val) {
    v.VObject? ==> forall k :: k in v.fields ==> v.fields[k] != VNull && NullFree(v.fields[k])
  }

  /** A member of a merge patch can set this value where there was none. */
  ghost predicate Settable(v: Json) {
    !v.Null? && NullFree(Meaning(v))
  }

  /** Merging the patch between two trees reaches the second. Objects reached through objects are
      sorted; a new member must be settable; a member that both objects have must be met in one step,
      and then be equal or reach again, or else be deleted before it is set. */
  ghost predicate Reaches(from: Json, to: Json)
    decreases to, 1
  {
    to.Object? ==>
      if !from.Object? then NullFree(Meaning(to))
      else forall t | t in to.members :: MemberReaches(Sort(from.members), t, NamesOf(Sort(to.members)))
  }

  ghost predicate MemberReaches(fs: seq<Entry<Json>>, t: Entry<Json>, tnames: seq<string>)
    decreases t, 2
  {
    var i := FindName(fs, t.name);
    if i == |fs| then Settable(t.item)
    else match Meet(NamesOf(fs), tnames, LowerName(t.name))
      case Together => Meaning(fs[i].item) == Meaning(t.item) || (!t.item.Null? && Reaches(fs[i].item, t.item))
      case NullFirst => Settable(t.item)
      case SetFirst => false
  }

  // ----- the patch under one name

  lemma {:induction false} ByteOrderZero(a: string, b: string)
    ensures ByteOrder(a, b) == 0 <==> a == b
  {
    if a != [] && b != [] {
      ByteOrderZero(a[1..], b[1..]);
      assert a == [a[0]] + a[1..] && b == [b[0]] + b[1..];
    }
  }

  ghost predicate Lacks<T>(es: seq<Entry<T>>, key: string) {
    forall e | e in es :: LowerName(e.name) != key
  }

  lemma {:induction false} FoldAppend(v: Option<Val>, a: seq<Entry<Json>>, b: seq<Entry<Json>>, k: string)
    ensures FoldAt(v, a + b, k) == FoldAt(FoldAt(v, a, k), b, k)
    decreases a
  {
    if a == [] {
      assert a + b == b;
    } else {
      assert (a + b)[1..] == a[1..] + b && (a + b)[0] == a[0];
      FoldAppend(if LowerName(a[0].name) == k then MergeOnto(v, a[0].item) else v, a[1..], b, k);
    }
  }

  lemma MemberDiffShape(f: Entry<Json>, t: Entry<Json>, h: nat)
    requires Height(f.item) < h
    ensures |MemberDiff(f, t, h)| <= 1 && forall e :: e in MemberDiff(f, t, h) ==> e.name == t.name
  {
    hide Comparison, GenerateMergePatch;
  }

  lemma FoldOther(v: Option<Val>, ps: seq<Entry<Json>>, k: string)
    requires |ps| <= 1 && Lacks(ps, k)
    ensures FoldAt(v, ps, k) == v
  {
    if ps != [] { assert ps[0] in ps && ps[1..] == []; }
  }

  /** What one step of the walk leaves under a name. */
  lemma DiffStep(fs: seq<Entry<Json>>, ts: seq<Entry<Json>>, h: nat, k: string, v: Option<Val>)
    requires Bounded(fs, h) && (fs != [] || ts != [])
    ensures var order := if fs == [] then 1 else if ts == [] then -1 else ByteOrder(fs[0].name, ts[0].name);
      FoldAt(v, MergeDiff(fs, ts, h), k) ==
      if order < 0 then
        FoldAt(if LowerName(fs[0].name) == k then None else v, MergeDiff(fs[1..], ts, h), k)
      else if order > 0 then
        FoldAt(if LowerName(ts[0].name) == k then MergeOnto(v, ts[0].item) else v, MergeDiff(fs, ts[1..], h), k)
      else
        FoldAt(if LowerName(ts[0].name) == k then FoldAt(v, MemberDiff(fs[0], ts[0], h), k) else v,
               MergeDiff(fs[1..], ts[1..], h), k)
  {
    var order := if fs == [] then 1 else if ts == [] then -1 else ByteOrder(fs[0].name, ts[0].name);
    if order < 0 {
      FoldHead(v, Entry(fs[0].name, Null), MergeDiff(fs[1..], ts, h), k);
    } else if order > 0 {
      FoldHead(v, ts[0], MergeDiff(fs, ts[1..], h), k);
    } else {
      MemberDiffShape(fs[0], ts[0], h);
      var m := MemberDiff(fs[0], ts[0], h);
      hide MemberDiff, LowerName, MergeOnto;
      FoldAppend(v, m, MergeDiff(fs[1..], ts[1..], h), k);
      if LowerName(ts[0].name) != k { FoldOther(v, m, k); }
    }
  }

  lemma FoldHead(v: Option<Val>, e: Entry<Json>, ps: seq<Entry<Json>>, k: string)
    ensures FoldAt(v, [e] + ps, k) == FoldAt(if LowerName(e.name) == k then MergeOnto(v, e.item) else v, ps, k)
  {
    assert ([e] + ps)[1..] == ps;
  }

  lemma LacksTail<T>(es: seq<Entry<T>>, k: string)
    requires es != [] && DistinctNames(es)
    ensures DistinctNames(es[1..])
    ensures LowerName(es[0].name) == k ==> Lacks(es[1..], k)
    ensures Lacks(es, k) ==> Lacks(es[1..], k) && LowerName(es[0].name) != k
  {
    if LowerName(es[0].name) == k {
      forall e | e in es[1..] ensures LowerName(e.name) != k {
        var i :| 0 <= i < |es[1..]| && es[1..][i] == e;
        assert es[i + 1] == e;
      }
    }
  }

  /** A name that neither list holds is not touched. */
  lemma {:induction false} DiffAbsent(fs: seq<Entry<Json>>, ts: seq<Entry<Json>>, h: nat, k: string, v: Option<Val>)
    requires Bounded(fs, h) && DistinctNames(fs) && DistinctNames(ts) && Lacks(fs, k) && Lacks(ts, k)
    ensures FoldAt(v, MergeDiff(fs, ts, h), k) == v
    decreases |fs| + |ts|
  {
    if fs != [] || ts != [] {
      DiffStep(fs, ts, h, k, v);
      hide MergeDiff, LowerName, FoldAt, DistinctNames, Lacks;
      if fs != [] { LacksTail(fs, k); }
      if ts != [] { LacksTail(ts, k); }
      var order := if fs == [] then 1 else if ts == [] then -1 else ByteOrder(fs[0].name, ts[0].name);
      DiffAbsent(if order <= 0 then fs[1..] else fs, if order >= 0 then ts[1..] else ts, h, k, v);
    } else {
      assert MergeDiff(fs, ts, h) == [];
    }
  }

  /** A name that only the first list holds is deleted. */
  lemma {:induction false} DiffGone(fs: seq<Entry<Json>>, ts: seq<Entry<Json>>, h: nat, i: nat, v: Option<Val>)
    requires Bounded(fs, h) && DistinctNames(fs) && DistinctNames(ts) && i < |fs| && Lacks(ts, LowerName(fs[i].name))
    ensures FoldAt(v, MergeDiff(fs, ts, h), LowerName(fs[i].name)) == None
    decreases |fs| + |ts|
  {
    var k := LowerName(fs[i].name);
    DiffStep(fs, ts, h, k, v);
    var order := if ts == [] then -1 else ByteOrder(fs[0].name, ts[0].name);
    hide MergeDiff, LowerName, FoldAt, Lacks;
    if ts != [] { LacksTail(ts, k); ByteOrderZero(fs[0].name, ts[0].name); }
    LacksTail(fs, k);
    if order > 0 {
      DiffGone(fs, ts[1..], h, i, v);
    } else {
      var rest := if order == 0 then ts[1..] else ts;
      if i == 0 { DiffAbsent(fs[1..], rest, h, k, None); }
      else {
        assert LowerName(fs[0].name) != k by { DistinctAt(fs, 0, i); }
        DiffGone(fs[1..], rest, h, i - 1, v);
      }
    }
  }

  lemma BoundedTail(fs: seq<Entry<Json>>, h: nat)
    requires fs != [] && Bounded(fs, h)
    ensures Bounded(fs[1..], h) && Height(fs[0].item) < h
  {
    assert fs[0] in fs;
  }

  lemma DistinctAt<T>(es: seq<Entry<T>>, i: nat, j: nat)
    requires DistinctNames(es) && i < j < |es|
    ensures LowerName(es[i].name) != LowerName(es[j].name)
  {
  }

  /** A name that only the second list holds is set. */
  lemma {:induction false} DiffNew(fs: seq<Entry<Json>>, ts: seq<Entry<Json>>, h: nat, j: nat, v: Option<Val>)
    requires Bounded(fs, h) && DistinctNames(fs) && DistinctNames(ts) && j < |ts| && Lacks(fs, LowerName(ts[j].name))
    ensures FoldAt(v, MergeDiff(fs, ts, h), LowerName(ts[j].name)) == MergeOnto(v, ts[j].item)
    decreases |fs| + |ts|
  {
    var k := LowerName(ts[j].name);
    DiffStep(fs, ts, h, k, v);
    var order := if fs == [] then 1 else ByteOrder(fs[0].name, ts[0].name);
    hide MergeDiff, LowerName, FoldAt, Lacks, MergeOnto;
    if fs != [] { LacksTail(fs, k); ByteOrderZero(fs[0].name, ts[0].name); }
    LacksTail(ts, k);
    if order < 0 {
      DiffNew(fs[1..], ts, h, j, v);
    } else {
      var rest := if order == 0 then fs[1..] else fs;
      if j == 0 { DiffAbsent(rest, ts[1..], h, k, MergeOnto(v, ts[0].item)); }
      else {
        assert LowerName(ts[0].name) != k by { DistinctAt(ts, 0, j); }
        DiffNew(rest, ts[1..], h, j - 1, v);
      }
    }
  }

  /** A name that both lists hold. */
  lemma {:induction false} DiffBoth(fs: seq<Entry<Json>>, ts: seq<Entry<Json>>, h: nat, i: nat, j: nat, v: Option<Val>)
    requires Bounded(fs, h) && DistinctNames(fs) && DistinctNames(ts)
    requires i < |fs| && j < |ts| && LowerName(fs[i].name) == LowerName(ts[j].name)
    ensures var k := LowerName(ts[j].name);
      FoldAt(v, MergeDiff(fs, ts, h), k) ==
      match Meet(NamesOf(fs), NamesOf(ts), k)
      case Together => FoldAt(v, MemberDiff(fs[i], ts[j], h), k)
      case NullFirst => MergeOnto(None, ts[j].item)
      case SetFirst => None
    decreases |fs| + |ts|
  {
    hide *;
    var k := LowerName(ts[j].name);
    DiffStep(fs, ts, h, k, v);
    var order := ByteOrder(fs[0].name, ts[0].name);
    MeetStep(fs, ts, k);
    ByteOrderZero(fs[0].name, ts[0].name);
    LacksTail(fs, k);
    LacksTail(ts, k);
    BoundedTail(fs, h);
    if i > 0 { DistinctAt(fs, 0, i); }
    if j > 0 { DistinctAt(ts, 0, j); }
    if order < 0 {
      if i == 0 { DiffNew(fs[1..], ts, h, j, None); } else { DiffBoth(fs[1..], ts, h, i - 1, j, v); }
    } else if order > 0 {
      if j == 0 { DiffGone(fs, ts[1..], h, i, MergeOnto(v, ts[0].item)); } else { DiffBoth(fs, ts[1..], h, i, j - 1, v); }
    } else if i == 0 {
      DiffAbsent(fs[1..], ts[1..], h, k, FoldAt(v, MemberDiff(fs[0], ts[0], h), k));
    } else {
      DiffBoth(fs[1..], ts[1..], h, i - 1, j - 1, v);
    }
  }

  lemma MeetStep<S, T>(fs: seq<Entry<S>>, ts: seq<Entry<T>>, k: string)
    requires fs != [] && ts != []
    ensures var order := ByteOrder(fs[0].name, ts[0].name);
      Meet(NamesOf(fs), NamesOf(ts), k) ==
      if order < 0 then (if LowerName(fs[0].name) == k then NullFirst else Meet(NamesOf(fs[1..]), NamesOf(ts), k))
      else if order > 0 then (if LowerName(ts[0].name) == k then SetFirst else Meet(NamesOf(fs), NamesOf(ts[1..]), k))
      else if LowerName(fs[0].name) == k then Together
      else Meet(NamesOf(fs[1..]), NamesOf(ts[1..]), k)
  {
    assert NamesOf(fs)[1..] == NamesOf(fs[1..]) && NamesOf(ts)[1..] == NamesOf(ts[1..]);
  }

  lemma {:induction false} MergeOntoOther(f: Option<Val>, t: Val)
    requires FieldsOf(f) == map[]
    ensures RfcMerge(f, t) == t <==> NullFree(t)
    decreases t
  {
    match t
    case VObject(tm) =>
      var r := RfcMerge(f, t).fields;
      forall k | k in tm && tm[k] != VNull
        ensures k in r && (r[k] == tm[k] <==> NullFree(tm[k]))
      {
        MergeOntoOther(None, tm[k]);
      }
      assert r == tm <==> r.Keys == tm.Keys && forall k :: k in tm ==> r[k] == tm[k];
    case _ =>
  }

  // ----- comparing in place rearranges, and reaching does not depend on that

  /** The same tree, up to the order of members and the spelling inside arrays. */
  ghost predicate Rearranged(a: Json, b: Json)
    decreases a
  {
    && Meaning(a) == Meaning(b) && WellNamed(a) && WellNamed(b)
    && (a.Object? ==>
          var fs, gs := Sort(a.members), Sort(b.members);
          SameNames(fs, gs) && forall i :: 0 <= i < |fs| ==> fs[i] in a.members && Rearranged(fs[i].item, gs[i].item))
  }

  ghost predicate AllRearranged(fs: seq<Entry<Json>>, gs: seq<Entry<Json>>) {
    SameNames(fs, gs) && forall i :: 0 <= i < |fs| ==> Rearranged(fs[i].item, gs[i].item)
  }

  lemma RearrangedObjects(a: Json, b: Json)
    requires a.Object? && b.Object? && Meaning(a) == Meaning(b) && WellNamed(a) && WellNamed(b)
    ensures Rearranged(a, b) <==> AllRearranged(Sort(a.members), Sort(b.members))
  {
    SortKeepsMembers(a.members);
    assert forall i :: 0 <= i < |Sort(a.members)| ==> Sort(a.members)[i] in Sort(a.members);
    hide Sort, Meaning, WellNamed;
  }

  lemma SortedParts(a: Json)
    requires a.Object? && WellNamed(a)
    ensures forall e :: e in Sort(a.members) ==> e.item < a && WellNamed(e.item)
  {
    SortKeepsMembers(a.members);
  }

  lemma {:induction false} RearrangedSelf(a: Json)
    requires WellNamed(a)
    ensures Rearranged(a, a)
    decreases a
  {
    if a.Object? {
      SortedParts(a);
      RearrangedObjects(a, a);
      var es := Sort(a.members);
      hide Sort, WellNamed, Rearranged;
      forall i | 0 <= i < |es| ensures Rearranged(es[i].item, es[i].item) {
        assert es[i] in es;
        RearrangedSelf(es[i].item);
      }
    }
  }

  lemma AllRearrangedSelf(es: seq<Entry<Json>>)
    requires WellNamedMembers(es)
    ensures AllRearranged(es, es)
  {
    forall i | 0 <= i < |es| ensures Rearranged(es[i].item, es[i].item) {
      assert es[i] in es;
      RearrangedSelf(es[i].item);
    }
  }

  lemma AllRearrangedCons(es: seq<Entry<Json>>, item: Json, rest: seq<Entry<Json>>)
    requires es != [] && Rearranged(es[0].item, item) && AllRearranged(es[1..], rest)
    ensures AllRearranged(es, [es[0].(item := item)] + rest)
  {
    hide Rearranged;
    var r := [es[0].(item := item)] + rest;
    forall i | 0 <= i < |es| ensures es[i].name == r[i].name && Rearranged(es[i].item, r[i].item) {
      if i > 0 { assert es[i] == es[1..][i - 1] && r[i] == rest[i - 1]; }
    }
  }

  lemma SameNamesSorted(fs: seq<Entry<Json>>, gs: seq<Entry<Json>>)
    requires StrictlyOrdered(fs) && SameNames(fs, gs)
    ensures StrictlyOrdered(gs) && Sort(gs) == gs && Sort(fs) == fs
  {
    forall i, j | 0 <= i < j < |gs| ensures Before(gs[i], gs[j]) {
      assert Before(fs[i], fs[j]) && gs[i].name == fs[i].name && gs[j].name == fs[j].name;
    }
  }

  lemma AllRearrangedNames(fs: seq<Entry<Json>>, gs: seq<Entry<Json>>)
    requires AllRearranged(fs, gs)
    ensures SameNames(fs, gs)
  {
  }

  lemma RearrangedOther(a: Json, b: Json)
    requires WellNamed(a) && WellNamed(b) && !(a.Object? && b.Object?)
    ensures Rearranged(a, Comparison(a, b).a) && Rearranged(b, Comparison(a, b).b)
  {
    CompareDecidesMeaning(a, b);
    if SameKind(a, b) {
      hide Comparison, Meaning, WellNamed;
    } else {
      assert Comparison(a, b) == Compared(-1, a, b);
      hide *;
      RearrangedSelf(a);
      RearrangedSelf(b);
    }
  }

  lemma {:induction false} CompareRearranges(a: Json, b: Json)
    requires WellNamed(a) && WellNamed(b)
    ensures Rearranged(a, Comparison(a, b).a) && Rearranged(b, Comparison(a, b).b)
    decreases a, 1, 0
  {
    hide *;
    CompareDecidesMeaning(a, b);
    if a.Object? && b.Object? {
      SortedObject(a);
      SortedObject(b);
      ObjectsCompared(a, b);
      var fs, ts := Sort(a.members), Sort(b.members);
      var r := CompareMembers(fs, ts, a);
      MembersRearrange(fs, ts, a);
      AllRearrangedNames(fs, r.a);
      AllRearrangedNames(ts, r.b);
      SameNamesSorted(fs, r.a);
      SameNamesSorted(ts, r.b);
      RearrangedObjects(a, Object(r.a));
      RearrangedObjects(b, Object(r.b));
    } else {
      RearrangedOther(a, b);
    }
  }

  lemma {:induction false} MembersRearrange(fs: seq<Entry<Json>>, ts: seq<Entry<Json>>, owner: Json)
    requires forall e | e in fs :: e.item < owner
    requires WellNamedMembers(fs) && WellNamedMembers(ts)
    ensures AllRearranged(fs, CompareMembers(fs, ts, owner).a) && AllRearranged(ts, CompareMembers(fs, ts, owner).b)
    decreases owner, 0, |fs|
  {
    hide *;
    AllRearrangedSelf(fs);
    AllRearrangedSelf(ts);
    MembersCompared(fs, ts, owner);
    if fs != [] && ts != [] && CaseOrder(fs[0].name, ts[0].name) == 0 {
      WellNamedTail(fs);
      WellNamedTail(ts);
      CompareRearranges(fs[0].item, ts[0].item);
      var r := Comparison(fs[0].item, ts[0].item);
      if r.code == 0 {
        MembersRearrange(fs[1..], ts[1..], owner);
        var rest := CompareMembers(fs[1..], ts[1..], owner);
        AllRearrangedCons(fs, r.a, rest.a);
        AllRearrangedCons(ts, r.b, rest.b);
      } else {
        AllRearrangedSelf(fs[1..]);
        AllRearrangedSelf(ts[1..]);
        AllRearrangedCons(fs, r.a, fs[1..]);
        AllRearrangedCons(ts, r.b, ts[1..]);
      }
    }
  }

  lemma {:induction false} FindSameNames(fs: seq<Entry<Json>>, gs: seq<Entry<Json>>, name: string)
    requires SameNames(fs, gs)
    ensures FindName(fs, name) == FindName(gs, name) && NamesOf(fs) == NamesOf(gs)
  {
    if fs != [] {
      assert fs[0].name == gs[0].name;
      forall i | 0 <= i < |fs[1..]| ensures fs[1..][i].name == gs[1..][i].name { assert fs[i + 1].name == gs[i + 1].name; }
      FindSameNames(fs[1..], gs[1..], name);
    }
  }

  lemma NullMeaning(v: Json)
    ensures v.Null? <==> Meaning(v) == VNull
  {
  }

  lemma RearrangedMeans(a: Json, b: Json)
    requires Rearranged(a, b)
    ensures Meaning(a) == Meaning(b) && (a.Null? <==> b.Null?) && (a.Object? <==> b.Object?)
    ensures Settable(a) <==> Settable(b)
  {
    NullMeaning(a);
    NullMeaning(b);
    hide NullFree;
  }

  lemma {:induction false} ReachesRearranged(f: Json, t: Json, g: Json, u: Json)
    requires Rearranged(f, g) && Rearranged(t, u)
    ensures Reaches(f, t) <==> Reaches(g, u)
    decreases t, 1
  {
    RearrangedMeans(f, g);
    RearrangedMeans(t, u);
    if f.Object? && t.Object? {
      var fs, gs, ts, us := Sort(f.members), Sort(g.members), Sort(t.members), Sort(u.members);
      RearrangedObjects(f, g);
      RearrangedObjects(t, u);
      ReachesSorted(f, t);
      ReachesSorted(g, u);
      SortKeepsMembers(t.members);
      hide *;
      NamesRearranged(ts, us);
      forall j | 0 <= j < |ts| ensures MemberReaches(fs, ts[j], NamesOf(ts)) <==> MemberReaches(gs, us[j], NamesOf(us)) {
        assert ts[j] in ts;
        RearrangedAt(ts, us, j);
        MemberReachesRearranged(fs, ts[j], NamesOf(ts), gs, us[j]);
      }
    }
  }

  lemma NamesRearranged(ts: seq<Entry<Json>>, us: seq<Entry<Json>>)
    requires AllRearranged(ts, us)
    ensures |ts| == |us| && NamesOf(ts) == NamesOf(us)
  {
    FindSameNames(ts, us, "");
  }

  lemma RearrangedAt(ts: seq<Entry<Json>>, us: seq<Entry<Json>>, j: nat)
    requires AllRearranged(ts, us) && j < |ts|
    ensures j < |us| && ts[j].name == us[j].name && Rearranged(ts[j].item, us[j].item)
  {
    hide Rearranged;
  }

  lemma ReachesMembers(from: Json, to: Json)
    requires from.Object? && to.Object?
    ensures Reaches(from, to) <==>
            forall t :: t in to.members ==> MemberReaches(Sort(from.members), t, NamesOf(Sort(to.members)))
  {
    hide MemberReaches, Sort, NamesOf;
  }

  lemma SortedIn<T>(es: seq<Entry<T>>)
    ensures forall j :: 0 <= j < |Sort(es)| ==> Sort(es)[j] in es
  {
    var r := Sort(es);
    SortPermutes(es);
    forall j | 0 <= j < |r| ensures r[j] in es { assert r[j] in multiset(r); }
  }

  lemma ReachesSorted(from: Json, to: Json)
    requires from.Object? && to.Object?
    ensures var fs, ts := Sort(from.members), Sort(to.members);
      Reaches(from, to) <==> forall j :: 0 <= j < |ts| ==> MemberReaches(fs, ts[j], NamesOf(ts))
  {
    ReachesMembers(from, to);
    SortKeepsMembers(to.members);
    var fs, ts := Sort(from.members), Sort(to.members);
    SortedIn(to.members);
    hide *;
    if forall j :: 0 <= j < |ts| ==> MemberReaches(fs, ts[j], NamesOf(ts)) {
      forall t | t in to.members ensures MemberReaches(fs, t, NamesOf(ts)) {
        assert t in ts;
      }
    }
  }

  lemma {:induction false} MemberReachesRearranged(fs: seq<Entry<Json>>, t: Entry<Json>, tnames: seq<string>,
                                                   gs: seq<Entry<Json>>, u: Entry<Json>)
    requires AllRearranged(fs, gs) && t.name == u.name && Rearranged(t.item, u.item)
    ensures MemberReaches(fs, t, tnames) <==> MemberReaches(gs, u, tnames)
    decreases t, 2
  {
    FindSameNames(fs, gs, t.name);
    RearrangedMeans(t.item, u.item);
    var i := FindName(fs, t.name);
    hide Rearranged, Meaning, Settable, Meet, FindName, LowerName, NamesOf;
    if i < |fs| {
      RearrangedMeans(fs[i].item, gs[i].item);
      ReachesRearranged(fs[i].item, t.item, gs[i].item, u.item);
    }
  }

  // ----- what merging the generated patch reaches

  /** A value copied whole into a patch, set where there was no object. */
  lemma MergeOntoNone(v: Option<Val>, t: Json)
    requires WellNamed(t) && FieldsOf(v) == map[]
    ensures Patchable(t) && (MergeVal(v, t) == Meaning(t) <==> NullFree(Meaning(t)))
    ensures MergeOnto(v, t) == Some(Meaning(t)) <==> Settable(t)
  {
    WellNamedPatchable(t);
    MergeIsFold(None, t);
    MergeIsRfc(None, t);
    MergeOntoOther(None, Meaning(t));
    assert MergeVal(v, t) == MergeVal(None, t);
  }

  lemma {:induction false} GenerateExact(from: Json, to: Json)
    requires WellNamed(from) && WellNamed(to)
    ensures var p := GenerateMergePatch(Some(from), Some(to));
      && (p.None? <==> from.Object? && to.Object? && NamesOf(Sort(from.members)) == NamesOf(Sort(to.members))
                       && Meaning(from) == Meaning(to))
      && (p.None? ==> Reaches(from, to))
      && (p.Some? ==> Patchable(p.value) && (p.value.Null? <==> to.Null?)
                      && (MergeVal(Some(Meaning(from)), p.value) == Meaning(to) <==> Reaches(from, to)))
    decreases 1 + Height(from), 0
  {
    hide *;
    if !to.Object? || !from.Object? {
      GenerateWhole(from, to);
    } else {
      var fs, ts, h := Sort(from.members), Sort(to.members), Height(from);
      GenerateObjects(from, to);
      SortedReady(from);
      SortedReady(to);
      ReachesSorted(from, to);
      DiffPatchable(fs, ts, h);
      DiffEmpty(fs, ts, h);
      DiffReaches(fs, ts, h);
      PatchOfMembers(Fields(fs), MergeDiff(fs, ts, h));
    }
  }

  lemma GenerateObjects(from: Json, to: Json)
    requires from.Object? && to.Object?
    ensures var fs, ts, h := Sort(from.members), Sort(to.members), Height(from);
      && Bounded(fs, h)
      && GenerateMergePatch(Some(from), Some(to))
         == if MergeDiff(fs, ts, h) == [] then None else Some(Object(MergeDiff(fs, ts, h)))
  {
    SortKeepsHeight(from.members);
    hide Sort, MergeDiff;
  }

  /** The second tree itself is the patch unless both are objects. */
  lemma GenerateWhole(from: Json, to: Json)
    requires WellNamed(to) && (!from.Object? || !to.Object?)
    ensures GenerateMergePatch(Some(from), Some(to)) == Some(to) && Patchable(to)
    ensures MergeVal(Some(Meaning(from)), to) == Meaning(to) <==> Reaches(from, to)
  {
    if to.Object? { MergeOntoNone(Some(Meaning(from)), to); } else { WellNamedPatchable(to); }
  }

  lemma PatchOfMembers(m: map<string, Val>, ps: seq<Entry<Json>>)
    ensures MergeVal(Some(VObject(m)), Object(ps)) == VObject(MergeFold(m, ps))
    ensures ps == [] ==> MergeFold(m, ps) == m
    ensures Patchable(Object(ps)) <==> forall e | e in ps :: Patchable(e.item)
  {
  }

  ghost predicate MergeReady(es: seq<Entry<Json>>) {
    StrictlyOrdered(es) && WellNamedMembers(es)
  }

  lemma SortedReady(v: Json)
    requires v.Object? && WellNamed(v)
    ensures MergeReady(Sort(v.members)) && Meaning(v) == VObject(Fields(Sort(v.members)))
  {
    SortKeepsFields(v.members);
    SortKeepsMembers(v.members);
  }

  lemma ReadyTail(es: seq<Entry<Json>>)
    requires es != [] && MergeReady(es)
    ensures MergeReady(es[1..]) && WellNamed(es[0].item) && DistinctNames(es)
  {
    hide WellNamed, CaseOrder, LowerName;
    StrictlyOrderedTail(es);
    WellNamedTail(es);
  }

  lemma MemberDiffIs(f: Entry<Json>, t: Entry<Json>, h: nat)
    requires Height(f.item) < h
    ensures var r := Comparison(f.item, t.item);
      MemberDiff(f, t, h) ==
      if r.code == 0 then []
      else match GenerateMergePatch(Some(r.a), Some(r.b)) case None => [] case Some(p) => [Entry(t.name, p)]
  {
    CompareKeepsHeight(f.item, t.item);
    hide Comparison, GenerateMergePatch, Height;
  }

  lemma NothingFolded(v: Option<Val>, k: string)
    ensures FoldAt(v, [], k) == v
  {
  }

  lemma {:induction false} MemberDiffExact(f: Entry<Json>, t: Entry<Json>, h: nat)
    requires Height(f.item) < h && WellNamed(f.item) && WellNamed(t.item)
    ensures var m, k := MemberDiff(f, t, h), LowerName(t.name);
      && (forall e :: e in m ==> Patchable(e.item))
      && (m == [] <==> Meaning(f.item) == Meaning(t.item))
      && (FoldAt(Some(Meaning(f.item)), m, k) == Some(Meaning(t.item)) <==>
          Meaning(f.item) == Meaning(t.item) || (!t.item.Null? && Reaches(f.item, t.item)))
    decreases h, 1, 0
  {
    hide *;
    var r := Comparison(f.item, t.item);
    CompareDecidesMeaning(f.item, t.item);
    MemberDiffIs(f, t, h);
    if r.code != 0 {
      CompareKeepsHeight(f.item, t.item);
      CompareRearranges(f.item, t.item);
      RearrangedMeans(f.item, r.a);
      RearrangedMeans(t.item, r.b);
      ReachesRearranged(f.item, t.item, r.a, r.b);
      GenerateExact(r.a, r.b);
      var p := GenerateMergePatch(Some(r.a), Some(r.b)).value;
      FoldOne(Some(Meaning(f.item)), Entry(t.name, p));
    } else {
      NothingFolded(Some(Meaning(f.item)), LowerName(t.name));
    }
  }

  lemma FoldOne(v: Option<Val>, e: Entry<Json>)
    ensures FoldAt(v, [e], LowerName(e.name)) == if e.item.Null? then None else Some(MergeVal(v, e.item))
  {
    assert [e][1..] == [];
  }

  lemma {:induction false} DiffPatchable(fs: seq<Entry<Json>>, ts: seq<Entry<Json>>, h: nat)
    requires Bounded(fs, h) && MergeReady(fs) && MergeReady(ts)
    ensures forall e :: e in MergeDiff(fs, ts, h) ==> Patchable(e.item)
    decreases h, 2, |fs| + |ts|
  {
    hide WellNamed, MergeReady, MemberDiff, LowerName, FoldAt, Reaches, Meaning;
    if fs != [] { ReadyTail(fs); }
    if ts != [] { ReadyTail(ts); WellNamedPatchable(ts[0].item); }
    if fs != [] || ts != [] {
      var order := if fs == [] then 1 else if ts == [] then -1 else ByteOrder(fs[0].name, ts[0].name);
      DiffPatchable(if order <= 0 then fs[1..] else fs, if order >= 0 then ts[1..] else ts, h);
      if order == 0 { MemberDiffExact(fs[0], ts[0], h); }
      NullPatchable();
    }
  }

  lemma NullPatchable()
    ensures Patchable(Null)
  {
  }

  /** Nothing is generated exactly for the same names, byte for byte, with equal values. */
  lemma {:induction false} DiffEmpty(fs: seq<Entry<Json>>, ts: seq<Entry<Json>>, h: nat)
    requires Bounded(fs, h) && MergeReady(fs) && MergeReady(ts)
    ensures MergeDiff(fs, ts, h) == [] <==> NamesOf(fs) == NamesOf(ts) && Fields(fs) == Fields(ts)
    decreases h, 2, |fs| + |ts|
  {
    if fs == [] || ts == [] {
      if fs != [] || ts != [] { assert |NamesOf(fs)| != |NamesOf(ts)|; }
    } else {
      ReadyTail(fs);
      ReadyTail(ts);
      NamesHead(fs, ts);
      ByteOrderZero(fs[0].name, ts[0].name);
      if fs[0].name == ts[0].name {
        assert MergeDiff(fs, ts, h) == MemberDiff(fs[0], ts[0], h) + MergeDiff(fs[1..], ts[1..], h);
        FieldsAgree(fs, ts);
        hide *;
        DiffEmpty(fs[1..], ts[1..], h);
        MemberDiffExact(fs[0], ts[0], h);
      }
    }
  }

  lemma NamesHead<T>(fs: seq<Entry<T>>, ts: seq<Entry<T>>)
    requires fs != [] && ts != []
    ensures NamesOf(fs) == NamesOf(ts) <==> fs[0].name == ts[0].name && NamesOf(fs[1..]) == NamesOf(ts[1..])
  {
    assert NamesOf(fs) == [fs[0].name] + NamesOf(fs[1..]) && NamesOf(ts) == [ts[0].name] + NamesOf(ts[1..]);
  }

  lemma FieldsAgree(fs: seq<Entry<Json>>, ts: seq<Entry<Json>>)
    requires fs != [] && ts != [] && MergeReady(fs) && MergeReady(ts) && fs[0].name == ts[0].name
    ensures Fields(fs) == Fields(ts) <==> Meaning(fs[0].item) == Meaning(ts[0].item) && Fields(fs[1..]) == Fields(ts[1..])
  {
    CaseOrderZero(fs[0].name, ts[0].name);
    HeadsDecide(fs, ts);
  }

  lemma {:induction false} DiffReaches(fs: seq<Entry<Json>>, ts: seq<Entry<Json>>, h: nat)
    requires Bounded(fs, h) && MergeReady(fs) && MergeReady(ts)
    ensures MergeFold(Fields(fs), MergeDiff(fs, ts, h)) == Fields(ts) <==>
            forall j :: 0 <= j < |ts| ==> MemberReaches(fs, ts[j], NamesOf(ts))
    decreases h, 3
  {
    hide *;
    var r := MergeFold(Fields(fs), MergeDiff(fs, ts, h));
    forall j | 0 <= j < |ts|
      ensures SameAt(r, Fields(ts), LowerName(ts[j].name)) <==> MemberReaches(fs, ts[j], NamesOf(ts))
    {
      FieldOfFold(Fields(fs), MergeDiff(fs, ts, h), LowerName(ts[j].name));
      ReadyField(ts, j);
      MemberMerged(fs, ts, j, h);
      SameAtIs(r, Fields(ts), LowerName(ts[j].name));
    }
    forall k | k !in Fields(ts) ensures SameAt(r, Fields(ts), k) {
      FieldOfFold(Fields(fs), MergeDiff(fs, ts, h), k);
      NameMissing(fs, ts, k, h);
      SameAtIs(r, Fields(ts), k);
    }
    forall k | k in Fields(ts) ensures exists j :: 0 <= j < |ts| && LowerName(ts[j].name) == k {
      ReadyName(ts, k);
    }
    SameEverywhere(r, Fields(ts));
  }

  ghost predicate SameAt(m: map<string, Val>, n: map<string, Val>, k: string) {
    Field(m, k) == Field(n, k)
  }

  lemma SameAtIs(m: map<string, Val>, n: map<string, Val>, k: string)
    ensures SameAt(m, n, k) <==> Field(m, k) == Field(n, k)
    ensures k in n <==> Field(n, k) != None
  {
  }

  lemma SameEverywhere(m: map<string, Val>, n: map<string, Val>)
    ensures m == n <==> forall k :: SameAt(m, n, k)
  {
    if forall k :: SameAt(m, n, k) {
      forall k ensures k in m <==> k in n { assert SameAt(m, n, k); }
      forall k | k in m ensures m[k] == n[k] { assert SameAt(m, n, k); }
      assert m == n;
    }
  }

  lemma ReadyField(es: seq<Entry<Json>>, j: nat)
    requires MergeReady(es) && j < |es|
    ensures Field(Fields(es), LowerName(es[j].name)) == Some(Meaning(es[j].item))
  {
    assert DistinctNames(es);
    hide LowerName, Meaning, Fields, CaseOrder;
    FieldsOfDistinct(es);
    assert Holds(Fields(es), es[j]);
  }

  lemma ReadyName(es: seq<Entry<Json>>, k: string)
    requires k in Fields(es)
    ensures exists j :: 0 <= j < |es| && LowerName(es[j].name) == k
  {
    FieldsHaveNames(es);
    hide Fields, LowerName;
    assert HasName(es, k);
  }

  /** A name the second object does not have is gone. */
  lemma NameMissing(fs: seq<Entry<Json>>, ts: seq<Entry<Json>>, k: string, h: nat)
    requires Bounded(fs, h) && MergeReady(fs) && MergeReady(ts) && k !in Fields(ts)
    ensures FoldAt(Field(Fields(fs), k), MergeDiff(fs, ts, h), k) == None
  {
    FieldsOfDistinct(ts);
    FieldsHaveNames(fs);
    forall e | e in ts ensures LowerName(e.name) != k {
      var j :| 0 <= j < |ts| && ts[j] == e;
      assert Holds(Fields(ts), ts[j]);
    }
    hide MergeDiff, Fields, Meaning, FoldAt;
    if k in Fields(fs) {
      assert HasName(fs, k);
      var i :| 0 <= i < |fs| && LowerName(fs[i].name) == k;
      DiffGone(fs, ts, h, i, Field(Fields(fs), k));
    } else {
      FieldsOfDistinct(fs);
      forall e | e in fs ensures LowerName(e.name) != k {
        var j :| 0 <= j < |fs| && fs[j] == e;
        assert Holds(Fields(fs), fs[j]);
      }
      DiffAbsent(fs, ts, h, k, None);
    }
  }

  /** What is left under the name of a member of the second object. */
  lemma {:induction false} MemberMerged(fs: seq<Entry<Json>>, ts: seq<Entry<Json>>, j: nat, h: nat)
    requires Bounded(fs, h) && MergeReady(fs) && MergeReady(ts) && j < |ts|
    ensures var k := LowerName(ts[j].name);
      FoldAt(Field(Fields(fs), k), MergeDiff(fs, ts, h), k) == Some(Meaning(ts[j].item)) <==> MemberReaches(fs, ts[j], NamesOf(ts))
    decreases h, 2
  {
    var t, k := ts[j], LowerName(ts[j].name);
    var i := FindName(fs, t.name);
    FieldsLookup(fs, t.name);
    assert t in ts;
    MergeOntoNone(None, t.item);
    hide MergeDiff, Fields, Meaning, FoldAt, Settable, NamesOf, MergeOnto, Meet;
    if i == |fs| {
      FindMisses(fs, t.name);
      DiffNew(fs, ts, h, j, None);
    } else {
      assert fs[i] in fs;
      DiffBoth(fs, ts, h, i, j, Some(Meaning(fs[i].item)));
      MemberDiffExact(fs[i], t, h);
    }
  }

  lemma FindMisses<T>(es: seq<Entry<T>>, name: string)
    requires FindName(es, name) == |es|
    ensures Lacks(es, LowerName(name))
  {
  }

  /** Generating gives null exactly for two objects with the same names, byte for byte, that compare
      equal. Merging any other generated patch into a tree that means the same as the first gives
      the second, up to member order, exactly when the first reaches it. */
  lemma MergePatchReachesTarget(doc: Json, from: Json, to: Json)
    requires WellNamed(doc) && WellNamed(from) && WellNamed(to) && Meaning(doc) == Meaning(from)
    ensures var p := GenerateMergePatch(Some(from), Some(to));
            var r := if p.None? then Some(doc) else MergePatch(Some(doc), p);
            && (p.None? <==> from.Object? && to.Object? && NamesOf(Sort(from.members)) == NamesOf(Sort(to.members))
                             && Comparison(from, to).code == 0)
            && r.Some? && (Comparison(r.value, to).code == 0 <==> Reaches(from, to))
  {
    CompareDecidesMeaning(from, to);
    CompareDecidesMeaning(doc, to);
    GenerateExact(from, to);
    var p := GenerateMergePatch(Some(from), Some(to));
    hide GenerateMergePatch, Comparison, Merged, WellNamed, Reaches, Meaning, NamesOf, Sort;
    if p.Some? {
      MergeIsFold(Some(doc), p.value);
      CompareDecidesMeaning(Merged(Some(doc), p.value), to);
    }
  }

  // ----- names on which the two orders agree

  /** Objects reached through objects have their names in `ns`. */
  ghost predicate NamesIn(v: Json, ns: iset<string>) {
    v.Object? ==> NamesInAll(v.members, ns)
  }

  ghost predicate NamesInAll(es: seq<Entry<Json>>, ns: iset<string>) {
    forall e | e in es :: e.name in ns && NamesIn(e.item, ns)
  }

  /** On these names the order of `strcmp` is the order the lists are sorted in. */
  ghost predicate OrdersAgree(ns: iset<string>) {
    forall a, b | a in ns && b in ns :: SameSign(ByteOrder(a, b), CaseOrder(a, b))
  }

  ghost predicate SameSign(x: int, y: int) {
    (x < 0 <==> y < 0) && (x == 0 <==> y == 0)
  }

  ghost function LowerCaseNames(): iset<string> {
    iset n: string | LowerName(n) == n
  }

  /** They do on names without upper-case letters. */
  lemma LowerCaseAgrees()
    ensures OrdersAgree(LowerCaseNames())
  {
    forall a, b | a in LowerCaseNames() && b in LowerCaseNames()
      ensures SameSign(ByteOrder(a, b), CaseOrder(a, b))
    {
      ByteOrderOfLower(a, b);
    }
  }

  lemma {:induction false} ByteOrderOfLower(a: string, b: string)
    requires LowerName(a) == a && LowerName(b) == b
    ensures ByteOrder(a, b) == CaseOrder(a, b)
  {
    if a != [] && b != [] {
      LowerNameHead(a);
      LowerNameHead(b);
      ByteOrderOfLower(a[1..], b[1..]);
    }
  }

  lemma SignsAt(ns: iset<string>, a: string, b: string)
    requires OrdersAgree(ns) && a in ns && b in ns
    ensures SameSign(ByteOrder(a, b), CaseOrder(a, b))
  {
  }

  /** A merge patch can express the step from `f` to `t`: nulls in `t` are members `f` has
      with an equal value, or lie inside such a member. */
  ghost predicate Expressible(f: Val, t: Val)
    decreases t
  {
    t.VObject? ==>
      if !f.VObject? then NullFree(t)
      else forall k :: k in t.fields ==>
             || (k in f.fields && f.fields[k] == t.fields[k])
             || (t.fields[k] != VNull
                 && if k in f.fields then Expressible(f.fields[k], t.fields[k]) else NullFree(t.fields[k]))
  }

  /** On such names the walk meets every shared name in one step. */
  lemma {:induction false} MeetAgreeing(fs: seq<Entry<Json>>, ts: seq<Entry<Json>>, i: nat, j: nat, ns: iset<string>)
    requires OrdersAgree(ns) && StrictlyOrdered(fs) && StrictlyOrdered(ts) && NamesInAll(fs, ns) && NamesInAll(ts, ns)
    requires i < |fs| && j < |ts| && LowerName(fs[i].name) == LowerName(ts[j].name)
    ensures Meet(NamesOf(fs), NamesOf(ts), LowerName(ts[j].name)) == Together
    decreases |fs| + |ts|
  {
    hide *;
    var x, y, k := fs[0].name, ts[0].name, LowerName(ts[j].name);
    MeetStep(fs, ts, k);
    TailIn(fs, i, ns);
    TailIn(ts, j, ns);
    SignsAt(ns, x, y);
    CaseOrderZero(x, y);
    CaseOrderZero(fs[i].name, ts[j].name);
    CaseOrderReversed(x, y);
    CaseOrderReversed(fs[i].name, ts[j].name);
    if CaseOrder(x, y) < 0 {
      if i == 0 { CaseOrderTransitive(x, y, ts[j].name); assert false; }
      MeetAgreeing(fs[1..], ts, i - 1, j, ns);
    } else if CaseOrder(x, y) > 0 {
      if j == 0 { CaseOrderTransitive(y, x, fs[i].name); assert false; }
      MeetAgreeing(fs, ts[1..], i, j - 1, ns);
    } else if LowerName(x) != k {
      MeetAgreeing(fs[1..], ts[1..], i - 1, j - 1, ns);
    }
  }

  lemma TailIn(es: seq<Entry<Json>>, i: nat, ns: iset<string>)
    requires StrictlyOrdered(es) && NamesInAll(es, ns) && i < |es|
    ensures StrictlyOrdered(es[1..]) && NamesInAll(es[1..], ns) && es[0].name in ns
    ensures CaseOrder(es[0].name, es[i].name) <= 0
    ensures i > 0 ==> LowerName(es[0].name) != LowerName(es[i].name) && es[1..][i - 1] == es[i]
  {
    hide NamesIn, CaseOrder, LowerName;
    assert es[0] in es;
    CaseOrderReversed(es[0].name, es[0].name);
    CaseOrderZero(es[0].name, es[i].name);
  }

  /** Objects that mean the same are then spelled the same. */
  lemma {:induction false} AgreeingSpelling(fs: seq<Entry<Json>>, ts: seq<Entry<Json>>, ns: iset<string>)
    requires OrdersAgree(ns) && MergeReady(fs) && MergeReady(ts) && NamesInAll(fs, ns) && NamesInAll(ts, ns)
    requires Fields(fs) == Fields(ts)
    ensures NamesOf(fs) == NamesOf(ts)
  {
    if fs != [] && ts != [] {
      assert fs[0] in fs && ts[0] in ts;
      SignsAt(ns, fs[0].name, ts[0].name);
      ByteOrderZero(fs[0].name, ts[0].name);
      HeadsDecide(fs, ts);
      hide Fields, Meaning, LowerName, CaseOrder, ByteOrder, OrdersAgree, NamesIn;
      ReadyTail(fs);
      ReadyTail(ts);
      AgreeingSpelling(fs[1..], ts[1..], ns);
      NamesHead(fs, ts);
    } else {
      if fs != [] { OrderedFields(fs); }
      if ts != [] { OrderedFields(ts); }
    }
  }

  lemma SortedNamesIn(v: Json, ns: iset<string>)
    requires v.Object? && NamesIn(v, ns)
    ensures NamesInAll(Sort(v.members), ns)
  {
    SortedIn(v.members);
    hide NamesIn, Sort;
    forall e | e in Sort(v.members) ensures e.name in ns && NamesIn(e.item, ns) {
      var j :| 0 <= j < |Sort(v.members)| && Sort(v.members)[j] == e;
      assert e in v.members;
    }
  }

  /** On such names reaching is expressibility, a condition on the two meanings. */
  lemma {:induction false} AgreeingReaches(from: Json, to: Json, ns: iset<string>)
    requires OrdersAgree(ns) && WellNamed(from) && WellNamed(to) && NamesIn(from, ns) && NamesIn(to, ns)
    ensures Reaches(from, to) <==> Expressible(Meaning(from), Meaning(to))
    decreases Height(to), 0
  {
    if from.Object? && to.Object? {
      var fs, ts := Sort(from.members), Sort(to.members);
      SortedReady(from);
      SortedReady(to);
      SortedNamesIn(from, ns);
      SortedNamesIn(to, ns);
      SortKeepsHeight(to.members);
      ReachesSorted(from, to);
      assert DistinctNames(ts) && Height(to) == 1 + MembersHeight(to.members);
      FieldsOfDistinct(ts);
      hide Sort, Reaches, MemberReaches, Meaning, Fields, WellNamed, NamesIn, NamesOf, MergeReady, Height, LowerName, OrdersAgree;
      forall j | 0 <= j < |ts|
        ensures Holds(Fields(ts), ts[j])
        ensures MemberReaches(fs, ts[j], NamesOf(ts)) <==> KeyExpressible(Fields(fs), Fields(ts), LowerName(ts[j].name))
      {
        assert ts[j] in ts;
        AgreeingMember(fs, ts, j, ns);
      }
      ExpressibleKeys(Fields(fs), Fields(ts));
      if forall j :: 0 <= j < |ts| ==> MemberReaches(fs, ts[j], NamesOf(ts)) {
        forall k | k in Fields(ts) ensures KeyExpressible(Fields(fs), Fields(ts), k) {
          assert HasName(ts, k);
        }
      }
    }
  }

  ghost predicate KeyExpressible(fm: map<string, Val>, tm: map<string, Val>, k: string)
    requires k in tm
  {
    || (k in fm && fm[k] == tm[k])
    || (tm[k] != VNull && if k in fm then Expressible(fm[k], tm[k]) else NullFree(tm[k]))
  }

  lemma ExpressibleKeys(fm: map<string, Val>, tm: map<string, Val>)
    ensures Expressible(VObject(fm), VObject(tm)) <==> forall k :: k in tm ==> KeyExpressible(fm, tm, k)
  {
  }

  lemma {:induction false} AgreeingMember(fs: seq<Entry<Json>>, ts: seq<Entry<Json>>, j: nat, ns: iset<string>)
    requires OrdersAgree(ns) && MergeReady(fs) && MergeReady(ts) && NamesInAll(fs, ns) && NamesInAll(ts, ns) && j < |ts|
    ensures Holds(Fields(ts), ts[j])
    ensures MemberReaches(fs, ts[j], NamesOf(ts)) <==> KeyExpressible(Fields(fs), Fields(ts), LowerName(ts[j].name))
    decreases Height(ts[j].item), 1
  {
    var t := ts[j];
    var i := FindName(fs, t.name);
    FieldsLookup(fs, t.name);
    FieldsOfDistinct(ts);
    assert t in ts;
    NullMeaning(t.item);
    hide Meaning, Fields, LowerName, NamesOf, Expressible, NullFree, Meet, Height, WellNamed;
    assert Holds(Fields(ts), t);
    if i < |fs| {
      assert fs[i] in fs;
      MeetAgreeing(fs, ts, i, j, ns);
      AgreeingReaches(fs[i].item, t.item, ns);
    }
  }

  /** Then null is generated exactly for two objects that compare equal, and merging reaches the
      second tree exactly when the step is expressible. */
  lemma AgreeingNamesReachTarget(doc: Json, from: Json, to: Json, ns: iset<string>)
    requires WellNamed(doc) && WellNamed(from) && WellNamed(to) && Meaning(doc) == Meaning(from)
    requires OrdersAgree(ns) && NamesIn(from, ns) && NamesIn(to, ns)
    ensures var p := GenerateMergePatch(Some(from), Some(to));
            && (p.None? <==> from.Object? && to.Object? && Comparison(from, to).code == 0)
            && (p.Some? ==>
                  var r := MergePatch(Some(doc), p);
                  && r.Some?
                  && (Comparison(r.value, to).code == 0 <==> Expressible(Meaning(from), Meaning(to))))
  {
    MergePatchReachesTarget(doc, from, to);
    AgreeingReaches(from, to, ns);
    CompareDecidesMeaning(from, to);
    if from.Object? && to.Object? && Comparison(from, to).code == 0 {
      SortedReady(from);
      SortedReady(to);
      SortedNamesIn(from, ns);
      SortedNamesIn(to, ns);
      hide *;
      AgreeingSpelling(Sort(from.members), Sort(to.members), ns);
    }
  }

  /** In particular for names without upper-case letters. */
  lemma LowerCaseReachesTarget(doc: Json, from: Json, to: Json)
    requires WellNamed(doc) && WellNamed(from) && WellNamed(to) && Meaning(doc) == Meaning(from)
    requires NamesIn(from, LowerCaseNames()) && NamesIn(to, LowerCaseNames())
    ensures var p := GenerateMergePatch(Some(from), Some(to));
            && (p.None? <==> from.Object? && to.Object? && Comparison(from, to).code == 0)
            && (p.Some? ==>
                  var r := MergePatch(Some(doc), p);
                  r.Some? && (Comparison(r.value, to).code == 0 <==> Expressible(Meaning(from), Meaning(to))))
  {
    LowerCaseAgrees();
    hide *;
    AgreeingNamesReachTarget(doc, from, to, LowerCaseNames());
  }

  /** Two lists with the same names, byte for byte, are walked in step whatever the letters. */
  lemma {:induction false} MeetSpelledAlike(names: seq<string>, key: string)
    requires exists i :: 0 <= i < |names| && LowerName(names[i]) == key
    ensures Meet(names, names, key) == Together
  {
    ByteOrderZero(names[0], names[0]);
    if LowerName(names[0]) != key {
      var i :| 0 <= i < |names| && LowerName(names[i]) == key;
      assert names[1..][i - 1] == names[i];
      MeetSpelledAlike(names[1..], key);
    }
  }

  /** So upper-case letters do no harm as long as both sides are spelled alike: here the two orders
      disagree on "Z" and "a". */
  lemma MixedCaseReaches(from: Json, to: Json)
    requires from == Object([Entry("Z", Number(1)), Entry("a", Number(2))])
    requires to == Object([Entry("Z", Number(3)), Entry("a", Number(4))])
    ensures WellNamed(from) && WellNamed(to) && Reaches(from, to)
    ensures ByteOrder("Z", "a") < 0 < CaseOrder("Z", "a")
  {
    hide *;
    MixedCaseOrders();
    SortTwo(from.members);
    SortTwo(to.members);
    TwoNumbers(from.members);
    TwoNumbers(to.members);
    var fs, ts := Sort(from.members), Sort(to.members);
    SameNamesListed(fs, ts);
    ReachesMembers(from, to);
    NumberReaches(fs, ts, 0);
    NumberReaches(fs, ts, 1);
    assert forall t :: t in to.members ==> t == ts[0] || t == ts[1];
  }

  lemma MixedCaseOrders()
    ensures ByteOrder("Z", "a") < 0 < CaseOrder("Z", "a") && LowerName("Z") != LowerName("a")
  {
    CaseOrderZero("Z", "a");
  }

  lemma TwoNumbers(es: seq<Entry<Json>>)
    requires |es| == 2 && es[0].item.Number? && es[1].item.Number? && LowerName(es[0].name) != LowerName(es[1].name)
    ensures WellNamed(Object(es))
  {
    hide LowerName;
  }

  lemma SameNamesListed<T>(fs: seq<Entry<T>>, ts: seq<Entry<T>>)
    requires |fs| == |ts| == 2 && fs[0].name == ts[0].name && fs[1].name == ts[1].name
    ensures NamesOf(fs) == NamesOf(ts)
  {
  }

  lemma NumberReaches(fs: seq<Entry<Json>>, ts: seq<Entry<Json>>, j: nat)
    requires j < |fs| && NamesOf(fs) == NamesOf(ts) && j < |ts| && ts[j].item.Number?
    ensures MemberReaches(fs, ts[j], NamesOf(ts))
  {
    assert NamesOf(ts)[j] == ts[j].name && NamesOf(fs)[j] == fs[j].name;
    MeetSpelledAlike(NamesOf(ts), LowerName(ts[j].name));
    hide Meet, NamesOf, LowerName;
    assert FindName(fs, ts[j].name) <= j;
  }

  /** Without a first tree the patch is the second tree, and its nulls delete. */
  lemma MergePatchFromNothing(to: Json)
    requires WellNamed(to)
    ensures var p := GenerateMergePatch(None, Some(to));
            && p == Some(to)
            && (Comparison(MergePatch(None, p).value, to).code == 0 <==> NullFree(Meaning(to)))
  {
    MergeIsRfc(None, to);
    MergeOntoOther(None, Meaning(to));
    CompareDecidesMeaning(Merged(None, to), to);
  }

  lemma UpperCaseGenerated(fs: seq<Entry<Json>>, ts: seq<Entry<Json>>, h: nat)
    requires fs == [Entry("a", Number(1))] && ts == [Entry("A", Number(1))] && h > 0
    ensures MergeDiff(fs, ts, h) == [Entry("A", Number(1)), Entry("a", Null)]
  {
    assert ts[1..] == [] && fs[1..] == [];
    assert MergeDiff([], [], h) == [];
    assert MergeDiff(fs, [], h) == [Entry("a", Null)] + MergeDiff(fs[1..], [], h);
    assert ByteOrder("a", "A") == 1;
    assert MergeDiff(fs, ts, h) == [ts[0]] + MergeDiff(fs, ts[1..], h);
  }

  lemma UpperCaseMerged(fs: seq<Entry<Json>>, ts: seq<Entry<Json>>)
    requires fs == [Entry("a", Number(1))] && ts == [Entry("A", Number(1))]
    ensures MergeMembers(fs, [Entry("A", Number(1)), Entry("a", Null)]) == []
  {
    var ps := [Entry("A", Number(1)), Entry("a", Null)];
    assert LowerName("a") == LowerName("A");
    assert FindName(fs, "A") == 0 && FindName(ts, "a") == 0;
    assert MergeMember(fs, ps[0]) == ts;
    assert MergeMember(ts, ps[1]) == [];
    assert ps[1..] == [ps[1]] && ps[1..][1..] == [];
    hide MergeMember;
    assert MergeMembers([], []) == [];
    assert MergeMembers(ts, ps[1..]) == MergeMembers([], ps[1..][1..]);
    assert MergeMembers(fs, ps) == MergeMembers(ts, ps[1..]);
  }

  /** With upper-case letters the two orders disagree: the patch from {"a": 1} to {"A": 1}
      sets "A" and then deletes it again. */
  lemma UpperCaseFails(from: Json, to: Json)
    requires from == Object([Entry("a", Number(1))]) && to == Object([Entry("A", Number(1))])
    ensures MergePatch(Some(from), GenerateMergePatch(Some(from), Some(to))) == Some(Object([]))
  {
    hide MergeDiff, MergeMembers, Height;
    SortKeepsHeight(from.members);
    UpperCaseGenerated(from.members, to.members, 1 + MembersHeight(from.members));
    assert Height(from) == 1 + MembersHeight(from.members) by { HeightOfObject(from.members); }
    UpperCaseMerged(from.members, to.members);
  }

  lemma HeightOfObject(ms: seq<Entry<Json>>)
    ensures Height(Object(ms)) == 1 + MembersHeight(ms)
  {
  }
}
