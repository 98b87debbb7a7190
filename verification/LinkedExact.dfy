/** When the generated patches can be applied to the very tree they were generated from without going through an
    old link: the exact condition, for all trees and all old links. */
module LinkedExact {
  import opened Json
  import opened Sorting
  import opened Numerals
  import opened Compare
  import opened Pointer
  import opened Patch
  import opened PatchMeaning
  import opened DiffProof
  import opened DiffExact
  import opened OldLinks
  import opened LinkedDiff
  import LinkedPatch

  // ----- the condition

  /** A single "replace" is generated for these two. */
  predicate Replaced(f: Json, to: Json) {
    !SameKind(f, to) || (f.Number? && f.n != to.n) || (f.String? && f.s != to.s)
  }

  /** The name of the member that comes first and holds an old link once the object is sorted. */
  ghost function OldHead(ms: seq<Entry<Linked>>, stale: bool): Option<string> {
    if ms != [] && Sorted(ms, stale) && Sort(ms) != [] then Some(Sort(ms)[0].name) else None
  }

  /** A member is removed, or replaced as a whole, on the way to an object with members `tl`. */
  ghost predicate Moved(e: Entry<Linked>, tl: seq<Entry<Json>>) {
    var i := FindName(tl, e.name);
    i == |tl| || Replaced(Erase(e.item), tl[i].item)
  }

  ghost predicate MemberDisplaces(head: Option<string>, e: Entry<Linked>, tl: seq<Entry<Json>>)
    decreases e.item, 2
  {
    || (head.Some? && LowerName(head.value) == LowerName(e.name) && Moved(e, tl))
    || (FindName(tl, e.name) < |tl| && Displaces(e.item, tl[FindName(tl, e.name)].item))
  }

  /** In some object that both trees have in the same place, the member that holds an old link once
      the object is sorted is removed or replaced. */
  ghost predicate Displaces(t: Linked, to: Json)
    decreases t, 1
  {
    match t
    case Leaf(_) => false
    case Items(xs) => to.Array? && exists i :: 0 <= i < |xs| && i < |to.items| && Displaces(xs[i], to.items[i])
    case Members(ms, stale) =>
      && to.Object?
      && var fs, tl := Sort(ms), Sort(to.members);
      exists j :: 0 <= j < |fs| && fs[j] in ms && MemberDisplaces(OldHead(ms, stale), fs[j], tl)
  }

  // ----- lists of operations

  lemma {:induction false} RunAppend(doc: Linked, a: seq<Json>, b: seq<Json>)
    ensures LinkedPatch.ApplyAll(doc, a + b) ==
      match LinkedPatch.ApplyAll(doc, a)
      case Ran(0, d) => LinkedPatch.ApplyAll(d, b)
      case r => r
    decreases |a|
  {
    hide LinkedPatch.ApplyPatch;
    if a == [] {
      assert a + b == b;
    } else {
      assert (a + b)[1..] == a[1..] + b && (a + b)[0] == a[0];
      var r := LinkedPatch.ApplyPatch(doc, a[0]);
      if r.Ran? && r.code == 0 { RunAppend(r.doc, a[1..], b); }
    }
  }

  lemma {:induction false} RanErases(doc: Linked, ps: seq<Json>)
    requires LinkedPatch.ApplyAll(doc, ps).Ran?
    ensures Patch.ApplyAll(Erase(doc), ps) == Applied(LinkedPatch.ApplyAll(doc, ps).code, Erase(LinkedPatch.ApplyAll(doc, ps).doc))
    decreases |ps|
  {
    if ps != [] {
      LinkedPatch.TanglesExactly(doc, ps[0]);
      hide LinkedPatch.ApplyPatch, Patch.ApplyPatch, LinkedPatch.Tangles, Erase;
      var r := LinkedPatch.ApplyPatch(doc, ps[0]);
      if r.code == 0 { RanErases(r.doc, ps[1..]); }
    }
  }

  /** The value at `ts` after a list that succeeded. */
  lemma RanValue(doc: Linked, ts: seq<Token>, ps: seq<Json>, w: Val)
    requires HasPath(Meaning(Erase(doc)), ts) && Changed(Erase(doc), ts, w, Patch.ApplyAll(Erase(doc), ps))
    requires LinkedPatch.ApplyAll(doc, ps).Ran?
    ensures HasValue(Erase(LinkedPatch.ApplyAll(doc, ps).doc), ts, w)
  {
    hide *;
    RanErases(doc, ps);
    ChangedHas(Erase(doc), ts, w, Patch.ApplyAll(Erase(doc), ps));
  }

  lemma EndsThen(doc: Linked, ts: seq<Token>, t: Token, ps: seq<Json>, qs: seq<Json>, x: bool, y: bool)
    requires Ends(doc, LinkedPatch.ApplyAll(doc, ps), ts + [t], x)
    requires !x ==> Ends(LinkedPatch.ApplyAll(doc, ps).doc, LinkedPatch.ApplyAll(LinkedPatch.ApplyAll(doc, ps).doc, qs), ts, y)
    ensures Ends(doc, LinkedPatch.ApplyAll(doc, ps + qs), ts, x || y)
  {
    RunAppend(doc, ps, qs);
    hide LinkedPatch.ApplyAll, SameOutside;
    if !x {
      var d := LinkedPatch.ApplyAll(doc, ps).doc;
      SameInside(doc, d, ts, t);
      if !y { SameTwice(doc, d, LinkedPatch.ApplyAll(d, qs).doc, ts); }
    }
  }

  lemma EndsSame(doc: Linked, ts: seq<Token>, ps: seq<Json>, qs: seq<Json>)
    requires Ends(doc, LinkedPatch.ApplyAll(doc, ps), ts, false)
    requires Ends(LinkedPatch.ApplyAll(doc, ps).doc, LinkedPatch.ApplyAll(LinkedPatch.ApplyAll(doc, ps).doc, qs), ts, false)
    ensures Ends(doc, LinkedPatch.ApplyAll(doc, ps + qs), ts, false)
  {
    RunAppend(doc, ps, qs);
    hide LinkedPatch.ApplyAll, SameOutside;
    var d := LinkedPatch.ApplyAll(doc, ps).doc;
    SameTwice(doc, d, LinkedPatch.ApplyAll(d, qs).doc, ts);
  }

  lemma EndsNothing(doc: Linked, ts: seq<Token>)
    ensures Ends(doc, LinkedPatch.ApplyAll(doc, []), ts, false)
  {
  }

  // ----- what is expected of the old links below a place

  ghost predicate Expects(doc: Linked, ts: seq<Token>, x: Linked) {
    forall qs: seq<Token>, name: string :: Hit(doc, ts + qs, name) <==> Hit(x, qs, name)
  }

  lemma ExpectsStill(doc: Linked, d: Linked, ts: seq<Token>, t: Token, u: Token, x: Linked)
    requires SameOutside(doc, d, ts + [t]) && !SameToken(t, u) && Expects(doc, ts + [u], x)
    ensures Expects(d, ts + [u], x)
  {
    hide Hit, SameToken;
    forall qs: seq<Token>, name: string ensures Hit(d, ts + [u] + qs, name) <==> Hit(x, qs, name) {
      ThroughAppend(ts, t, ts + [u] + qs);
      assert (ts + [u] + qs)[|ts|] == u;
      assert Hit(doc, ts + [u] + qs, name) <==> Hit(x, qs, name);
    }
  }

  /** Which member of the object at `ts` holds an old link. */
  ghost predicate HeadIs(doc: Linked, ts: seq<Token>, head: Option<string>) {
    forall name :: Hit(doc, ts, name) <==> head.Some? && LowerName(name) == LowerName(head.value)
  }

  lemma HeadStill(doc: Linked, d: Linked, ts: seq<Token>, t: Token, head: Option<string>)
    requires SameOutside(doc, d, ts + [t]) && HeadIs(doc, ts, head)
    ensures HeadIs(d, ts, head)
  {
    NotThroughLonger(ts, t);
    hide Hit, Through, LowerName;
  }

  lemma HitHasStep(doc: Linked, ts: seq<Token>, name: string)
    requires WellNamed(Erase(doc)) && HasPath(Meaning(Erase(doc)), ts) && Hit(doc, ts, name)
    ensures HasStep(Get(Meaning(Erase(doc)), ts), Name(name))
  {
    assert ts + [] == ts;
    hide Resolve, PathText, HasPath, Get, WellNamed, Meaning, Hit, HasStep;
    EditHits(doc, ts, doc, [], name);
    FirstHasStep(NodeAt(doc, Resolve(Erase(doc), PathText(ts)).value), name);
  }

  lemma FirstHasStep(node: Linked, name: string)
    requires Hit(node, [], name)
    ensures HasStep(Meaning(Erase(node)), Name(name))
  {
    EraseFinds(node.members, name);
    FieldsLookup(EraseMembers(node.members), name);
  }

  // ----- arrays

  ghost predicate ItemsDisplace(xs: seq<Linked>, ys: seq<Json>) {
    exists i :: 0 <= i < |xs| && i < |ys| && Displaces(xs[i], ys[i])
  }

  lemma ItemsDisplaceSplit(xs: seq<Linked>, ys: seq<Json>)
    requires xs != [] && ys != []
    ensures ItemsDisplace(xs, ys) <==> Displaces(xs[0], ys[0]) || ItemsDisplace(xs[1..], ys[1..])
  {
    hide Displaces;
    if ItemsDisplace(xs, ys) {
      var i :| 0 <= i < |xs| && i < |ys| && Displaces(xs[i], ys[i]);
      if i > 0 { assert xs[1..][i - 1] == xs[i] && ys[1..][i - 1] == ys[i]; }
    }
    if ItemsDisplace(xs[1..], ys[1..]) {
      var i :| 0 <= i < |xs[1..]| && i < |ys[1..]| && Displaces(xs[1..][i], ys[1..][i]);
      assert xs[i + 1] == xs[1..][i] && ys[i + 1] == ys[1..][i];
    }
  }

  ghost predicate ItemsExpected(doc: Linked, ts: seq<Token>, c: nat, xs: seq<Linked>, ys: seq<Json>) {
    forall j :: 0 <= j < |xs| && j < |ys| ==> Expects(doc, ts + [Index(c + j)], Left(xs[j], ys[j]))
  }

  lemma ItemsExpectedTail(doc: Linked, d: Linked, ts: seq<Token>, c: nat, xs: seq<Linked>, ys: seq<Json>)
    requires xs != [] && ys != [] && ItemsExpected(doc, ts, c, xs, ys) && SameOutside(doc, d, ts + [Index(c)])
    ensures ItemsExpected(d, ts, c + 1, xs[1..], ys[1..])
  {
    hide Expects, SameOutside, Left;
    forall j | 0 <= j < |xs[1..]| && j < |ys[1..]|
      ensures Expects(d, ts + [Index(c + 1 + j)], Left(xs[1..][j], ys[1..][j]))
    {
      assert xs[1..][j] == xs[j + 1] && ys[1..][j] == ys[j + 1];
      assert Expects(doc, ts + [Index(c + (j + 1))], Left(xs[j + 1], ys[j + 1]));
      ExpectsStill(doc, d, ts, Index(c), Index(c + 1 + j), Left(xs[j + 1], ys[j + 1]));
    }
  }

  lemma {:induction false} RemovesEnd(doc: Linked, ts: seq<Token>, s: seq<Val>, c: nat, count: nat)
    requires HasValue(Erase(doc), ts, VArray(s))
    ensures Ends(doc, LinkedPatch.ApplyAll(doc, RemovePatches(PathText(ts), c, count)), ts, false)
    decreases count
  {
    hide *;
    if count == 0 {
      NoRemoves(PathText(ts), c);
      EndsNothing(doc, ts);
    } else {
      var ps := [PatchObject("remove", PathText(ts) + "/" + Encode(Digits(c)), None)];
      var s' := if c < |s| then Without(s, c) else s;
      RemoveFirst(PathText(ts), s, c, count);
      HasValueIs(Erase(doc), ts, VArray(s));
      SplitIndex(ts, c);
      RemoveItemEnds(doc, ts, c);
      RemoveIndex(Erase(doc), ts, s, c);
      EndsRan(doc, ps, ts);
      RanValue(doc, ts, ps, VArray(s'));
      RemovesEnd(LinkedPatch.ApplyAll(doc, ps).doc, ts, s', c + 1, count - 1);
      EndsSame(doc, ts, ps, RemovePatches(PathText(ts), c + 1, count - 1));
    }
  }

  lemma NoRemoves(path: string, c: nat)
    ensures RemovePatches(path, c, 0) == [] && AddPatches(path, []) == []
  {
  }

  lemma SplitIndex(ts: seq<Token>, c: nat)
    ensures PathText(ts + [Index(c)]) == PathText(ts) + "/" + Encode(Digits(c))
    ensures PathText(ts + [Index(c)]) == PathText(ts) + "/" + Digits(c)
    ensures PathText(ts + [End]) == PathText(ts) + "/" + Encode("-")
  {
    SplitPathText(ts, Index(c));
    SplitPathText(ts, End);
    hide PathText, Encode, Digits, SplitPath;
  }

  lemma EndsRan(doc: Linked, ps: seq<Json>, ts: seq<Token>)
    requires Ends(doc, LinkedPatch.ApplyAll(doc, ps), ts, false)
    ensures LinkedPatch.ApplyAll(doc, ps).Ran? && LinkedPatch.ApplyAll(doc, ps).code == 0
    ensures SameOutside(doc, LinkedPatch.ApplyAll(doc, ps).doc, ts)
  {
  }

  lemma {:induction false} AddsEnd(doc: Linked, ts: seq<Token>, s: seq<Val>, ys: seq<Json>)
    requires HasValue(Erase(doc), ts, VArray(s)) && forall y | y in ys :: WellNamed(y)
    ensures Ends(doc, LinkedPatch.ApplyAll(doc, AddPatches(PathText(ts), ys)), ts, false)
    decreases |ys|
  {
    hide *;
    if ys == [] {
      NoRemoves(PathText(ts), 0);
      EndsNothing(doc, ts);
    } else {
      var ps := [PatchObject("add", PathText(ts) + "/" + Encode("-"), Some(ys[0]))];
      AddFirst(PathText(ts), ys);
      HasValueIs(Erase(doc), ts, VArray(s));
      SplitIndex(ts, 0);
      AddItemEnds(doc, ts, ys[0]);
      AppendItem(Erase(doc), ts, s, ys[0]);
      EndsRan(doc, ps, ts);
      RanValue(doc, ts, ps, VArray(s + [Meaning(ys[0])]));
      AddsEnd(LinkedPatch.ApplyAll(doc, ps).doc, ts, s + [Meaning(ys[0])], ys[1..]);
      EndsSame(doc, ts, ps, AddPatches(PathText(ts), ys[1..]));
    }
  }

  lemma AddFirst(path: string, ys: seq<Json>)
    requires ys != []
    ensures AddPatches(path, ys) == [PatchObject("add", path + "/" + Encode("-"), Some(ys[0]))] + AddPatches(path, ys[1..])
  {
    hide PatchObject, Encode;
  }

  // ----- the induction over both trees

  lemma DiffReplaced(path: string, f: Json, to: Json)
    requires Replaced(f, to)
    ensures Diff(path, f, to) == [PatchObject("replace", path, Some(to))]
  {
  }

  lemma DiffNothing(path: string, f: Linked, to: Json)
    requires f.Leaf? && !Replaced(Erase(f), to)
    ensures Diff(path, Erase(f), to) == [] && !Displaces(f, to)
  {
  }

  lemma ReplacedKeeps(f: Linked, to: Json)
    requires Replaced(Erase(f), to)
    ensures !Displaces(f, to)
  {
  }

  /** Applying the patches generated for the value at `ts` tangles exactly if `Displaces` says so. */
  lemma {:induction false} Itself(doc: Linked, ts: seq<Token>, f: Linked, to: Json)
    requires WellNamed(Erase(f)) && WellNamed(to) && HasValue(Erase(doc), ts, Meaning(Erase(f)))
    requires !Replaced(Erase(f), to) && Expects(doc, ts, Left(f, to))
    ensures Ends(doc, LinkedPatch.ApplyAll(doc, Diff(PathText(ts), Erase(f), to)), ts, Displaces(f, to))
    decreases f, 2, 0
  {
    hide *;
    match f {
      case Leaf(_) =>
        DiffNothing(PathText(ts), f, to);
        EndsNothing(doc, ts);
      case Items(xs) =>
        StartItems(doc, ts, f, to);
        ItemsItself(doc, ts, [], xs, to.items);
      case Members(ms, stale) =>
        StartMembers(doc, ts, f, to);
        MembersItself(doc, ts, map[], Sort(ms), Sort(to.members), OldHead(ms, stale), f);
    }
  }

  lemma StartItems(doc: Linked, ts: seq<Token>, f: Linked, to: Json)
    requires f.Items? && WellNamed(Erase(f)) && WellNamed(to) && HasValue(Erase(doc), ts, Meaning(Erase(f)))
    requires !Replaced(Erase(f), to) && Expects(doc, ts, Left(f, to))
    ensures to.Array? && AllNamed(f.items, to.items) && ItemsExpected(doc, ts, 0, f.items, to.items)
    ensures HasValue(Erase(doc), ts, VArray([] + Meanings(EraseItems(f.items))))
    ensures Diff(PathText(ts), Erase(f), to) == DiffItems(PathText(ts), 0, EraseItems(f.items), to.items)
    ensures Displaces(f, to) <==> ItemsDisplace(f.items, to.items)
  {
    ItemsAre(PathText(ts), f, to);
    hide *;
    forall j | 0 <= j < |f.items| && j < |to.items| ensures Expects(doc, ts + [Index(0 + j)], Left(f.items[j], to.items[j])) {
      LeftItemAt(f.items, to.items, j);
      ExpectsItem(doc, ts, LeftItems(f.items, to.items), j);
    }
    ItemsExpectedBy(doc, ts, f.items, to.items);
  }

  lemma ItemsExpectedBy(doc: Linked, ts: seq<Token>, xs: seq<Linked>, ys: seq<Json>)
    requires forall j :: 0 <= j < |xs| && j < |ys| ==> Expects(doc, ts + [Index(0 + j)], Left(xs[j], ys[j]))
    ensures ItemsExpected(doc, ts, 0, xs, ys)
  {
  }

  lemma ItemsAre(path: string, f: Linked, to: Json)
    requires f.Items? && WellNamed(Erase(f)) && WellNamed(to) && !Replaced(Erase(f), to)
    ensures to.Array? && AllNamed(f.items, to.items)
    ensures Meaning(Erase(f)) == VArray([] + Meanings(EraseItems(f.items)))
    ensures Left(f, to) == Items(LeftItems(f.items, to.items))
    ensures Diff(path, Erase(f), to) == DiffItems(path, 0, EraseItems(f.items), to.items)
    ensures Displaces(f, to) <==> ItemsDisplace(f.items, to.items)
  {
    assert [] + Meanings(EraseItems(f.items)) == Meanings(EraseItems(f.items));
    hide Meanings, LeftItems, DiffItems;
    forall x | x in f.items ensures WellNamed(Erase(x)) {
      var i :| 0 <= i < |f.items| && f.items[i] == x;
      assert EraseItems(f.items)[i] in EraseItems(f.items);
    }
  }

  ghost predicate AllNamed(xs: seq<Linked>, ys: seq<Json>) {
    (forall x | x in xs :: WellNamed(Erase(x))) && (forall y | y in ys :: WellNamed(y))
  }

  lemma {:induction false} LeftItemAt(xs: seq<Linked>, ys: seq<Json>, j: nat)
    requires j < |xs| && j < |ys|
    ensures LeftItems(xs, ys)[j] == Left(xs[j], ys[j])
    decreases j
  {
    hide Left;
    if j > 0 { LeftItemAt(xs[1..], ys[1..], j - 1); }
  }

  lemma ExpectsItem(doc: Linked, ts: seq<Token>, ls: seq<Linked>, j: nat)
    requires j < |ls| && Expects(doc, ts, Items(ls))
    ensures Expects(doc, ts + [Index(j)], ls[j])
  {
    forall qs: seq<Token>, name: string ensures Hit(doc, ts + [Index(j)] + qs, name) <==> Hit(ls[j], qs, name) {
      assert ts + [Index(j)] + qs == ts + ([Index(j)] + qs);
      assert ([Index(j)] + qs)[1..] == qs;
      assert Hit(doc, ts + ([Index(j)] + qs), name) <==> Hit(Items(ls), [Index(j)] + qs, name);
    }
  }

  lemma {:induction false} ItemsItself(doc: Linked, ts: seq<Token>, done: seq<Val>, xs: seq<Linked>, ys: seq<Json>)
    requires AllNamed(xs, ys) && ItemsExpected(doc, ts, |done|, xs, ys)
    requires HasValue(Erase(doc), ts, VArray(done + Meanings(EraseItems(xs))))
    ensures Ends(doc, LinkedPatch.ApplyAll(doc, DiffItems(PathText(ts), |done|, EraseItems(xs), ys)), ts, ItemsDisplace(xs, ys))
    decreases xs, 0, 0
  {
    hide *;
    var path, c := PathText(ts), |done|;
    if xs == [] || ys == [] {
      ItemsOver(path, c, xs, ys);
      if ys == [] {
        RemovesEnd(doc, ts, done + Meanings(EraseItems(xs)), c, |xs|);
      } else {
        AllNamedIs(xs, ys);
        AddsEnd(doc, ts, done + Meanings(EraseItems(xs)), ys);
      }
    } else {
      var first := Diff(path + "/" + Digits(c), Erase(xs[0]), ys[0]);
      var rest := DiffItems(path, c + 1, EraseItems(xs[1..]), ys[1..]);
      ItemsStep(path, c, xs, ys);
      FirstItem(doc, ts, done, xs, ys);
      ItemsDisplaceSplit(xs, ys);
      if !Displaces(xs[0], ys[0]) {
        EndsRan(doc, first, ts + [Index(c)]);
        var d := LinkedPatch.ApplyAll(doc, first).doc;
        var o := Outcome(Meaning(Erase(xs[0])), Meaning(ys[0]));
        AllNamedIs(xs, ys);
        ItemAfter(doc, ts, done, xs, ys[0]);
        ItemsExpectedTail(doc, d, ts, c, xs, ys);
        AllNamedTail(xs, ys);
        ItemsItself(d, ts, done + [o], xs[1..], ys[1..]);
      }
      EndsThen(doc, ts, Index(c), first, rest, Displaces(xs[0], ys[0]), ItemsDisplace(xs[1..], ys[1..]));
    }
  }

  lemma ItemsOver(path: string, c: nat, xs: seq<Linked>, ys: seq<Json>)
    requires xs == [] || ys == []
    ensures !ItemsDisplace(xs, ys)
    ensures DiffItems(path, c, EraseItems(xs), ys) == if ys == [] then RemovePatches(path, c, |xs|) else AddPatches(path, ys)
  {
    hide RemovePatches, AddPatches;
    NoRemoves(path, c);
  }

  lemma AllNamedIs(xs: seq<Linked>, ys: seq<Json>)
    requires AllNamed(xs, ys)
    ensures forall y | y in ys :: WellNamed(y)
    ensures forall x | x in EraseItems(xs) :: WellNamed(x)
    ensures xs != [] ==> WellNamed(Erase(xs[0]))
    ensures ys != [] ==> WellNamed(ys[0])
  {
    hide WellNamed, Erase;
  }

  lemma AllNamedTail(xs: seq<Linked>, ys: seq<Json>)
    requires AllNamed(xs, ys) && xs != [] && ys != []
    ensures AllNamed(xs[1..], ys[1..])
  {
    hide WellNamed, Erase;
  }

  lemma EraseItemsTail(xs: seq<Linked>)
    requires xs != []
    ensures EraseItems(xs) != [] && EraseItems(xs)[0] == Erase(xs[0]) && EraseItems(xs)[1..] == EraseItems(xs[1..])
  {
    hide Erase;
  }

  lemma ItemsStep(path: string, c: nat, xs: seq<Linked>, ys: seq<Json>)
    requires xs != [] && ys != []
    ensures DiffItems(path, c, EraseItems(xs), ys)
         == Diff(path + "/" + Digits(c), Erase(xs[0]), ys[0]) + DiffItems(path, c + 1, EraseItems(xs[1..]), ys[1..])
  {
    EraseItemsTail(xs);
    hide Diff, Digits, Erase;
  }

  /** One item is replaced, or its patches are applied. */
  lemma {:induction false} FirstItem(doc: Linked, ts: seq<Token>, done: seq<Val>, xs: seq<Linked>, ys: seq<Json>)
    requires xs != [] && ys != [] && AllNamed(xs, ys) && ItemsExpected(doc, ts, |done|, xs, ys)
    requires HasValue(Erase(doc), ts, VArray(done + Meanings(EraseItems(xs))))
    ensures Ends(doc, LinkedPatch.ApplyAll(doc, Diff(PathText(ts) + "/" + Digits(|done|), Erase(xs[0]), ys[0])), ts + [Index(|done|)],
                 Displaces(xs[0], ys[0]))
    decreases xs[0], 3
  {
    var c := |done|;
    assert Expects(doc, ts + [Index(c + 0)], Left(xs[0], ys[0])) by { hide Expects; }
    hide *;
    SplitIndex(ts, c);
    AllNamedIs(xs, ys);
    ItemValue(doc, ts, done, xs);
    if Replaced(Erase(xs[0]), ys[0]) {
      ReplacedKeeps(xs[0], ys[0]);
      DiffReplaced(PathText(ts + [Index(c)]), Erase(xs[0]), ys[0]);
      ReplaceItemEnds(doc, ts, c, ys[0]);
    } else {
      Itself(doc, ts + [Index(c)], xs[0], ys[0]);
    }
  }

  lemma ItemValue(doc: Linked, ts: seq<Token>, done: seq<Val>, xs: seq<Linked>)
    requires xs != [] && HasValue(Erase(doc), ts, VArray(done + Meanings(EraseItems(xs))))
    ensures WellNamed(Erase(doc)) && HasPath(Meaning(Erase(doc)), ts)
    ensures Get(Meaning(Erase(doc)), ts).VArray? && |done| < |Get(Meaning(Erase(doc)), ts).items|
    ensures HasValue(Erase(doc), ts + [Index(|done|)], Meaning(Erase(xs[0])))
  {
    var v := Meaning(Erase(doc));
    assert (done + Meanings(EraseItems(xs)))[|done|] == Meaning(Erase(xs[0]));
    hide Meaning, Meanings, WellNamed, HasPath, Get, Erase;
    PathAppend(v, ts, Index(|done|));
  }

  lemma ItemAfter(doc: Linked, ts: seq<Token>, done: seq<Val>, xs: seq<Linked>, y: Json)
    requires xs != [] && (forall x | x in EraseItems(xs) :: WellNamed(x)) && WellNamed(y)
    requires HasValue(Erase(doc), ts, VArray(done + Meanings(EraseItems(xs))))
    requires LinkedPatch.ApplyAll(doc, Diff(PathText(ts) + "/" + Digits(|done|), Erase(xs[0]), y)).Ran?
    ensures var d := LinkedPatch.ApplyAll(doc, Diff(PathText(ts) + "/" + Digits(|done|), Erase(xs[0]), y)).doc;
      var o := Outcome(Meaning(Erase(xs[0])), Meaning(y));
      HasValue(Erase(d), ts, VArray(done + [o] + Meanings(EraseItems(xs[1..]))))
  {
    EraseItemsTail(xs);
    hide *;
    ItemApplies(Erase(doc), ts, done, EraseItems(xs), y);
    HasValueIs(Erase(doc), ts, VArray(done + Meanings(EraseItems(xs))));
    RanValue(doc, ts, Diff(PathText(ts) + "/" + Digits(|done|), Erase(xs[0]), y),
             VArray((done + [Outcome(Meaning(Erase(xs[0])), Meaning(y))]) + Meanings(EraseItems(xs[1..]))));
  }

  // ----- members

  ghost predicate MembersDisplace(head: Option<string>, fs: seq<Entry<Linked>>, tl: seq<Entry<Json>>) {
    exists j :: 0 <= j < |fs| && MemberDisplaces(head, fs[j], tl)
  }

  ghost predicate MembersExpected(doc: Linked, ts: seq<Token>, fs: seq<Entry<Linked>>, tl: seq<Entry<Json>>) {
    forall j :: 0 <= j < |fs| && FindName(tl, fs[j].name) < |tl| ==>
      Expects(doc, ts + [Name(fs[j].name)], Left(fs[j].item, tl[FindName(tl, fs[j].name)].item))
  }

  /** The list that is left, and the lists the induction starts from. */
  ghost predicate Listed(fs: seq<Entry<Linked>>, owner: Linked) {
    (forall e | e in fs :: e.item < owner) && (forall e | e in EraseMembers(fs) :: e.item < Erase(owner))
  }

  lemma ListedTail(fs: seq<Entry<Linked>>, owner: Linked)
    requires Listed(fs, owner) && fs != []
    ensures Listed(fs[1..], owner) && fs[0].item < owner
    ensures EraseMembers(fs) != [] && EraseMembers(fs)[0] == Entry(fs[0].name, Erase(fs[0].item))
    ensures EraseMembers(fs)[1..] == EraseMembers(fs[1..])
  {
    assert fs[0] in fs;
    assert EraseMembers(fs)[1..] == EraseMembers(fs[1..]);
    hide Erase;
  }

  lemma ListedIs(fs: seq<Entry<Linked>>, owner: Linked)
    requires Listed(fs, owner)
    ensures forall e | e in EraseMembers(fs) :: e.item < Erase(owner)
  {
    hide Erase;
  }

  lemma StartMembers(doc: Linked, ts: seq<Token>, f: Linked, to: Json)
    requires f.Members? && WellNamed(Erase(f)) && WellNamed(to) && HasValue(Erase(doc), ts, Meaning(Erase(f)))
    requires !Replaced(Erase(f), to) && Expects(doc, ts, Left(f, to))
    ensures to.Object?
    ensures var fs, tl, head := Sort(f.members), Sort(to.members), OldHead(f.members, f.stale);
      && Listed(fs, f) && Merging(Erase(doc), ts, map[], EraseMembers(fs), tl)
      && HeadIs(doc, ts, head) && MembersExpected(doc, ts, fs, tl)
      && (forall e | e in EraseMembers(fs) :: e.item < Erase(f))
      && Diff(PathText(ts), Erase(f), to) == DiffMembers(PathText(ts), EraseMembers(fs), tl, Erase(f))
      && (Displaces(f, to) <==> MembersDisplace(head, fs, tl))
  {
    var fs, tl := Sort(f.members), Sort(to.members);
    SortListed(f);
    LeftIs(f, to);
    DisplacesIs(f, to);
    assert Erase(f).members == EraseMembers(f.members);
    hide *;
    EraseSorts(f.members);
    StartMerging(Erase(doc), ts, Erase(f), to);
    MergingOrdered(Erase(doc), ts, map[], EraseMembers(fs), tl);
    StartHead(doc, ts, f, to);
    ListedIs(fs, f);
    OrderedErased(fs);
    forall j | 0 <= j < |fs| && FindName(tl, fs[j].name) < |tl|
      ensures Expects(doc, ts + [Name(fs[j].name)], Left(fs[j].item, tl[FindName(tl, fs[j].name)].item))
    {
      StartMember(doc, ts, f, to, j);
    }
    MembersExpectedBy(doc, ts, fs, tl);
  }

  lemma MembersExpectedBy(doc: Linked, ts: seq<Token>, fs: seq<Entry<Linked>>, tl: seq<Entry<Json>>)
    requires forall j :: 0 <= j < |fs| && FindName(tl, fs[j].name) < |tl| ==>
      Expects(doc, ts + [Name(fs[j].name)], Left(fs[j].item, tl[FindName(tl, fs[j].name)].item))
    ensures MembersExpected(doc, ts, fs, tl)
  {
  }

  lemma SortListed(f: Linked)
    requires f.Members?
    ensures Listed(Sort(f.members), f)
  {
    var fs := Sort(f.members);
    SortKeepsMembers(f.members);
    EraseSorts(f.members);
    SortKeepsMembers(EraseMembers(f.members));
    forall e | e in EraseMembers(fs) ensures e.item < Erase(f) {
      assert e in Sort(EraseMembers(f.members));
      assert e in EraseMembers(f.members);
    }
  }

  lemma SortOwned(f: Linked)
    requires f.Members?
    ensures forall e | e in Sort(f.members) :: e.item < f
  {
    SortKeepsMembers(f.members);
  }

  lemma LeftIs(f: Linked, to: Json)
    requires f.Members? && to.Object?
    ensures (forall e | e in Sort(f.members) :: e.item < f)
    ensures Left(f, to) == Members(LeftMembers(Sort(f.members), Sort(to.members), f), Sorted(f.members, f.stale))
  {
    hide Sort, LeftMembers, LeftItems, EraseMembers, EraseItems, Sorted;
    SortOwned(f);
  }

  lemma DisplacesIs(f: Linked, to: Json)
    requires f.Members? && to.Object?
    ensures Displaces(f, to) <==> MembersDisplace(OldHead(f.members, f.stale), Sort(f.members), Sort(to.members))
  {
    SortPermutes(f.members);
    var r := Sort(f.members);
    forall j | 0 <= j < |r| ensures r[j] in f.members { assert r[j] in multiset(r); }
    hide Sort, MemberDisplaces, OldHead;
  }

  lemma MergingOrdered(doc: Json, ts: seq<Token>, done: map<string, Val>, fs: seq<Entry<Json>>, tl: seq<Entry<Json>>)
    requires Merging(doc, ts, done, fs, tl)
    ensures StrictlyOrdered(fs) && StrictlyOrdered(tl) && WellNamedMembers(fs) && WellNamedMembers(tl)
    ensures HasValue(doc, ts, VObject(done + Fields(fs))) && WellNamed(doc) && HasPath(Meaning(doc), ts)
    ensures Get(Meaning(doc), ts) == VObject(done + Fields(fs))
    ensures done.Keys !! Fields(fs).Keys && done.Keys !! Fields(tl).Keys
  {
    hide WellNamed, StrictlyOrdered, WellNamedMembers, Fields, Meaning, Get, HasPath;
  }

  lemma OrderedErased(fs: seq<Entry<Linked>>)
    requires StrictlyOrdered(EraseMembers(fs)) && WellNamedMembers(EraseMembers(fs))
    ensures StrictlyOrdered(fs) && DistinctNames(fs) && forall e | e in fs :: WellNamed(Erase(e.item))
  {
    hide WellNamed, Erase, CaseOrder, LowerName;
    var es := EraseMembers(fs);
    forall i, j | 0 <= i < j < |fs| ensures Before(fs[i], fs[j]) && LowerName(fs[i].name) != LowerName(fs[j].name) {
      assert Before(es[i], es[j]) && es[i].name == fs[i].name && es[j].name == fs[j].name;
    }
    forall e | e in fs ensures WellNamed(Erase(e.item)) {
      var i :| 0 <= i < |fs| && fs[i] == e;
      assert es[i] in es;
    }
  }

  lemma StartHead(doc: Linked, ts: seq<Token>, f: Linked, to: Json)
    requires f.Members? && to.Object? && Expects(doc, ts, Left(f, to))
    ensures HeadIs(doc, ts, OldHead(f.members, f.stale))
  {
    var fs, tl := Sort(f.members), Sort(to.members);
    LeftIs(f, to);
    SortKeepsMembers(f.members);
    var ls, s := LeftMembers(fs, tl, f), Sorted(f.members, f.stale);
    assert |ls| == |fs| == |f.members| && (ls != [] ==> ls[0].name == fs[0].name);
    hide Left, LeftMembers, Sort, Sorted;
    forall name ensures Hit(doc, ts, name) <==> OldHead(f.members, f.stale).Some? && LowerName(name) == LowerName(OldHead(f.members, f.stale).value) {
      assert ts + [] == ts;
      assert Hit(doc, ts + [], name) <==> Hit(Members(ls, s), [], name);
      if ls != [] { CaseOrderZero(ls[0].name, name); }
    }
  }

  lemma LeftUnfolds(fs: seq<Entry<Linked>>, tl: seq<Entry<Json>>, owner: Linked)
    requires (forall e | e in fs :: e.item < owner) && fs != [] && tl != []
    ensures fs[0].item < owner && forall e | e in fs[1..] :: e.item < owner
    ensures var diff := CaseOrder(fs[0].name, tl[0].name);
      LeftMembers(fs, tl, owner) ==
      if diff == 0 then [fs[0].(item := Left(fs[0].item, tl[0].item))] + LeftMembers(fs[1..], tl[1..], owner)
      else if diff < 0 then [fs[0]] + LeftMembers(fs[1..], tl, owner)
      else LeftMembers(fs, tl[1..], owner)
  {
    hide Left, CaseOrder;
  }

  lemma ConsAt<T>(x: T, xs: seq<T>, j: nat)
    ensures ([x] + xs)[0] == x && (0 < j <= |xs| ==> ([x] + xs)[j] == xs[j - 1])
  {
  }

  lemma LeftStep(fs: seq<Entry<Linked>>, tl: seq<Entry<Json>>, owner: Linked, j: nat)
    requires (forall e | e in fs :: e.item < owner) && j < |fs| && tl != []
    ensures forall e | e in fs[1..] :: e.item < owner
    ensures var diff := CaseOrder(fs[0].name, tl[0].name);
      && (diff == 0 && j == 0 ==> LeftMembers(fs, tl, owner)[j].item == Left(fs[0].item, tl[0].item))
      && (diff == 0 && j > 0 ==> LeftMembers(fs, tl, owner)[j] == LeftMembers(fs[1..], tl[1..], owner)[j - 1])
      && (diff < 0 && j > 0 ==> LeftMembers(fs, tl, owner)[j] == LeftMembers(fs[1..], tl, owner)[j - 1])
      && (diff > 0 ==> LeftMembers(fs, tl, owner)[j] == LeftMembers(fs, tl[1..], owner)[j])
  {
    hide *;
    LeftUnfolds(fs, tl, owner);
    var head := fs[0].(item := Left(fs[0].item, tl[0].item));
    var diff := CaseOrder(fs[0].name, tl[0].name);
    if diff == 0 { ConsAt(head, LeftMembers(fs[1..], tl[1..], owner), j); }
    if diff < 0 { ConsAt(fs[0], LeftMembers(fs[1..], tl, owner), j); }
  }

  lemma FindTail<T>(tl: seq<Entry<T>>, name: string)
    requires tl != []
    ensures FindName(tl, name) == if CaseOrder(tl[0].name, name) == 0 then 0 else 1 + FindName(tl[1..], name)
  {
  }

  lemma OwnedTail(fs: seq<Entry<Linked>>, owner: Linked)
    requires (forall e | e in fs :: e.item < owner) && fs != []
    ensures forall e | e in fs[1..] :: e.item < owner
  {
  }

  /** The walk that generates visits every member both objects have. */
  lemma {:induction false} LeftMemberAt(fs: seq<Entry<Linked>>, tl: seq<Entry<Json>>, owner: Linked, j: nat)
    requires (forall e | e in fs :: e.item < owner) && StrictlyOrdered(fs) && StrictlyOrdered(tl)
    requires j < |fs| && FindName(tl, fs[j].name) < |tl|
    ensures LeftMembers(fs, tl, owner)[j].item == Left(fs[j].item, tl[FindName(tl, fs[j].name)].item)
    decreases |fs| + |tl|
  {
    hide *;
    var n := fs[j].name;
    var i := FindName(tl, n);
    LeftStep(fs, tl, owner, j);
    OwnedTail(fs, owner);
    FindTail(tl, n);
    HeadBelow(fs, j);
    HeadBelow(tl, i);
    CaseOrderZero(tl[i].name, n);
    CaseOrderReversed(fs[0].name, tl[0].name);
    CaseOrderReversed(tl[i].name, n);
    CaseOrderReversed(tl[0].name, n);
    var diff := CaseOrder(fs[0].name, tl[0].name);
    if diff < 0 {
      if j == 0 {
        if i > 0 { CaseOrderTransitive(fs[0].name, tl[0].name, tl[i].name); }
        assert false;
      }
      LeftMemberAt(fs[1..], tl, owner, j - 1);
    } else if diff > 0 {
      if i == 0 {
        if j > 0 { CaseOrderTransitive(tl[0].name, fs[0].name, n); }
        assert false;
      }
      LeftMemberAt(fs, tl[1..], owner, j);
    } else if j > 0 {
      CaseOrderTransitive(tl[0].name, fs[0].name, n);
      LeftMemberAt(fs[1..], tl[1..], owner, j - 1);
    }
  }

  lemma HeadBelow<T>(es: seq<Entry<T>>, i: nat)
    requires StrictlyOrdered(es) && i < |es|
    ensures StrictlyOrdered(es[1..]) && (i > 0 ==> CaseOrder(es[0].name, es[i].name) < 0)
    ensures i > 0 ==> es[1..][i - 1] == es[i]
    ensures forall e :: e in es[1..] ==> e in es
  {
    hide CaseOrder;
    if i > 0 { assert Before(es[0], es[i]); }
  }

  lemma StartMember(doc: Linked, ts: seq<Token>, f: Linked, to: Json, j: nat)
    requires f.Members? && to.Object? && Expects(doc, ts, Left(f, to))
    requires var fs, tl := Sort(f.members), Sort(to.members);
      StrictlyOrdered(fs) && DistinctNames(fs) && StrictlyOrdered(tl) && j < |fs| && FindName(tl, fs[j].name) < |tl|
    ensures var fs, tl := Sort(f.members), Sort(to.members);
      Expects(doc, ts + [Name(fs[j].name)], Left(fs[j].item, tl[FindName(tl, fs[j].name)].item))
  {
    var fs, tl := Sort(f.members), Sort(to.members);
    LeftIs(f, to);
    hide Left, LeftMembers, Sort, StrictlyOrdered;
    LeftMemberAt(fs, tl, f, j);
    var ls, s := LeftMembers(fs, tl, f), Sorted(f.members, f.stale);
    FindAt(ls, fs, j);
    ExpectsMember(doc, ts, ls, s, j);
  }

  lemma FindAt(ls: seq<Entry<Linked>>, fs: seq<Entry<Linked>>, j: nat)
    requires DistinctNames(fs) && j < |fs| == |ls| && forall i :: 0 <= i < |fs| ==> ls[i].name == fs[i].name
    ensures FindName(ls, fs[j].name) == j
  {
    hide FindName, LowerName;
    FindIs(ls, fs[j].name, j);
  }

  lemma ExpectsMember(doc: Linked, ts: seq<Token>, ls: seq<Entry<Linked>>, s: bool, j: nat)
    requires j < |ls| && FindName(ls, ls[j].name) == j && Expects(doc, ts, Members(ls, s))
    ensures Expects(doc, ts + [Name(ls[j].name)], ls[j].item)
  {
    var t := Name(ls[j].name);
    forall qs: seq<Token>, name: string ensures Hit(doc, ts + [t] + qs, name) <==> Hit(ls[j].item, qs, name) {
      assert ts + [t] + qs == ts + ([t] + qs);
      assert ([t] + qs)[1..] == qs && ([t] + qs)[0] == t;
      assert Hit(doc, ts + ([t] + qs), name) <==> Hit(Members(ls, s), [t] + qs, name);
    }
  }

  lemma MembersDisplaceSplit(head: Option<string>, fs: seq<Entry<Linked>>, tl: seq<Entry<Json>>)
    requires fs != []
    ensures MembersDisplace(head, fs, tl) <==> MemberDisplaces(head, fs[0], tl) || MembersDisplace(head, fs[1..], tl)
  {
    hide MemberDisplaces;
    if MembersDisplace(head, fs, tl) {
      var i :| 0 <= i < |fs| && MemberDisplaces(head, fs[i], tl);
      if i > 0 { assert fs[1..][i - 1] == fs[i]; }
    }
    if MembersDisplace(head, fs[1..], tl) {
      var i :| 0 <= i < |fs[1..]| && MemberDisplaces(head, fs[1..][i], tl);
      assert fs[i + 1] == fs[1..][i];
    }
  }

  /** A name that is passed in the second list does not matter for other names. */
  lemma MembersDisplaceTail(head: Option<string>, fs: seq<Entry<Linked>>, tl: seq<Entry<Json>>)
    requires tl != [] && forall e :: e in fs ==> CaseOrder(tl[0].name, e.name) != 0
    ensures MembersDisplace(head, fs, tl) <==> MembersDisplace(head, fs, tl[1..])
  {
    hide Displaces, CaseOrder, LowerName, Replaced;
    forall j | 0 <= j < |fs| ensures MemberDisplaces(head, fs[j], tl) <==> MemberDisplaces(head, fs[j], tl[1..]) {
      assert fs[j] in fs;
      FindTail(tl, fs[j].name);
    }
  }

  lemma MembersExpectedTail(doc: Linked, d: Linked, ts: seq<Token>, n: string, fs: seq<Entry<Linked>>,
                            tl: seq<Entry<Json>>, tl': seq<Entry<Json>>)
    requires MembersExpected(doc, ts, fs, tl) && SameOutside(doc, d, ts + [Name(n)])
    requires tl' == tl || (tl != [] && tl' == tl[1..] && forall e :: e in fs ==> CaseOrder(tl[0].name, e.name) != 0)
    requires forall e :: e in fs ==> LowerName(e.name) != LowerName(n)
    ensures MembersExpected(d, ts, fs, tl')
  {
    hide Expects, SameOutside, Left, CaseOrder, LowerName;
    forall j | 0 <= j < |fs| && FindName(tl', fs[j].name) < |tl'|
      ensures Expects(d, ts + [Name(fs[j].name)], Left(fs[j].item, tl'[FindName(tl', fs[j].name)].item))
    {
      assert fs[j] in fs;
      if tl' != tl { FindTail(tl, fs[j].name); }
      assert Expects(doc, ts + [Name(fs[j].name)], Left(fs[j].item, tl[FindName(tl, fs[j].name)].item));
      ExpectsStill(doc, d, ts, Name(n), Name(fs[j].name), Left(fs[j].item, tl[FindName(tl, fs[j].name)].item));
    }
  }

  lemma MembersExpectedRest(doc: Linked, ts: seq<Token>, fs: seq<Entry<Linked>>, tl: seq<Entry<Json>>)
    requires fs != [] && MembersExpected(doc, ts, fs, tl)
    ensures MembersExpected(doc, ts, fs[1..], tl)
    ensures FindName(tl, fs[0].name) < |tl| ==>
      Expects(doc, ts + [Name(fs[0].name)], Left(fs[0].item, tl[FindName(tl, fs[0].name)].item))
  {
    hide Expects, Left, FindName;
    forall j | 0 <= j < |fs[1..]| && FindName(tl, fs[1..][j].name) < |tl|
      ensures Expects(doc, ts + [Name(fs[1..][j].name)], Left(fs[1..][j].item, tl[FindName(tl, fs[1..][j].name)].item))
    {
      assert fs[1..][j] == fs[j + 1];
    }
  }

  /** Names in two ordered lists, the head of which comes first. */
  lemma NamesApart<S, T>(es: seq<Entry<S>>, fs: seq<Entry<T>>)
    requires es != [] && StrictlyOrdered(fs) && (fs != [] ==> CaseOrder(es[0].name, fs[0].name) < 0)
    ensures forall e :: e in fs ==> CaseOrder(es[0].name, e.name) < 0 && LowerName(e.name) != LowerName(es[0].name)
    ensures FindName(fs, es[0].name) == |fs|
  {
    forall e | e in fs ensures CaseOrder(es[0].name, e.name) < 0 && LowerName(e.name) != LowerName(es[0].name) {
      var i :| 0 <= i < |fs| && fs[i] == e;
      HeadBelow(fs, i);
      if i > 0 { CaseOrderTransitive(es[0].name, fs[0].name, e.name); }
      CaseOrderZero(es[0].name, e.name);
    }
    forall i | 0 <= i < |fs| ensures LowerName(fs[i].name) != LowerName(es[0].name) { assert fs[i] in fs; }
    hide CaseOrder, LowerName;
    FindIs(fs, es[0].name, |fs|);
  }

  /** The rest of an ordered list does not hold the name of its head. */
  lemma RestApart<T>(es: seq<Entry<T>>)
    requires es != [] && StrictlyOrdered(es)
    ensures StrictlyOrdered(es[1..])
    ensures forall e :: e in es[1..] ==> CaseOrder(es[0].name, e.name) < 0 && LowerName(e.name) != LowerName(es[0].name)
  {
    StrictlyOrderedTail(es);
    NamesApart(es, es[1..]);
  }

  lemma {:induction false} MembersItself(doc: Linked, ts: seq<Token>, done: map<string, Val>,
                                         fs: seq<Entry<Linked>>, tl: seq<Entry<Json>>, head: Option<string>, owner: Linked)
    requires Listed(fs, owner) && forall e | e in EraseMembers(fs) :: e.item < Erase(owner)
    requires Merging(Erase(doc), ts, done, EraseMembers(fs), tl) && HeadIs(doc, ts, head) && MembersExpected(doc, ts, fs, tl)
    ensures Ends(doc, LinkedPatch.ApplyAll(doc, DiffMembers(PathText(ts), EraseMembers(fs), tl, Erase(owner))), ts,
                 MembersDisplace(head, fs, tl))
    decreases owner, 0, |fs| + |tl|, 1
  {
    hide *;
    if fs == [] && tl == [] {
      NoMembers(PathText(ts), owner, head);
      EndsNothing(doc, ts);
    } else {
      var diff := if fs == [] then 1 else if tl == [] then -1 else CaseOrder(fs[0].name, tl[0].name);
      if diff == 0 {
        InBoth(doc, ts, done, fs, tl, head, owner);
      } else if diff < 0 {
        InFirst(doc, ts, done, fs, tl, head, owner);
      } else {
        if fs != [] { CaseOrderReversed(fs[0].name, tl[0].name); }
        InSecond(doc, ts, done, fs, tl, head, owner);
      }
    }
  }

  lemma NoMembers(path: string, owner: Linked, head: Option<string>)
    ensures DiffMembers(path, EraseMembers([]), [], Erase(owner)) == [] && !MembersDisplace(head, [], [])
  {
  }

  /** A member only the first object has is removed. */
  lemma {:induction false} InFirst(doc: Linked, ts: seq<Token>, done: map<string, Val>,
                                   fs: seq<Entry<Linked>>, tl: seq<Entry<Json>>, head: Option<string>, owner: Linked)
    requires Listed(fs, owner) && forall e | e in EraseMembers(fs) :: e.item < Erase(owner)
    requires Merging(Erase(doc), ts, done, EraseMembers(fs), tl) && HeadIs(doc, ts, head) && MembersExpected(doc, ts, fs, tl)
    requires fs != [] && (tl == [] || CaseOrder(fs[0].name, tl[0].name) < 0)
    ensures Ends(doc, LinkedPatch.ApplyAll(doc, DiffMembers(PathText(ts), EraseMembers(fs), tl, Erase(owner))), ts,
                 MembersDisplace(head, fs, tl))
    decreases owner, 0, |fs| + |tl|, 0
  {
    hide *;
    var n, es := fs[0].name, EraseMembers(fs);
    ListedTail(fs, owner);
    ListedIs(fs[1..], owner);
    MergingOrdered(Erase(doc), ts, done, es, tl);
    OrderedErased(fs);
    NamesApart(fs, tl);
    RestApart(fs);
    StepRemoved(PathText(ts), done, es, tl, Erase(owner));
    var first := [PatchObject("remove", PathText(ts) + "/" + Encode(n), None)];
    var rest := DiffMembers(PathText(ts), EraseMembers(fs[1..]), tl, Erase(owner));
    SplitName(ts, n);
    RemoveEnds(doc, ts, n);
    HeadHit(doc, ts, head, n);
    MovedAway(head, fs[0], tl);
    MembersDisplaceSplit(head, fs, tl);
    MembersExpectedRest(doc, ts, fs, tl);
    if !Hit(doc, ts, n) {
      EndsRan(doc, first, ts + [Name(n)]);
      var d := LinkedPatch.ApplyAll(doc, first).doc;
      RemoveNamed(Erase(doc), ts, done + Fields(es), n);
      RanValue(doc, ts, first, VObject(done + Fields(EraseMembers(fs[1..]))));
      MergingBy(Erase(d), ts, done, EraseMembers(fs[1..]), tl);
      HeadStill(doc, d, ts, Name(n), head);
      MembersExpectedTail(doc, d, ts, n, fs[1..], tl, tl);
      MembersItself(d, ts, done, fs[1..], tl, head, owner);
    }
    EndsThen(doc, ts, Name(n), first, rest, Hit(doc, ts, n), MembersDisplace(head, fs[1..], tl));
  }

  lemma SplitName(ts: seq<Token>, n: string)
    ensures PathText(ts + [Name(n)]) == PathText(ts) + "/" + Encode(n)
  {
    SplitPathText(ts, Name(n));
    hide PathText, Encode, SplitPath;
  }

  lemma HeadHit(doc: Linked, ts: seq<Token>, head: Option<string>, n: string)
    requires HeadIs(doc, ts, head)
    ensures Hit(doc, ts, n) <==> head.Some? && LowerName(head.value) == LowerName(n)
  {
    hide Hit, LowerName;
  }

  lemma MovedAway(head: Option<string>, e: Entry<Linked>, tl: seq<Entry<Json>>)
    requires FindName(tl, e.name) == |tl|
    ensures MemberDisplaces(head, e, tl) <==> head.Some? && LowerName(head.value) == LowerName(e.name)
  {
    hide LowerName, FindName, Displaces, Replaced;
  }

  lemma MergingBy(doc: Json, ts: seq<Token>, done: map<string, Val>, fs: seq<Entry<Json>>, tl: seq<Entry<Json>>)
    requires StrictlyOrdered(fs) && StrictlyOrdered(tl) && WellNamedMembers(fs) && WellNamedMembers(tl)
    requires done.Keys !! Fields(fs).Keys && done.Keys !! Fields(tl).Keys
    requires HasValue(doc, ts, VObject(done + Fields(fs)))
    ensures Merging(doc, ts, done, fs, tl)
  {
    hide StrictlyOrdered, WellNamedMembers, Fields, HasValue;
  }

  /** A member only the second object has is added. */
  lemma {:induction false} InSecond(doc: Linked, ts: seq<Token>, done: map<string, Val>,
                                    fs: seq<Entry<Linked>>, tl: seq<Entry<Json>>, head: Option<string>, owner: Linked)
    requires Listed(fs, owner) && forall e | e in EraseMembers(fs) :: e.item < Erase(owner)
    requires Merging(Erase(doc), ts, done, EraseMembers(fs), tl) && HeadIs(doc, ts, head) && MembersExpected(doc, ts, fs, tl)
    requires tl != [] && (fs == [] || CaseOrder(tl[0].name, fs[0].name) < 0)
    ensures Ends(doc, LinkedPatch.ApplyAll(doc, DiffMembers(PathText(ts), EraseMembers(fs), tl, Erase(owner))), ts,
                 MembersDisplace(head, fs, tl))
    decreases owner, 0, |fs| + |tl|, 0
  {
    hide *;
    var n, y, es := tl[0].name, tl[0].item, EraseMembers(fs);
    var k := LowerName(n);
    MergingOrdered(Erase(doc), ts, done, es, tl);
    OrderedErased(fs);
    NamesApart(tl, fs);
    DiffAdded(PathText(ts), fs, tl, owner);
    var first := [PatchObject("add", PathText(ts) + "/" + Encode(n), Some(y))];
    var rest := DiffMembers(PathText(ts), es, tl[1..], Erase(owner));
    SplitName(ts, n);
    AddEnds(doc, ts, n, y);
    NewName(doc, ts, done, fs, tl);
    MembersDisplaceTail(head, fs, tl);
    EndsRan(doc, first, ts + [Name(n)]);
    var d := LinkedPatch.ApplyAll(doc, first).doc;
    AddNamed(Erase(doc), ts, done + Fields(es), n, y);
    RanValue(doc, ts, first, VObject((done + Fields(es))[k := Meaning(y)]));
    AddedState(Erase(doc), ts, done, es, tl, Erase(d));
    HeadStill(doc, d, ts, Name(n), head);
    MembersExpectedTail(doc, d, ts, n, fs, tl, tl[1..]);
    MembersItself(d, ts, done[k := Meaning(y)], fs, tl[1..], head, owner);
    EndsThen(doc, ts, Name(n), first, rest, false, MembersDisplace(head, fs, tl[1..]));
  }

  lemma DiffAdded(path: string, fs: seq<Entry<Linked>>, tl: seq<Entry<Json>>, owner: Linked)
    requires forall e | e in EraseMembers(fs) :: e.item < Erase(owner)
    requires tl != [] && (fs == [] || CaseOrder(tl[0].name, fs[0].name) < 0) && WellNamedMembers(tl)
    ensures WellNamed(tl[0].item)
    ensures EraseMembers(fs) == [] || CaseOrder(tl[0].name, EraseMembers(fs)[0].name) < 0
    ensures DiffMembers(path, EraseMembers(fs), tl, Erase(owner))
         == [PatchObject("add", path + "/" + Encode(tl[0].name), Some(tl[0].item))]
            + DiffMembers(path, EraseMembers(fs), tl[1..], Erase(owner))
  {
    if fs != [] { CaseOrderReversed(tl[0].name, fs[0].name); }
    WellNamedTail(tl);
    hide PatchObject, Encode, Erase, WellNamed, CaseOrder;
  }

  /** The object at `ts` does not have the name yet, so no old link is met. */
  lemma NewName(doc: Linked, ts: seq<Token>, done: map<string, Val>, fs: seq<Entry<Linked>>, tl: seq<Entry<Json>>)
    requires Merging(Erase(doc), ts, done, EraseMembers(fs), tl)
    requires tl != [] && forall e :: e in fs ==> LowerName(e.name) != LowerName(tl[0].name)
    ensures !Hit(doc, ts, tl[0].name)
  {
    var n, es := tl[0].name, EraseMembers(fs);
    MergingOrdered(Erase(doc), ts, done, es, tl);
    OrderedFields(tl);
    FieldsLookup(es, n);
    forall i | 0 <= i < |es| ensures LowerName(es[i].name) != LowerName(n) { assert fs[i] in fs && es[i].name == fs[i].name; }
    FindIs(es, n, |es|);
    assert LowerName(n) !in Fields(es);
    hide Hit, LowerName, Fields, Meaning, Erase, HasPath, Get, WellNamed;
    if Hit(doc, ts, n) { HitHasStep(doc, ts, n); }
  }

  /** A member both objects have is replaced, or its own patches are applied. */
  lemma {:induction false} InBoth(doc: Linked, ts: seq<Token>, done: map<string, Val>,
                                  fs: seq<Entry<Linked>>, tl: seq<Entry<Json>>, head: Option<string>, owner: Linked)
    requires Listed(fs, owner) && forall e | e in EraseMembers(fs) :: e.item < Erase(owner)
    requires Merging(Erase(doc), ts, done, EraseMembers(fs), tl) && HeadIs(doc, ts, head) && MembersExpected(doc, ts, fs, tl)
    requires fs != [] && tl != [] && CaseOrder(fs[0].name, tl[0].name) == 0
    ensures Ends(doc, LinkedPatch.ApplyAll(doc, DiffMembers(PathText(ts), EraseMembers(fs), tl, Erase(owner))), ts,
                 MembersDisplace(head, fs, tl))
    decreases owner, 0, |fs| + |tl|, 0
  {
    hide *;
    var n, es := fs[0].name, EraseMembers(fs);
    var k, o := LowerName(n), Outcome(Meaning(es[0].item), Meaning(tl[0].item));
    ListedTail(fs, owner);
    ListedIs(fs[1..], owner);
    MergingOrdered(Erase(doc), ts, done, es, tl);
    OrderedErased(fs);
    SharedApart(fs, tl);
    StepInBoth(PathText(ts), done, es, tl, Erase(owner));
    var first := Diff(PathText(ts) + "/" + Encode(n), Erase(fs[0].item), tl[0].item);
    var rest := DiffMembers(PathText(ts), EraseMembers(fs[1..]), tl[1..], Erase(owner));
    FirstMember(doc, ts, done, fs, tl, head);
    MembersDisplaceSplit(head, fs, tl);
    MembersDisplaceTail(head, fs[1..], tl);
    MembersExpectedRest(doc, ts, fs, tl);
    var x := MemberDisplaces(head, fs[0], tl);
    if !x {
      EndsRan(doc, first, ts + [Name(n)]);
      var d := LinkedPatch.ApplyAll(doc, first).doc;
      MemberApplies(Erase(doc), ts, done, es, tl[0].item);
      RanValue(doc, ts, first, VObject(done[k := o] + Fields(EraseMembers(fs[1..]))));
      MergingBy(Erase(d), ts, done[k := o], EraseMembers(fs[1..]), tl[1..]);
      HeadStill(doc, d, ts, Name(n), head);
      MembersExpectedTail(doc, d, ts, n, fs[1..], tl, tl[1..]);
      MembersItself(d, ts, done[k := o], fs[1..], tl[1..], head, owner);
    }
    EndsThen(doc, ts, Name(n), first, rest, x, MembersDisplace(head, fs[1..], tl[1..]));
  }

  lemma SharedApart(fs: seq<Entry<Linked>>, tl: seq<Entry<Json>>)
    requires fs != [] && tl != [] && StrictlyOrdered(fs) && CaseOrder(fs[0].name, tl[0].name) == 0
    ensures forall e :: e in fs[1..] ==> CaseOrder(tl[0].name, e.name) != 0 && LowerName(e.name) != LowerName(fs[0].name)
    ensures FindName(tl, fs[0].name) == 0
  {
    RestApart(fs);
    CaseOrderZero(fs[0].name, tl[0].name);
    CaseOrderZero(tl[0].name, fs[0].name);
    forall e | e in fs[1..] ensures CaseOrder(tl[0].name, e.name) != 0 { CaseOrderZero(tl[0].name, e.name); }
  }

  lemma {:induction false} FirstMember(doc: Linked, ts: seq<Token>, done: map<string, Val>,
                                       fs: seq<Entry<Linked>>, tl: seq<Entry<Json>>, head: Option<string>)
    requires Merging(Erase(doc), ts, done, EraseMembers(fs), tl) && HeadIs(doc, ts, head) && MembersExpected(doc, ts, fs, tl)
    requires fs != [] && tl != [] && FindName(tl, fs[0].name) == 0
    ensures Ends(doc, LinkedPatch.ApplyAll(doc, Diff(PathText(ts) + "/" + Encode(fs[0].name), Erase(fs[0].item), tl[0].item)),
                 ts + [Name(fs[0].name)], MemberDisplaces(head, fs[0], tl))
    decreases fs[0].item, 3
  {
    hide *;
    var n, es, x, y := fs[0].name, EraseMembers(fs), fs[0].item, tl[0].item;
    MergingOrdered(Erase(doc), ts, done, es, tl);
    OrderedErased(fs);
    SplitName(ts, n);
    HeadHit(doc, ts, head, n);
    MembersExpectedRest(doc, ts, fs, tl);
    MemberValue(doc, ts, done, fs, tl);
    SharedDisplaces(head, fs[0], tl);
    if Replaced(Erase(x), y) {
      ReplacedKeeps(x, y);
      DiffReplaced(PathText(ts + [Name(n)]), Erase(x), y);
      ReplaceMemberEnds(doc, ts, n, y);
    } else {
      Itself(doc, ts + [Name(n)], x, y);
    }
  }

  lemma SharedDisplaces(head: Option<string>, e: Entry<Linked>, tl: seq<Entry<Json>>)
    requires tl != [] && FindName(tl, e.name) == 0
    ensures MemberDisplaces(head, e, tl) <==>
      || (Replaced(Erase(e.item), tl[0].item) && head.Some? && LowerName(head.value) == LowerName(e.name))
      || Displaces(e.item, tl[0].item)
  {
    hide LowerName, FindName, Displaces, Replaced;
  }

  lemma MemberValue(doc: Linked, ts: seq<Token>, done: map<string, Val>, fs: seq<Entry<Linked>>, tl: seq<Entry<Json>>)
    requires Merging(Erase(doc), ts, done, EraseMembers(fs), tl) && fs != [] && tl != []
    ensures WellNamed(Erase(fs[0].item)) && WellNamed(tl[0].item)
    ensures WellNamed(Erase(doc)) && HasPath(Meaning(Erase(doc)), ts) && Get(Meaning(Erase(doc)), ts).VObject?
    ensures HasValue(Erase(doc), ts + [Name(fs[0].name)], Meaning(Erase(fs[0].item)))
  {
    var es := EraseMembers(fs);
    MergingOrdered(Erase(doc), ts, done, es, tl);
    HeadFields(es);
    assert tl[0] in tl;
    hide Meaning, WellNamed, HasPath, Get, Fields, LowerName, Erase, StrictlyOrdered;
    PathAppend(Meaning(Erase(doc)), ts, Name(fs[0].name));
  }

  // ----- what generating leaves means the same

  lemma {:induction false} LeftMeans(f: Linked, to: Json)
    requires WellNamed(Erase(f))
    ensures WellNamed(Erase(Left(f, to))) && Meaning(Erase(Left(f, to))) == Meaning(Erase(f))
    decreases f, 1, 0
  {
    if SameKind(Erase(f), to) {
      match f {
        case Leaf(_) =>
        case Items(xs) => LeftItemsMean(xs, to.items);
        case Members(ms, _) =>
          var fs, tl := Sort(ms), Sort(to.members);
          LeftIs(f, to);
          EraseSorts(ms);
          SortedMeans(EraseMembers(ms));
          hide Sort, Left, LeftMembers, Fields;
          LeftMembersMean(fs, tl, f);
          assert Erase(f) == Object(EraseMembers(ms));
          assert Erase(Left(f, to)) == Object(EraseMembers(LeftMembers(fs, tl, f)));
      }
    }
  }

  lemma SortedMeans(ms: seq<Entry<Json>>)
    requires WellNamed(Object(ms))
    ensures WellNamedMembers(Sort(ms)) && Fields(Sort(ms)) == Fields(ms)
  {
    SortKeepsFields(ms);
    SortKeepsMembers(ms);
  }

  lemma {:induction false} LeftItemsMean(xs: seq<Linked>, ys: seq<Json>)
    requires forall x | x in EraseItems(xs) :: WellNamed(x)
    ensures forall x | x in EraseItems(LeftItems(xs, ys)) :: WellNamed(x)
    ensures Meanings(EraseItems(LeftItems(xs, ys))) == Meanings(EraseItems(xs))
    decreases xs, 0, 0
  {
    if xs != [] && ys != [] {
      EraseItemsTail(xs);
      LeftMeans(xs[0], ys[0]);
      LeftItemsMean(xs[1..], ys[1..]);
      var ls := LeftItems(xs, ys);
      EraseItemsTail(ls);
      hide Left, Meaning, WellNamed, Erase;
      assert ls[1..] == LeftItems(xs[1..], ys[1..]);
      MeaningsHead(EraseItems(xs));
      MeaningsHead(EraseItems(ls));
    }
  }

  lemma {:induction false} LeftMembersMean(fs: seq<Entry<Linked>>, tl: seq<Entry<Json>>, owner: Linked)
    requires (forall e | e in fs :: e.item < owner) && WellNamedMembers(EraseMembers(fs))
    ensures SameMembers(EraseMembers(fs), EraseMembers(LeftMembers(fs, tl, owner)))
    decreases owner, 0, |fs| + |tl|
  {
    if fs != [] && tl != [] {
      var diff := CaseOrder(fs[0].name, tl[0].name);
      EraseMembersTail(fs);
      WellNamedTail(EraseMembers(fs));
      hide Left, Meaning, WellNamed, Erase, CaseOrder, SameMembers, DistinctNames;
      if diff > 0 {
        LeftMembersMean(fs, tl[1..], owner);
      } else {
        if diff == 0 { LeftMeans(fs[0].item, tl[0].item); }
        var x := if diff == 0 then Left(fs[0].item, tl[0].item) else fs[0].item;
        var rest := if diff == 0 then tl[1..] else tl;
        LeftMembersMean(fs[1..], rest, owner);
        SameMembersCons(EraseMembers(fs), Erase(x), EraseMembers(LeftMembers(fs[1..], rest, owner)));
        EraseMembersCons(fs[0].(item := x), LeftMembers(fs[1..], rest, owner));
      }
    }
  }

  // ----- the main results

  lemma RootReplacedIs(f: Json, to: Json)
    ensures RootFits(Meaning(f), Meaning(to)) <==> !Replaced(f, to)
  {
    if f.Array? && to.Array? {
    } else if f.Object? && to.Object? {
    }
  }

  lemma RootGoesAstray(doc: Linked, from: Json, to: Json)
    requires Replaced(from, to)
    ensures LinkedPatch.ApplyAll(doc, Diff("", from, to)) == LinkedPatch.Astray
  {
    var p := PatchObject("replace", "", Some(to));
    assert SplitPath("").None?;
    PatchObjectItems("replace", "", Some(to));
    ReplaceAstray(doc, p, Some(to));
    hide *;
    DiffReplaced("", from, to);
    AstrayAlone(doc, p);
  }

  lemma ReplaceAstray(doc: Linked, p: Json, value: Option<Json>)
    requires GetItem(p, "op") == Some(String("replace")) && GetItem(p, "path") == Some(String("")) && GetItem(p, "value") == value
    requires SplitPath("").None?
    ensures LinkedPatch.ApplyPatch(doc, p) == LinkedPatch.Astray
  {
    hide GetItem, SplitPath;
    assert LinkedPatch.PatchDetach(doc, "") == LinkedPatch.NoPath;
    hide LinkedPatch.PatchDetach;
  }

  lemma AstrayAlone(doc: Linked, p: Json)
    requires LinkedPatch.ApplyPatch(doc, p) == LinkedPatch.Astray
    ensures LinkedPatch.ApplyAll(doc, [p]) == LinkedPatch.Astray
  {
    hide LinkedPatch.ApplyPatch;
  }

  lemma ListsRun(doc: Linked, f: Json, to: Json)
    ensures LinkedPatch.ApplyPatches(doc, GeneratePatches(f, to)) == LinkedPatch.ApplyAll(doc, Diff("", f, to))
    ensures Patch.ApplyPatches(Erase(doc), GeneratePatches(f, to)) == Patch.ApplyAll(Erase(doc), Diff("", f, to))
  {
    hide LinkedPatch.ApplyAll, Patch.ApplyAll, Diff;
  }

  /** Applying the generated patches to the tree they were generated from, as generating leaves it. */
  lemma PatchesOnItself(f: Linked, to: Json)
    requires WellNamed(Erase(f)) && WellNamed(to)
    ensures var r := LinkedPatch.ApplyPatches(Left(f, to), GeneratePatches(Erase(f), to));
      if !RootFits(Meaning(Erase(f)), Meaning(to)) then r == LinkedPatch.Astray
      else if Displaces(f, to) then r == LinkedPatch.Tangled
      else r.Ran? && r.code == 0 && WellNamed(Erase(r.doc)) && Meaning(Erase(r.doc)) == Outcome(Meaning(Erase(f)), Meaning(to))
  {
    hide *;
    var doc, ps := Left(f, to), Diff("", Erase(f), to);
    ListsRun(doc, Erase(f), to);
    RootReplacedIs(Erase(f), to);
    if Replaced(Erase(f), to) {
      RootGoesAstray(doc, Erase(f), to);
    } else {
      LeftMeans(f, to);
      RootValue(doc, f, to);
      Itself(doc, [], f, to);
      if !Displaces(f, to) {
        EndsRan(doc, ps, []);
        RanErases(doc, ps);
        PatchesReachOutcome(Erase(doc), Erase(f), to);
      } else {
        EndsTangled(doc, ps, []);
      }
    }
  }

  lemma EndsTangled(doc: Linked, ps: seq<Json>, ts: seq<Token>)
    requires Ends(doc, LinkedPatch.ApplyAll(doc, ps), ts, true)
    ensures LinkedPatch.ApplyAll(doc, ps) == LinkedPatch.Tangled
  {
  }

  lemma RootValue(doc: Linked, f: Linked, to: Json)
    requires doc == Left(f, to) && WellNamed(Erase(doc)) && Meaning(Erase(doc)) == Meaning(Erase(f))
    ensures HasValue(Erase(doc), [], Meaning(Erase(f))) && Expects(doc, [], Left(f, to)) && PathText([]) == ""
  {
    hide Hit, Left;
    forall qs: seq<Token> ensures [] + qs == qs {}
  }

  /** They go through no old link and give a tree that compares equal to `to` exactly when the roots fit, no
      compared array shrinks by more than one, and no member that holds an old link after generating is removed or
      replaced. `NodeRuns.PatchesOnOwnTree` says the same of the nodes. */
  lemma PatchesReachTargetOnItself(f: Linked, to: Json)
    requires WellNamed(Erase(f)) && WellNamed(to)
    ensures var r := LinkedPatch.ApplyPatches(Left(f, to), GeneratePatches(Erase(f), to));
      (r.Ran? && r.code == 0 && Comparison(Erase(r.doc), to).code == 0) <==>
      RootFits(Meaning(Erase(f)), Meaning(to)) && ShrinksByAtMostOne(Meaning(Erase(f)), Meaning(to)) && !Displaces(f, to)
  {
    hide *;
    PatchesOnItself(f, to);
    OutcomeExact(Meaning(Erase(f)), Meaning(to));
    var r := LinkedPatch.ApplyPatches(Left(f, to), GeneratePatches(Erase(f), to));
    if r.Ran? { CompareDecidesMeaning(Erase(r.doc), to); }
  }

  // ----- documents without old links

  /** The operations that generating emits. */
  ghost predicate OnlyEdits(ps: seq<Json>) {
    forall p :: p in ps ==> LinkedPatch.PathOf(p, "op") in {Some("add"), Some("remove"), Some("replace")}
  }

  lemma OnlyEditsOne(op: string, path: string, value: Option<Json>)
    requires op in {"add", "remove", "replace"}
    ensures OnlyEdits([PatchObject(op, path, value)])
  {
    PatchObjectItems(op, path, value);
    hide PatchObject, GetItem;
  }

  lemma OnlyEditsAppend(ps: seq<Json>, qs: seq<Json>)
    requires OnlyEdits(ps) && OnlyEdits(qs)
    ensures OnlyEdits(ps + qs)
  {
    hide LinkedPatch.PathOf;
  }

  lemma {:induction false} OnlyEditsRemoves(path: string, c: nat, count: nat)
    ensures OnlyEdits(RemovePatches(path, c, count))
    decreases count
  {
    hide PatchObject, OnlyEdits, Encode, Digits;
    if count > 0 {
      OnlyEditsOne("remove", path + "/" + Encode(Digits(c)), None);
      OnlyEditsRemoves(path, c + 1, count - 1);
      OnlyEditsAppend([PatchObject("remove", path + "/" + Encode(Digits(c)), None)], RemovePatches(path, c + 1, count - 1));
    } else {
      OnlyEditsEmpty();
    }
  }

  lemma OnlyEditsEmpty()
    ensures OnlyEdits([])
  {
  }

  lemma {:induction false} OnlyEditsAdds(path: string, ys: seq<Json>)
    ensures OnlyEdits(AddPatches(path, ys))
  {
    hide PatchObject, OnlyEdits, Encode;
    if ys != [] {
      OnlyEditsOne("add", path + "/" + Encode("-"), Some(ys[0]));
      OnlyEditsAdds(path, ys[1..]);
      OnlyEditsAppend([PatchObject("add", path + "/" + Encode("-"), Some(ys[0]))], AddPatches(path, ys[1..]));
    } else {
      OnlyEditsEmpty();
    }
  }

  /** Generated lists hold no "test" and no "move". */
  lemma {:induction false} OnlyEditsDiff(path: string, f: Json, to: Json)
    ensures OnlyEdits(Diff(path, f, to))
    decreases f, 1, 0
  {
    hide PatchObject, OnlyEdits, DiffItems, DiffMembers, Sort;
    OnlyEditsEmpty();
    OnlyEditsOne("replace", path, Some(to));
    if f.Array? && to.Array? {
      OnlyEditsItems(path, 0, f.items, to.items);
    } else if f.Object? && to.Object? {
      SortKeepsMembers(f.members);
      OnlyEditsMembers(path, Sort(f.members), Sort(to.members), f);
    }
  }

  lemma {:induction false} OnlyEditsItems(path: string, c: nat, xs: seq<Json>, ys: seq<Json>)
    ensures OnlyEdits(DiffItems(path, c, xs, ys))
    decreases xs, 0, 0
  {
    hide OnlyEdits, Diff, RemovePatches, AddPatches, Digits;
    if xs == [] || ys == [] {
      OnlyEditsRemoves(path, c, |xs|);
      OnlyEditsAdds(path, ys);
      OnlyEditsAppend(RemovePatches(path, c, |xs|), AddPatches(path, ys));
    } else {
      OnlyEditsDiff(path + "/" + Digits(c), xs[0], ys[0]);
      OnlyEditsItems(path, c + 1, xs[1..], ys[1..]);
      OnlyEditsAppend(Diff(path + "/" + Digits(c), xs[0], ys[0]), DiffItems(path, c + 1, xs[1..], ys[1..]));
    }
  }

  lemma {:induction false} OnlyEditsMembers(path: string, fs: seq<Entry<Json>>, ts: seq<Entry<Json>>, owner: Json)
    requires forall e | e in fs :: e.item < owner
    ensures OnlyEdits(DiffMembers(path, fs, ts, owner))
    decreases owner, 0, |fs| + |ts|
  {
    hide OnlyEdits, Diff, Encode, CaseOrder, PatchObject;
    if fs == [] && ts == [] {
      OnlyEditsEmpty();
    } else {
      var diff := if fs == [] then 1 else if ts == [] then -1 else CaseOrder(fs[0].name, ts[0].name);
      if diff == 0 {
        OnlyEditsDiff(path + "/" + Encode(fs[0].name), fs[0].item, ts[0].item);
        OnlyEditsMembers(path, fs[1..], ts[1..], owner);
        OnlyEditsAppend(Diff(path + "/" + Encode(fs[0].name), fs[0].item, ts[0].item), DiffMembers(path, fs[1..], ts[1..], owner));
      } else if diff < 0 {
        OnlyEditsOne("remove", path + "/" + Encode(fs[0].name), None);
        OnlyEditsMembers(path, fs[1..], ts, owner);
        OnlyEditsAppend([PatchObject("remove", path + "/" + Encode(fs[0].name), None)], DiffMembers(path, fs[1..], ts, owner));
      } else {
        OnlyEditsOne("add", path + "/" + Encode(ts[0].name), Some(ts[0].item));
        OnlyEditsMembers(path, fs, ts[1..], owner);
        OnlyEditsAppend([PatchObject("add", path + "/" + Encode(ts[0].name), Some(ts[0].item))], DiffMembers(path, fs, ts[1..], owner));
      }
    }
  }

  /** On a document without old links, a parsed one or a copy, the generated patches never tangle. */
  lemma PatchesReachTargetOnCopy(doc: Linked, from: Json, to: Json)
    requires Clean(doc) && WellNamed(Erase(doc)) && WellNamed(from) && WellNamed(to) && Meaning(Erase(doc)) == Meaning(from)
    ensures var r := LinkedPatch.ApplyPatches(doc, GeneratePatches(from, to));
      && r != LinkedPatch.Tangled
      && ((r.Ran? && r.code == 0 && Comparison(Erase(r.doc), to).code == 0) <==>
          RootFits(Meaning(from), Meaning(to)) && ShrinksByAtMostOne(Meaning(from), Meaning(to)))
  {
    var ps := Diff("", from, to);
    assert LinkedPatch.ApplyPatches(doc, GeneratePatches(from, to)) == LinkedPatch.ApplyAll(doc, ps);
    assert Patch.ApplyPatches(Erase(doc), GeneratePatches(from, to)) == Patch.ApplyAll(Erase(doc), ps);
    OnlyEditsDiff("", from, to);
    hide Diff, LinkedPatch.ApplyAll, Patch.ApplyAll, Clean, Erase, Meaning, WellNamed, ShrinksByAtMostOne, RootFits, Comparison,
      LinkedPatch.PathOf, LinkedPatch.ApplyPatches, Patch.ApplyPatches;
    LinkedPatch.CleanRun(doc, ps);
    PatchesReachTarget(Erase(doc), from, to);
  }

  // ----- two runs that tangle

  lemma TwoNamed(v: Json)
    requires v == Object([Entry("b", Number(1)), Entry("a", Number(2))])
    ensures WellNamed(v) && SplitPath("/a") == Some(("", "a"))
  {
    CaseOrderZero("b", "a");
    DecodePlain("a");
    assert LastSlash("/a") == Some(0) by { assert "/a"[..1] == "/"; }
    assert "/a"[1..] == "a" && "/a"[..0] == "";
  }

  lemma TestIs(doc: Linked, v: Json)
    ensures var p := PatchObject("test", "", Some(v));
      && LinkedPatch.ApplyPatch(doc, p) == LinkedPatch.ApplyTest(doc, String(""), Some(v))
      && Patch.ApplyPatch(Erase(doc), p) == Patch.ApplyTest(Erase(doc), String(""), Some(v))
  {
    PatchObjectItems("test", "", Some(v));
    hide PatchObject, GetItem, LinkedPatch.ApplyTest, Patch.ApplyTest, Erase;
  }

  lemma RemoveIs(doc: Linked, path: string)
    ensures var p := PatchObject("remove", path, None);
      && LinkedPatch.ApplyPatch(doc, p) == LinkedPatch.ApplyRemove(doc, String(path))
      && Patch.ApplyPatch(Erase(doc), p) == Patch.ApplyRemove(Erase(doc), String(path))
  {
    PatchObjectItems("remove", path, None);
    hide PatchObject, GetItem, LinkedPatch.ApplyRemove, Patch.ApplyRemove, Erase;
  }

  /** A test of the whole document. */
  lemma TestRoot(doc: Linked, v: Json)
    ensures LinkedPatch.ApplyTest(doc, String(""), Some(v)) == LinkedPatch.Ran(Comparison(Erase(doc), v).code, Visited(doc, v))
  {
    assert Resolve(Erase(doc), "") == Some([]);
    hide Comparison, Visited, Erase;
  }

  lemma TestSorts(v: Json)
    requires v == Object([Entry("b", Number(1)), Entry("a", Number(2))])
    ensures var p, d := PatchObject("test", "", Some(v)), Members([Entry("a", Leaf(Number(2))), Entry("b", Leaf(Number(1)))], true);
      LinkedPatch.ApplyPatch(Fresh(v), p) == LinkedPatch.Ran(0, d) && Patch.ApplyPatch(v, p) == Applied(0, Erase(d))
  {
    hide *;
    LinkedPatch.TwoMembers(v);
    TestIs(Fresh(v), v);
    TestRoot(Fresh(v), v);
    LinkedPatch.TestErases(Fresh(v), String(""), Some(v));
    AgreesIs(LinkedPatch.ApplyTest(Fresh(v), String(""), Some(v)), Patch.ApplyTest(v, String(""), Some(v)));
  }

  lemma AgreesIs(r: LinkedPatch.Run, a: Applied)
    requires LinkedPatch.Agrees(r, a)
    ensures r.Ran? ==> a == Applied(r.code, Erase(r.doc))
  {
  }

  /** Removing a member of the whole document. */
  lemma RemoveHead(d: Linked, path: string, name: string)
    requires SplitPath(path) == Some(("", name)) && d.Members? && d.stale && d.members != [] && FindName(d.members, name) == 0
    ensures LinkedPatch.ApplyRemove(d, String(path)) == LinkedPatch.Tangled
    ensures var r := Patch.ApplyRemove(Erase(d), String(path)); r.Applied? && r.code == 0
  {
    assert Resolve(Erase(d), "") == Some([]) && NodeAt(d, []) == d;
    hide SplitPath, FindName, Resolve, NodeAt, Erase, LinkedPatch.DetachKid, DetachChild;
  }

  lemma RemoveTangles(d: Linked)
    requires d == Members([Entry("a", Leaf(Number(2))), Entry("b", Leaf(Number(1)))], true)
    ensures var p := PatchObject("remove", "/a", None);
      && LinkedPatch.ApplyPatch(d, p) == LinkedPatch.Tangled
      && Patch.ApplyPatch(Erase(d), p).Applied? && Patch.ApplyPatch(Erase(d), p).code == 0
  {
    assert FindName(d.members, "a") == 0;
    hide *;
    TwoNamed(Object([Entry("b", Number(1)), Entry("a", Number(2))]));
    RemoveIs(d, "/a");
    RemoveHead(d, "/a", "a");
  }

  lemma RunTwo(doc: Linked, v: Json, ps: seq<Json>, d: Linked)
    requires |ps| == 2 && Erase(doc) == v
    requires LinkedPatch.ApplyPatch(doc, ps[0]) == LinkedPatch.Ran(0, d) && Patch.ApplyPatch(v, ps[0]) == Applied(0, Erase(d))
    ensures LinkedPatch.ApplyPatch(d, ps[1]) == LinkedPatch.Tangled ==> LinkedPatch.ApplyAll(doc, ps) == LinkedPatch.Tangled
    ensures var r := Patch.ApplyPatch(Erase(d), ps[1]);
      r.Applied? && r.code == 0 ==> Patch.ApplyAll(v, ps).Applied? && Patch.ApplyAll(v, ps).code == 0
  {
    hide LinkedPatch.ApplyPatch, Patch.ApplyPatch, Erase;
    assert ps[1..] == [ps[1]] && ps[1..][1..] == [];
    assert Patch.ApplyAll(Erase(d), ps[1..]) == match Patch.ApplyPatch(Erase(d), ps[1])
      case Undefined => Undefined
      case Applied(code, e) => if code != 0 then Applied(code, e) else Patch.ApplyAll(e, []);
    assert LinkedPatch.ApplyAll(d, ps[1..]) == match LinkedPatch.ApplyPatch(d, ps[1])
      case Ran(0, e) => LinkedPatch.ApplyAll(e, [])
      case r => r;
  }

  /** A "test" that succeeds sorts the document; then removing what comes first now follows the old
      link, while the values alone would say that the member is simply gone. */
  lemma TestThenRemove(v: Json, ps: seq<Json>)
    requires v == Object([Entry("b", Number(1)), Entry("a", Number(2))])
    requires ps == [PatchObject("test", "", Some(v)), PatchObject("remove", "/a", None)]
    ensures LinkedPatch.ApplyAll(Fresh(v), ps) == LinkedPatch.Tangled
    ensures var r := Patch.ApplyAll(v, ps); r.Applied? && r.code == 0
  {
    hide *;
    var d := Members([Entry("a", Leaf(Number(2))), Entry("b", Leaf(Number(1)))], true);
    TestSorts(v);
    RemoveTangles(d);
    RunTwo(Fresh(v), v, ps, d);
  }

  lemma HeadDisplaced(from: Json, to: Json)
    requires from == Object([Entry("b", Number(1)), Entry("a", Number(2))]) && to == Object([Entry("b", Number(1))])
    ensures Displaces(Fresh(from), to)
  {
    var f := Fresh(from);
    TwoNamed(from);
    SortTwo(f.members);
    assert !FirstIsLeast(f.members) by { assert !Before(f.members[0], f.members[1]); }
    assert Sort(to.members) == to.members;
    assert LowerName("b") != LowerName("a") by { CaseOrderZero("b", "a"); }
    var fs := Sort(f.members);
    assert FindName(to.members, "a") == 1;
    assert MemberDisplaces(OldHead(f.members, false), fs[0], to.members) by { hide LowerName, Sort; }
    hide MemberDisplaces, OldHead, Sort, LowerName, CaseOrder, FindName, FirstIsLeast;
    assert fs[0] in f.members;
  }

  /** Generating from {"b": 1, "a": 2} to {"b": 1} sorts the first tree; removing "a" from it then
      follows the old link. */
  lemma RemoveHeadOnItself(from: Json, to: Json)
    requires from == Object([Entry("b", Number(1)), Entry("a", Number(2))]) && to == Object([Entry("b", Number(1))])
    ensures LinkedPatch.ApplyPatches(Left(Fresh(from), to), GeneratePatches(from, to)) == LinkedPatch.Tangled
  {
    hide *;
    HeadDisplaced(from, to);
    TwoNamed(from);
    TwoRootsFit(from, to);
    PatchesOnItself(Fresh(from), to);
  }

  lemma TwoRootsFit(from: Json, to: Json)
    requires from.Object? && to == Object([Entry("b", Number(1))])
    ensures RootFits(Meaning(from), Meaning(to)) && WellNamed(to)
  {
  }
}
