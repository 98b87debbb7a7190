/** Runs without "move" on trees whose old links are tied, and generated patches applied to the very tree they
    were generated from: there the runs on marked trees say exactly what the nodes do. */
module NodeRuns {
  import opened Json
  import opened Compare
  import opened Pointer
  import Patch
  import opened PatchMeaning
  import opened DiffProof
  import opened DiffExact
  import opened OldLinks
  import opened LinkedDiff
  import opened LinkedExact
  import opened NodeTrees
  import opened NodePatch
  import opened NodeLinks
  import opened NodeSorting
  import LinkedPatch

  // ----- runs without "move"

  lemma SoundResorted(doc: Cell, n: nat, loc: Loc, u: Cell)
    requires Sound(doc, n) && ValidLoc(Value(doc), loc) && Resorted(CellAt(doc, loc), u)
    ensures Sound(SetCell(doc, loc, u), n)
  {
    hide *;
    var node, d := CellAt(doc, loc), SetCell(doc, loc, u);
    SoundIs(doc, n);
    UniqueAt(doc, loc);
    BelowNext(doc, n);
    UnderPart(doc, node, n);
    ResortedId(node, u);
    ResortedUnique(node, u);
    forall x: nat ensures Has(u, x) <==> Has(node, x) { ResortedHas(node, u, x); }
    forall x: nat ensures Has(d, x) <==> Has(u, x) || (Has(doc, x) && !Has(node, x)) { EditHas(doc, loc, u, x); }
    LiveFewer(doc, d, n);
    TiedAt(doc, loc, Live(doc), n);
    ResortedTied(node, u, Live(doc), n);
    TiedFewer(u, Live(doc), Live(d), n, n);
    SoundEdit(doc, n, loc, u, n);
  }

  lemma LeftSound(f: Cell, n: nat, b: Json)
    requires Sound(f, n)
    ensures Sound(LeftCell(f, b), n)
  {
    LeftResorted(f, b);
    assert ValidLoc(Value(f), []) && CellAt(f, []) == f && SetCell(f, [], LeftCell(f, b)) == LeftCell(f, b);
    hide *;
    SoundResorted(f, n, [], LeftCell(f, b));
  }

  /** The run on nodes and the run on marks do the same. */
  ghost predicate Matches(r: NodeRun, s: LinkedPatch.Run) {
    match r
    case Ran(code, doc, n) => s == LinkedPatch.Ran(code, Marks(doc)) && Sound(doc, n)
    case Astray => s == LinkedPatch.Astray
    case Tangled => s == LinkedPatch.Tangled
  }

  lemma DetachMatches(doc: Cell, n: nat, path: string)
    requires Sound(doc, n)
    ensures match PatchDetach(doc, path)
      case NoPath => LinkedPatch.PatchDetach(Marks(doc), path) == LinkedPatch.NoPath
      case Broken => LinkedPatch.PatchDetach(Marks(doc), path) == LinkedPatch.Loop
      case Taken(doc', item) => LinkedPatch.PatchDetach(Marks(doc), path) == LinkedPatch.Taken(Marks(doc'), MarkOption(item)) && Sound(doc', n)
  {
    hide Erase, Marks, Resolve, DetachPart, LinkedPatch.DetachKid, Patch.SplitPath, CellAt, SetCell, NodeAt, PutAt, Breaks,
      LinkedPatch.HitsOldLink, Sound;
    if Patch.SplitPath(path).Some? {
      var (parent, name) := Patch.SplitPath(path).value;
      ResolveIsValid(Value(doc), parent);
      var r := Resolve(Value(doc), parent);
      if r.Some? {
        ThroughIsHarm(doc, n, r.value, name);
        DetachPartMarks(CellAt(doc, r.value), name);
        if !LinkedPatch.HitsOldLink(Marks(CellAt(doc, r.value)), name) { DetachSound(doc, n, r.value, name); }
      }
    }
  }

  lemma SoundUp(doc: Cell, n: nat, m: nat)
    requires Sound(doc, n) && n <= m
    ensures Sound(doc, m)
  {
    SoundIs(doc, n);
    BelowNext(doc, n);
    TiedUp(doc, Live(doc), n, m);
    hide Unique, Tied, Live, Has;
  }

  lemma PutMatches(doc: Cell, n: nat, m: nat, path: string, v: Cell)
    requires Sound(doc, n) && n <= m && Unique(v) && Within(v, n, m) && Clean(Marks(v))
    ensures Matches(PatchAdd(doc, m, path, v, None), LinkedPatch.PatchAdd(Marks(doc), path, Marks(v)))
  {
    hide Erase, Marks, Resolve, AddPart, LinkedPatch.AddKid, Patch.SplitPath, CellAt, SetCell, NodeAt, PutAt, Breaks,
      LinkedPatch.HitsOldLink, Sound, Unique, Within, Clean;
    SoundUp(doc, n, m);
    if Patch.SplitPath(path).Some? {
      var (parent, name) := Patch.SplitPath(path).value;
      ResolveIsValid(Value(doc), parent);
      var r := Resolve(Value(doc), parent);
      if r.Some? {
        ThroughIsHarm(doc, n, r.value, name);
        AddPartMarks(CellAt(doc, r.value), name, v);
        if !LinkedPatch.HitsOldLink(Marks(CellAt(doc, r.value)), name) { AddSound(doc, n, r.value, name, v, m); }
      }
    }
  }

  lemma CopyMatches(doc: Cell, n: nat, path: string, v: Json)
    requires Sound(doc, n)
    ensures Matches(AddCopy(doc, n, path, v), LinkedPatch.PatchAdd(Marks(doc), path, Fresh(v)))
  {
    var (c, m) := Label(v, n);
    assert AddCopy(doc, n, path, v) == PatchAdd(doc, m, path, c, None);
    hide *;
    LabelSound(v, n);
    FreshIsClean(v);
    PutMatches(doc, n, m, path, c);
  }

  lemma TestMatches(doc: Cell, n: nat, path: Json, value: Option<Json>)
    requires Sound(doc, n)
    ensures Matches(ApplyTest(doc, n, path, value), LinkedPatch.ApplyTest(Marks(doc), path, value))
  {
    hide Erase, Marks, Resolve, CellAt, SetCell, NodeAt, PutAt, VisitedCell, Visited, Comparison, Sound;
    if path.String? && value.Some? {
      ResolveIsValid(Value(doc), path.s);
      var r := Resolve(Value(doc), path.s);
      if r.Some? {
        var node := CellAt(doc, r.value);
        VisitedMarks(node, value.value);
        VisitedResorted(node, value.value);
        SoundResorted(doc, n, r.value, VisitedCell(node, value.value));
      }
    }
  }

  lemma AddOpMatches(doc: Cell, n: nat, path: Json, value: Option<Json>)
    requires Sound(doc, n)
    ensures Matches(ApplyAdd(doc, n, path, value), LinkedPatch.ApplyAdd(Marks(doc), path, value))
  {
    hide Marks, Sound, AddCopy, LinkedPatch.PatchAdd, Fresh;
    if path.String? && value.Some? { CopyMatches(doc, n, path.s, value.value); }
  }

  lemma RemoveOpMatches(doc: Cell, n: nat, path: Json)
    requires Sound(doc, n)
    ensures Matches(ApplyRemove(doc, n, path), LinkedPatch.ApplyRemove(Marks(doc), path))
  {
    hide Marks, Sound, PatchDetach, LinkedPatch.PatchDetach;
    if path.String? { DetachMatches(doc, n, path.s); }
  }

  lemma ReplaceOpMatches(doc: Cell, n: nat, path: Json, value: Option<Json>)
    requires Sound(doc, n)
    ensures Matches(ApplyReplace(doc, n, path, value), LinkedPatch.ApplyReplace(Marks(doc), path, value))
  {
    hide Marks, Sound, PatchDetach, LinkedPatch.PatchDetach, ApplyAdd, LinkedPatch.ApplyAdd;
    if path.String? {
      DetachMatches(doc, n, path.s);
      var d := PatchDetach(doc, path.s);
      if d.Taken? { AddOpMatches(d.doc, n, path, value); }
    }
  }

  lemma CopyOpMatches(doc: Cell, n: nat, path: Json, from: Option<Json>)
    requires Sound(doc, n)
    ensures Matches(ApplyCopy(doc, n, path, from), LinkedPatch.ApplyCopy(Marks(doc), path, from))
  {
    hide Marks, Erase, Sound, Resolve, CellAt, NodeAt, AddCopy, LinkedPatch.PatchAdd, Fresh;
    if from.Some? && from.value.String? {
      ResolveIsValid(Value(doc), from.value.s);
      var r := Resolve(Value(doc), from.value.s);
      if r.Some? && path.String? { CopyMatches(doc, n, path.s, Value(CellAt(doc, r.value))); }
    }
  }

  lemma StepMatches(doc: Cell, n: nat, patch: Json)
    requires Sound(doc, n) && LinkedPatch.PathOf(patch, "op") != Some("move")
    ensures Matches(ApplyPatch(doc, n, patch), LinkedPatch.ApplyPatch(Marks(doc), patch))
  {
    hide Patch.GetItem, Marks, Sound, ApplyAdd, ApplyRemove, ApplyReplace, ApplyMove, ApplyCopy, ApplyTest, LinkedPatch.ApplyAdd,
      LinkedPatch.ApplyRemove, LinkedPatch.ApplyReplace, LinkedPatch.ApplyMove, LinkedPatch.ApplyCopy, LinkedPatch.ApplyTest;
    var op, path := Patch.GetItem(patch, "op"), Patch.GetItem(patch, "path");
    var value, from := Patch.GetItem(patch, "value"), Patch.GetItem(patch, "from");
    if op.Some? && path.Some? && op.value.String? {
      if op.value.s == "add" { AddOpMatches(doc, n, path.value, value); }
      else if op.value.s == "remove" { RemoveOpMatches(doc, n, path.value); }
      else if op.value.s == "replace" { ReplaceOpMatches(doc, n, path.value, value); }
      else if op.value.s == "copy" { CopyOpMatches(doc, n, path.value, from); }
      else if op.value.s == "test" { TestMatches(doc, n, path.value, value); }
    }
  }

  /** As long as nothing is moved, the runs on marked trees are the runs on nodes: going through an old
      link always breaks the document. */
  lemma {:induction false} RunMatches(doc: Cell, n: nat, ps: seq<Json>)
    requires Sound(doc, n) && forall p :: p in ps ==> LinkedPatch.PathOf(p, "op") != Some("move")
    ensures Matches(ApplyAll(doc, n, ps), LinkedPatch.ApplyAll(Marks(doc), ps))
    decreases |ps|
  {
    if ps != [] {
      assert ps[0] in ps;
      StepMatches(doc, n, ps[0]);
      hide ApplyPatch, LinkedPatch.ApplyPatch, LinkedPatch.PathOf, Marks, Sound;
      var r := ApplyPatch(doc, n, ps[0]);
      if r.Ran? && r.code == 0 { RunMatches(r.doc, r.next, ps[1..]); }
    }
  }

  // ----- the main results

  lemma EditsMoveNothing(ps: seq<Json>)
    requires OnlyEdits(ps)
    ensures forall p :: p in ps ==> LinkedPatch.PathOf(p, "op") != Some("move")
  {
    hide LinkedPatch.PathOf;
  }

  lemma GeneratedRun(doc: Cell, n: nat, from: Json, to: Json)
    ensures ApplyPatches(doc, n, Patch.GeneratePatches(from, to)) == ApplyAll(doc, n, Patch.Diff("", from, to))
    ensures LinkedPatch.ApplyPatches(Marks(doc), Patch.GeneratePatches(from, to)) == LinkedPatch.ApplyAll(Marks(doc), Patch.Diff("", from, to))
  {
    hide ApplyAll, LinkedPatch.ApplyAll, Patch.Diff, Marks;
  }

  /** The patches applied to the tree they were generated from, as generating leaves it. Whatever old links
      it held before, as long as they were tied: the patches succeed and give a tree that compares equal to
      `to` exactly when the roots fit, no compared array shrinks by more than one, and no member that
      holds an old link after generating is removed or replaced. */
  lemma PatchesOnOwnTree(f: Cell, n: nat, to: Json)
    requires Sound(f, n) && WellNamed(Value(f)) && WellNamed(to)
    ensures var r := ApplyPatches(LeftCell(f, to), n, Patch.GeneratePatches(Value(f), to));
      (r.Ran? && r.code == 0 && Comparison(Value(r.doc), to).code == 0) <==>
      RootFits(Meaning(Value(f)), Meaning(to)) && ShrinksByAtMostOne(Meaning(Value(f)), Meaning(to)) && !Displaces(Marks(f), to)
  {
    ValueIs(f);
    hide *;
    var doc, ps := LeftCell(f, to), Patch.Diff("", Value(f), to);
    LeftMarks(f, to);
    LeftSound(f, n, to);
    OnlyEditsDiff("", Value(f), to);
    EditsMoveNothing(ps);
    RunMatches(doc, n, ps);
    GeneratedRun(doc, n, Value(f), to);
    PatchesReachTargetOnItself(Marks(f), to);
    MatchesIs(ApplyAll(doc, n, ps), LinkedPatch.ApplyAll(Left(Marks(f), to), ps));
  }

  lemma ValueIs(c: Cell)
    ensures Value(c) == Erase(Marks(c))
  {
  }

  lemma MatchesIs(r: NodeRun, s: LinkedPatch.Run)
    requires Matches(r, s)
    ensures r.Ran? <==> s.Ran?
    ensures r.Ran? ==> s.code == r.code && Erase(s.doc) == Value(r.doc)
  {
    hide Sound, Marks, Erase;
  }

  /** A tree out of new nodes is sound; so is what a run without "move" makes of it. */
  lemma NewIsSound(v: Json, n: nat)
    ensures var (c, m) := Label(v, n); Sound(c, m)
  {
    var (c, m) := Label(v, n);
    LabelSound(v, n);
    FreshIsClean(v);
    CleanTied(c, Live(c), m);
    hide Unique, Has, Tied, Live, Marks, Fresh, Label;
  }

  // ----- a move that makes an old link harmless

  lemma Letters()
    ensures Patch.SplitPath("/a") == Some(("", "a")) && Patch.SplitPath("/b") == Some(("", "b"))
  {
    DecodePlain("a");
    DecodePlain("b");
    assert Patch.LastSlash("/a") == Some(0) by { assert "/a"[..1] == "/"; }
    assert Patch.LastSlash("/b") == Some(0) by { assert "/b"[..1] == "/"; }
    assert "/a"[1..] == "a" && "/a"[..0] == "" && "/b"[1..] == "b" && "/b"[..0] == "";
  }

  /** A member of the root is taken out. */
  lemma RootDetach(c: Cell, path: string, name: string)
    requires Patch.SplitPath(path) == Some(("", name)) && !Breaks(c, name, c, None)
    ensures PatchDetach(c, path) == Taken(DetachPart(c, name).0, DetachPart(c, name).1)
  {
    assert Resolve(Value(c), "") == Some([]);
    hide Patch.SplitPath, Marks, Erase, Resolve, DetachPart, Breaks;
  }

  lemma RootAdd(c: Cell, n: nat, path: string, name: string, v: Cell, hand: Option<Cell>)
    requires Patch.SplitPath(path) == Some(("", name)) && !Breaks(c, name, c, hand)
    ensures PatchAdd(c, n, path, v, hand) == Ran(0, AddPart(c, name, v), n)
  {
    assert Resolve(Value(c), "") == Some([]);
    hide Patch.SplitPath, Marks, Erase, Resolve, AddPart, Breaks;
  }

  lemma MoveIs(doc: Cell, n: nat, patch: Json, path: Json, from: Json)
    requires Patch.GetItem(patch, "op") == Some(String("move"))
    requires Patch.GetItem(patch, "path") == Some(path) && Patch.GetItem(patch, "from") == Some(from)
    ensures ApplyPatch(doc, n, patch) == ApplyMove(doc, n, path, Some(from))
    ensures LinkedPatch.ApplyPatch(Marks(doc), patch) == LinkedPatch.ApplyMove(Marks(doc), path, Some(from))
  {
    hide Patch.GetItem, ApplyMove, LinkedPatch.ApplyMove, Marks;
  }

  lemma DetachSecond(doc: Cell, left: Cell, b: Cell)
    requires doc == Record(0, [Entry("a", Plain(2, Number(2))), Entry("b", Plain(1, Number(1)))], Some(1))
    requires left == Record(0, [Entry("a", Plain(2, Number(2)))], Some(1)) && b == Plain(1, Number(1))
    ensures DetachPart(doc, "b") == (left, Some(b)) && !Breaks(doc, "b", doc, None) && !LinkedPatch.HitsOldLink(Marks(doc), "b")
  {
    TwoMembersFound(Plain(2, Number(2)), b);
    MarkFinds(doc.members, "b");
    assert Without(doc.members, 1) == [doc.members[0]];
    hide FindName, MarkMembers, LastIn;
  }

  lemma PutOnHead(left: Cell, b: Cell)
    requires left == Record(0, [Entry("a", Plain(2, Number(2)))], Some(1)) && b == Plain(1, Number(1))
    ensures AddPart(left, "a", b) == Record(0, [Entry("a", b)], None) && !Breaks(left, "a", left, Some(b))
    ensures LinkedPatch.HitsOldLink(Marks(left), "a")
  {
    TwoMembersFound(Plain(2, Number(2)), b);
    MarkFinds(left.members, "a");
    assert Without(left.members, 0) == [];
    assert LastIn(b, 1);
    hide FindName, MarkMembers, LastIn;
  }

  lemma MovedTo(doc: Cell, n: nat, left: Cell, b: Cell)
    requires PatchDetach(doc, "/b") == Taken(left, Some(b))
    ensures ApplyMove(doc, n, String("/a"), Some(String("/b"))) == PatchAdd(left, n, "/a", b, Some(b))
  {
    hide PatchDetach, PatchAdd;
  }

  /** {"a": 2, "b": 1} as a "test" leaves it: "a" comes first and points back to "b". Moving "b" onto "a"
      detaches "a" when it is alone and "b" stands alone too, so the write through the old link stores a
      null where a null was. On marked trees this counts as going through an old link. */
  lemma MoveOntoHead(doc: Cell, n: nat, patch: Json)
    requires doc == Record(0, [Entry("a", Plain(2, Number(2))), Entry("b", Plain(1, Number(1)))], Some(1))
    requires Patch.GetItem(patch, "op") == Some(String("move"))
    requires Patch.GetItem(patch, "path") == Some(String("/a")) && Patch.GetItem(patch, "from") == Some(String("/b"))
    ensures ApplyPatch(doc, n, patch) == Ran(0, Record(0, [Entry("a", Plain(1, Number(1)))], None), n)
    ensures LinkedPatch.ApplyPatch(Marks(doc), patch) == LinkedPatch.Tangled
  {
    var left := Record(0, [Entry("a", Plain(2, Number(2)))], Some(1));
    var b := Plain(1, Number(1));
    hide *;
    Letters();
    DetachSecond(doc, left, b);
    PutOnHead(left, b);
    MoveIs(doc, n, patch, String("/a"), String("/b"));
    RootDetach(doc, "/b", "b");
    RootAdd(left, n, "/a", "a", b, Some(b));
    MovedTo(doc, n, left, b);
    MarksHit(doc, left, b);
  }

  lemma TwoMembersFound(a: Cell, b: Cell)
    ensures FindName([Entry("a", a), Entry("b", b)], "b") == 1 && FindName([Entry("a", a)], "a") == 0
  {
    assert [Entry("a", a), Entry("b", b)][1..] == [Entry("b", b)];
    assert CaseOrder("a", "b") != 0;
  }

  lemma MarksHit(doc: Cell, left: Cell, b: Cell)
    requires Patch.SplitPath("/a") == Some(("", "a")) && Patch.SplitPath("/b") == Some(("", "b"))
    requires DetachPart(doc, "b") == (left, Some(b)) && LinkedPatch.HitsOldLink(Marks(left), "a")
    requires !LinkedPatch.HitsOldLink(Marks(doc), "b")
    ensures LinkedPatch.ApplyMove(Marks(doc), String("/a"), Some(String("/b"))) == LinkedPatch.Tangled
  {
    DetachPartMarks(doc, "b");
    assert Resolve(Value(doc), "") == Some([]) && Resolve(Value(left), "") == Some([]);
    hide DetachPart, Marks, LinkedPatch.HitsOldLink, Patch.SplitPath, LinkedPatch.DetachKid, Erase, Resolve;
  }
}
