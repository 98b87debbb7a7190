/** Applying the patches generated from two trees: what comes out, for all trees, and
    exactly when that is the second tree. */
module DiffProof {
  import opened Json
  import opened Numerals
  import opened Sorting
  import opened Compare
  import opened Pointer
  import opened Patch
  import opened PatchMeaning

  // ----- what the generated patches turn one meaning into

  /** The items at odd positions: those that ascending "remove" indices leave behind. */
  ghost function Odds(s: seq<Val>): seq<Val> {
    if |s| < 2 then [] else [s[1]] + Odds(s[2..])
  }

  ghost function Outcome(f: Val, t: Val): Val
    decreases t, 1, 0
  {
    match t
    case VArray(ys) =>
      if f.VArray? then VArray(OutcomeItems(f.items, ys)) else t
    case VObject(tm) =>
      if !f.VObject? then t
      else VObject(map k | k in tm :: if k in f.fields then Outcome(f.fields[k], tm[k]) else tm[k])
    case _ => t
  }

  ghost function OutcomeItems(xs: seq<Val>, ys: seq<Val>): seq<Val>
    decreases ys, 0, 0
  {
    if ys == [] then Odds(xs)
    else if xs == [] then ys
    else [Outcome(xs[0], ys[0])] + OutcomeItems(xs[1..], ys[1..])
  }

  // ----- lists of patches

  lemma {:induction false} ApplyAllAppend(doc: Json, ps: seq<Json>, qs: seq<Json>)
    ensures var r := ApplyAll(doc, ps);
            ApplyAll(doc, ps + qs) == if r.Applied? && r.code == 0 then ApplyAll(r.doc, qs) else r
    decreases ps
  {
    hide ApplyPatch;
    if ps == [] {
      assert ps + qs == qs;
    } else {
      assert (ps + qs)[1..] == ps[1..] + qs;
      var r := ApplyPatch(doc, ps[0]);
      if r.Applied? && r.code == 0 {
        ApplyAllAppend(r.doc, ps[1..], qs);
      }
    }
  }

  lemma ApplyOne(doc: Json, p: Json)
    ensures ApplyAll(doc, [p]) == ApplyPatch(doc, p)
  {
    hide ApplyPatch;
    var r := ApplyPatch(doc, p);
    assert r.Applied? && r.code == 0 ==> ApplyAll(r.doc, [p][1..]) == r;
  }

  /** A change to `w1` followed by a change to `w2` at one place is the change to `w2`. */
  lemma ChangedTwice(doc: Json, ts: seq<Token>, ps: seq<Json>, w1: Val, qs: seq<Json>, w2: Val)
    requires HasPath(Meaning(doc), ts) && Changed(doc, ts, w1, ApplyAll(doc, ps))
    requires var mid := ApplyAll(doc, ps).doc;
             HasPath(Meaning(mid), ts) ==> Changed(mid, ts, w2, ApplyAll(mid, qs))
    ensures Changed(doc, ts, w2, ApplyAll(doc, ps + qs))
  {
    hide ApplyAll;
    ApplyAllAppend(doc, ps, qs);
    PutGet(Meaning(doc), ts, w1);
  }

  // ----- the tail of an array

  /** A list after items were removed at indices that go up from `c`. */
  ghost function RemoveRun(s: seq<Val>, c: nat, count: nat): seq<Val>
    decreases count
  {
    if count == 0 then s
    else RemoveRun(if c < |s| then Without(s, c) else s, c + 1, count - 1)
  }

  lemma {:induction false} RemoveRunPast(s: seq<Val>, c: nat, count: nat)
    requires c >= |s|
    ensures RemoveRun(s, c, count) == s
    decreases count
  {
    if count > 0 { RemoveRunPast(s, c + 1, count - 1); }
  }

  lemma WithoutAt<T>(done: seq<T>, tail: seq<T>)
    requires tail != []
    ensures Without(done + tail, |done|) == done + tail[1..]
  {
  }

  lemma ShiftOne<T>(done: seq<T>, tail: seq<T>)
    requires tail != []
    ensures done + tail == (done + [tail[0]]) + tail[1..]
  {
  }

  lemma RemoveRunStep(done: seq<Val>, tail: seq<Val>, count: nat)
    requires tail != [] && count > 0
    ensures RemoveRun(done + tail, |done|, count) == RemoveRun(done + tail[1..], |done| + 1, count - 1)
  {
    WithoutAt(done, tail);
    hide Without;
  }

  lemma OddsStep(done: seq<Val>, tail: seq<Val>)
    requires |tail| > 1
    ensures done + Odds(tail) == (done + [tail[1]]) + Odds(tail[2..])
  {
  }

  /** Removing at rising indices removes every other item. */
  lemma {:induction false} RemoveRunLeavesOdds(done: seq<Val>, tail: seq<Val>, count: nat)
    requires count >= |tail|
    ensures RemoveRun(done + tail, |done|, count) == done + Odds(tail)
    decreases |tail|
  {
    if tail == [] {
      RemoveRunPast(done + tail, |done|, count);
    } else {
      RemoveRunStep(done, tail, count);
      if |tail| == 1 {
        RemoveRunPast(done + tail[1..], |done| + 1, count - 1);
      } else {
        hide RemoveRun, Odds;
        OddsStep(done, tail);
        ShiftOne(done, tail[1..]);
        assert tail[1..][1..] == tail[2..];
        RemoveRunLeavesOdds(done + [tail[1]], tail[2..], count - 1);
      }
    }
  }

  /** `doc` has the value `v` at `ts`. */
  ghost predicate HasValue(doc: Json, ts: seq<Token>, v: Val) {
    WellNamed(doc) && HasPath(Meaning(doc), ts) && Get(Meaning(doc), ts) == v
  }

  lemma ChangedHas(doc: Json, ts: seq<Token>, v: Val, r: Applied)
    requires HasPath(Meaning(doc), ts) && Changed(doc, ts, v, r)
    ensures r.Applied? && HasValue(r.doc, ts, v)
  {
    PutGet(Meaning(doc), ts, v);
  }

  lemma RemoveIndex(doc: Json, ts: seq<Token>, s: seq<Val>, c: nat)
    requires HasValue(doc, ts, VArray(s))
    ensures Changed(doc, ts, VArray(if c < |s| then Without(s, c) else s),
                    ApplyAll(doc, [PatchObject("remove", PathText(ts) + "/" + Encode(Digits(c)), None)]))
  {
    hide ApplyPatch, ApplyAll, PatchObject, Encode, Digits, Get, Put, HasPath, PathText, SplitPath, Meaning, WellNamed;
    SplitPathText(ts, Index(c));
    RemoveMeaning(doc, ts, Index(c));
    ApplyOne(doc, PatchObject("remove", PathText(ts + [Index(c)]), None));
  }

  lemma RemoveFirst(path: string, s: seq<Val>, c: nat, count: nat)
    requires count > 0
    ensures RemovePatches(path, c, count)
         == [PatchObject("remove", path + "/" + Encode(Digits(c)), None)] + RemovePatches(path, c + 1, count - 1)
    ensures RemoveRun(s, c, count) == RemoveRun(if c < |s| then Without(s, c) else s, c + 1, count - 1)
  {
    hide PatchObject, Encode, Digits, Without;
  }

  lemma RemoveNone(doc: Json, ts: seq<Token>, s: seq<Val>, c: nat)
    requires HasValue(doc, ts, VArray(s))
    ensures HasPath(Meaning(doc), ts)
    ensures Changed(doc, ts, VArray(RemoveRun(s, c, 0)), ApplyAll(doc, RemovePatches(PathText(ts), c, 0)))
  {
    PutSame(Meaning(doc), ts);
  }

  lemma {:induction false} RemovePatchesApply(doc: Json, ts: seq<Token>, s: seq<Val>, c: nat, count: nat)
    requires HasValue(doc, ts, VArray(s))
    ensures Changed(doc, ts, VArray(RemoveRun(s, c, count)), ApplyAll(doc, RemovePatches(PathText(ts), c, count)))
    decreases count
  {
    hide *;
    ValueHas(doc, ts, VArray(s));
    if count == 0 {
      RemoveNone(doc, ts, s, c);
    } else {
      var s' := if c < |s| then Without(s, c) else s;
      var ps := [PatchObject("remove", PathText(ts) + "/" + Encode(Digits(c)), None)];
      RemoveFirst(PathText(ts), s, c, count);
      RemoveIndex(doc, ts, s, c);
      ChangedHas(doc, ts, VArray(s'), ApplyAll(doc, ps));
      var mid := ApplyAll(doc, ps).doc;
      RemovePatchesApply(mid, ts, s', c + 1, count - 1);
      ChangedTwice(doc, ts, ps, VArray(s'), RemovePatches(PathText(ts), c + 1, count - 1), VArray(RemoveRun(s, c, count)));
    }
  }

  lemma AppendItem(doc: Json, ts: seq<Token>, s: seq<Val>, y: Json)
    requires HasValue(doc, ts, VArray(s)) && WellNamed(y)
    ensures Changed(doc, ts, VArray(s + [Meaning(y)]),
                    ApplyAll(doc, [PatchObject("add", PathText(ts) + "/" + Encode("-"), Some(y))]))
  {
    hide ApplyPatch, ApplyAll, PatchObject, Encode, Digits, Get, Put, HasPath, PathText, SplitPath, Meaning, WellNamed;
    SplitPathText(ts, End);
    AddMeaning(doc, ts, End, y);
    ApplyOne(doc, PatchObject("add", PathText(ts + [End]), Some(y)));
  }

  lemma {:induction false} AddPatchesApply(doc: Json, ts: seq<Token>, s: seq<Val>, ys: seq<Json>)
    requires HasValue(doc, ts, VArray(s))
    requires forall y | y in ys :: WellNamed(y)
    ensures Changed(doc, ts, VArray(s + Meanings(ys)), ApplyAll(doc, AddPatches(PathText(ts), ys)))
    decreases |ys|
  {
    if ys == [] {
      assert s + Meanings(ys) == s;
      PutSame(Meaning(doc), ts);
    } else {
      MeaningsHead(ys);
      hide ApplyAll, PatchObject, Encode, Digits, Get, Put, HasPath, PathText, Meaning, Meanings, WellNamed;
      var s' := s + [Meaning(ys[0])];
      assert s + Meanings(ys) == s' + Meanings(ys[1..]);
      AppendItem(doc, ts, s, ys[0]);
      var ps := [PatchObject("add", PathText(ts) + "/" + Encode("-"), Some(ys[0]))];
      var mid := ApplyAll(doc, ps).doc;
      hide Changed, HasValue;
      ChangedHas(doc, ts, VArray(s'), ApplyAll(doc, ps));
      AddPatchesApply(mid, ts, s', ys[1..]);
      ChangedTwice(doc, ts, ps, VArray(s'), AddPatches(PathText(ts), ys[1..]), VArray(s + Meanings(ys)));
    }
  }

  // ----- members of an object

  ghost function Join(fm: map<string, Val>, tm: map<string, Val>): map<string, Val> {
    Outcome(VObject(fm), VObject(tm)).fields
  }

  lemma JoinBoth(done: map<string, Val>, fm: map<string, Val>, tm: map<string, Val>, k: string)
    requires k in fm && k in tm && k !in done
    ensures done + Join(fm, tm) == done[k := Outcome(fm[k], tm[k])] + Join(fm - {k}, tm - {k})
  {
  }

  lemma JoinRemove(fm: map<string, Val>, tm: map<string, Val>, k: string)
    requires k !in tm
    ensures Join(fm, tm) == Join(fm - {k}, tm)
  {
  }

  lemma JoinAdd(done: map<string, Val>, fm: map<string, Val>, tm: map<string, Val>, k: string)
    requires k in tm && k !in fm && k !in done
    ensures done + Join(fm, tm) == done[k := tm[k]] + Join(fm, tm - {k})
  {
  }

  lemma RemoveNamed(doc: Json, ts: seq<Token>, m: map<string, Val>, name: string)
    requires HasValue(doc, ts, VObject(m))
    ensures Changed(doc, ts, VObject(m - {LowerName(name)}),
                    ApplyAll(doc, [PatchObject("remove", PathText(ts) + "/" + Encode(name), None)]))
  {
    hide ApplyPatch, ApplyAll, PatchObject, Encode, Get, Put, HasPath, PathText, SplitPath, Meaning, WellNamed;
    SplitPathText(ts, Name(name));
    RemoveMeaning(doc, ts, Name(name));
    ApplyOne(doc, PatchObject("remove", PathText(ts + [Name(name)]), None));
  }

  lemma AddNamed(doc: Json, ts: seq<Token>, m: map<string, Val>, name: string, y: Json)
    requires HasValue(doc, ts, VObject(m)) && WellNamed(y)
    ensures Changed(doc, ts, VObject(m[LowerName(name) := Meaning(y)]),
                    ApplyAll(doc, [PatchObject("add", PathText(ts) + "/" + Encode(name), Some(y))]))
  {
    hide ApplyPatch, ApplyAll, PatchObject, Encode, Get, Put, HasPath, PathText, SplitPath, Meaning, WellNamed;
    SplitPathText(ts, Name(name));
    AddMeaning(doc, ts, Name(name), y);
    ApplyOne(doc, PatchObject("add", PathText(ts + [Name(name)]), Some(y)));
  }

  lemma HeadFields(es: seq<Entry<Json>>)
    requires es != [] && StrictlyOrdered(es) && WellNamedMembers(es)
    ensures LowerName(es[0].name) in Fields(es)
    ensures Fields(es)[LowerName(es[0].name)] == Meaning(es[0].item)
    ensures Fields(es[1..]) == Fields(es) - {LowerName(es[0].name)}
    ensures StrictlyOrdered(es[1..]) && WellNamedMembers(es[1..]) && WellNamed(es[0].item)
  {
    hide Fields, Meaning, CaseOrder, LowerName;
    OrderedFields(es);
    StrictlyOrderedTail(es);
    WellNamedTail(es);
  }

  // ----- the induction over both trees

  /** Pairs of trees for which no patch with the empty path is generated. */
  ghost predicate RootFits(f: Val, t: Val) {
    f == t || (f.VArray? && t.VArray?) || (f.VObject? && t.VObject?)
  }

  lemma ReplaceAt(doc: Json, ts: seq<Token>, from: Json, to: Json)
    requires ts != [] && HasValue(doc, ts, Meaning(from)) && WellNamed(to)
    ensures Changed(doc, ts, Meaning(to), ApplyAll(doc, [PatchObject("replace", PathText(ts), Some(to))]))
  {
    var front, last := ts[..|ts| - 1], ts[|ts| - 1];
    assert ts == front + [last];
    PathSplit(Meaning(doc), front, last);
    ReplaceMeaning(doc, front, last, to);
    ApplyOne(doc, PatchObject("replace", PathText(ts), Some(to)));
  }

  lemma {:induction false} PathSplit(v: Val, ts: seq<Token>, t: Token)
    requires HasPath(v, ts + [t])
    ensures HasPath(v, ts) && HasStep(Get(v, ts), t)
    decreases |ts|
  {
    if ts == [] {
      assert ts + [t] == [t];
    } else {
      assert (ts + [t])[1..] == ts[1..] + [t];
      PathSplit(Step(v, ts[0]), ts[1..], t);
    }
  }

  /** For every place in every document: the patches generated for the value there turn it
      into the outcome, and leave everything else alone. */
  lemma {:induction false} DiffApplies(doc: Json, ts: seq<Token>, from: Json, to: Json)
    requires WellNamed(from) && WellNamed(to) && HasValue(doc, ts, Meaning(from))
    requires ts != [] || RootFits(Meaning(from), Meaning(to))
    ensures Changed(doc, ts, Outcome(Meaning(from), Meaning(to)), ApplyAll(doc, Diff(PathText(ts), from, to)))
    decreases from, 1, 0
  {
    hide *;
    if from.Array? && to.Array? {
      ArrayApplies(doc, ts, from, to);
    } else if from.Object? && to.Object? {
      ObjectApplies(doc, ts, from, to);
    } else {
      ValueHas(doc, ts, Meaning(from));
      DiffOfOthers(PathText(ts), from, to);
      if Meaning(from) == Meaning(to) {
        NothingChanges(doc, ts, Meaning(from));
      } else {
        RootIsReplaced(from, to);
        ReplaceAt(doc, ts, from, to);
      }
    }
  }

  lemma DiffOfOthers(path: string, from: Json, to: Json)
    requires !(from.Array? && to.Array?) && !(from.Object? && to.Object?)
    ensures Diff(path, from, to) == if Meaning(from) == Meaning(to) then [] else [PatchObject("replace", path, Some(to))]
    ensures Outcome(Meaning(from), Meaning(to)) == Meaning(to)
  {
    hide PatchObject, Meanings, Fields;
  }

  lemma RootIsReplaced(from: Json, to: Json)
    requires !(from.Array? && to.Array?) && !(from.Object? && to.Object?) && Meaning(from) != Meaning(to)
    ensures !RootFits(Meaning(from), Meaning(to))
  {
    hide Meanings, Fields;
  }

  lemma NothingChanges(doc: Json, ts: seq<Token>, v: Val)
    requires HasValue(doc, ts, v) && HasPath(Meaning(doc), ts)
    ensures Changed(doc, ts, v, ApplyAll(doc, []))
  {
    PutSame(Meaning(doc), ts);
    ApplyNone(doc);
  }

  lemma {:induction false} ArrayApplies(doc: Json, ts: seq<Token>, from: Json, to: Json)
    requires from.Array? && to.Array?
    requires WellNamed(from) && WellNamed(to) && HasValue(doc, ts, Meaning(from))
    ensures Changed(doc, ts, Outcome(Meaning(from), Meaning(to)), ApplyAll(doc, Diff(PathText(ts), from, to)))
    decreases from, 0, 0
  {
    var a, b := Meanings(from.items), Meanings(to.items);
    assert [] + a == a;
    assert [] + OutcomeItems(a, b) == OutcomeItems(a, b);
    hide ApplyAll, PathText, DiffItems, Get, Put, HasPath, Meanings;
    ItemsApply(doc, ts, [], from.items, to.items);
  }

  /** Nothing is merged yet, and everything at the end. */
  lemma StartMerging(doc: Json, ts: seq<Token>, from: Json, to: Json)
    requires from.Object? && to.Object?
    requires WellNamed(from) && WellNamed(to) && HasValue(doc, ts, Meaning(from))
    ensures var fs, tl := Sort(from.members), Sort(to.members);
            && (forall e | e in fs :: e.item < from) && Merging(doc, ts, map[], fs, tl)
            && Diff(PathText(ts), from, to) == DiffMembers(PathText(ts), fs, tl, from)
            && Outcome(Meaning(from), Meaning(to)) == VObject(map[] + Join(Fields(fs), Fields(tl)))
  {
    hide *;
    var fs, tl := Sort(from.members), Sort(to.members);
    SortedObject(from);
    SortedObject(to);
    JoinOfObjects(from.members, to.members, fs, tl);
    MergingStarts(doc, ts, fs, tl);
    DiffOfObjects(PathText(ts), from, to);
  }

  lemma JoinOfObjects(ms: seq<Entry<Json>>, ns: seq<Entry<Json>>, fs: seq<Entry<Json>>, tl: seq<Entry<Json>>)
    requires Fields(fs) == Fields(ms) && Fields(tl) == Fields(ns)
    ensures Outcome(VObject(Fields(ms)), VObject(Fields(ns))) == VObject(map[] + Join(Fields(fs), Fields(tl)))
    ensures map[] + Fields(fs) == Fields(fs)
  {
    hide Fields;
    assert map[] + Fields(fs) == Fields(fs);
    assert map[] + Join(Fields(fs), Fields(tl)) == Join(Fields(fs), Fields(tl));
  }

  lemma MergingStarts(doc: Json, ts: seq<Token>, fs: seq<Entry<Json>>, tl: seq<Entry<Json>>)
    requires StrictlyOrdered(fs) && StrictlyOrdered(tl) && WellNamedMembers(fs) && WellNamedMembers(tl)
    requires map[] + Fields(fs) == Fields(fs) && HasValue(doc, ts, VObject(Fields(fs)))
    ensures Merging(doc, ts, map[], fs, tl)
  {
    hide StrictlyOrdered, WellNamedMembers, Fields, HasValue;
  }

  lemma DiffOfObjects(path: string, from: Json, to: Json)
    requires from.Object? && to.Object?
    ensures (forall e | e in Sort(from.members) :: e.item < from)
    ensures Diff(path, from, to) == DiffMembers(path, Sort(from.members), Sort(to.members), from)
  {
    SortKeepsMembers(from.members);
    hide Sort, DiffMembers, DiffItems;
  }

  lemma {:induction false} ObjectApplies(doc: Json, ts: seq<Token>, from: Json, to: Json)
    requires from.Object? && to.Object?
    requires WellNamed(from) && WellNamed(to) && HasValue(doc, ts, Meaning(from))
    ensures Changed(doc, ts, Outcome(Meaning(from), Meaning(to)), ApplyAll(doc, Diff(PathText(ts), from, to)))
    decreases from, 0, |from.members| + |to.members|, 2
  {
    var fs, tl := Sort(from.members), Sort(to.members);
    SortKeepsMembers(from.members);
    SortKeepsMembers(to.members);
    SortKeepsFields(from.members);
    SortKeepsFields(to.members);
    StartMerging(doc, ts, from, to);
    hide *;
    MembersApply(doc, ts, map[], fs, tl, from);
  }

  lemma ApplyNone(doc: Json)
    ensures ApplyAll(doc, []) == Applied(0, doc)
  {
  }

  /** The item loop, after the items before `xs` have become `done`. */
  lemma {:induction false} ItemsApply(doc: Json, ts: seq<Token>, done: seq<Val>, xs: seq<Json>, ys: seq<Json>)
    requires (forall x | x in xs :: WellNamed(x)) && (forall y | y in ys :: WellNamed(y))
    requires HasValue(doc, ts, VArray(done + Meanings(xs)))
    ensures Changed(doc, ts, VArray(done + OutcomeItems(Meanings(xs), Meanings(ys))),
                    ApplyAll(doc, DiffItems(PathText(ts), |done|, xs, ys)))
    decreases xs, 0, 0
  {
    hide *;
    var path, c := PathText(ts), |done|;
    if ys == [] {
      RemovePatchesApply(doc, ts, done + Meanings(xs), c, |xs|);
      RemoveRunLeavesOdds(done, Meanings(xs), |xs|);
      ItemsEnd(path, c, done, xs, ys);
    } else if xs == [] {
      ItemsEnd(path, c, done, xs, ys);
      AddPatchesApply(doc, ts, done, ys);
    } else {
      var o := Outcome(Meaning(xs[0]), Meaning(ys[0]));
      var w := VArray((done + [o]) + Meanings(xs[1..]));
      var first := Diff(path + "/" + Digits(c), xs[0], ys[0]);
      ItemsHead(path, c, done, xs, ys);
      ItemApplies(doc, ts, done, xs, ys[0]);
      ValueHas(doc, ts, VArray(done + Meanings(xs)));
      ChangedHas(doc, ts, w, ApplyAll(doc, first));
      ItemsApply(ApplyAll(doc, first).doc, ts, done + [o], xs[1..], ys[1..]);
      ChangedTwice(doc, ts, first, w, DiffItems(path, c + 1, xs[1..], ys[1..]),
                   VArray(done + OutcomeItems(Meanings(xs), Meanings(ys))));
    }
  }

  lemma ItemsEnd(path: string, c: nat, done: seq<Val>, xs: seq<Json>, ys: seq<Json>)
    requires xs == [] || ys == []
    ensures DiffItems(path, c, xs, ys) == if ys == [] then RemovePatches(path, c, |xs|) else AddPatches(path, ys)
    ensures ys == [] ==> OutcomeItems(Meanings(xs), Meanings(ys)) == Odds(Meanings(xs)) && |Meanings(xs)| == |xs|
    ensures ys != [] ==> Meanings(xs) == [] && done + Meanings(xs) == done && OutcomeItems(Meanings(xs), Meanings(ys)) == Meanings(ys)
  {
    assert Meanings(xs) == [] || Meanings(ys) == [];
    hide RemovePatches, AddPatches, Meaning;
    if ys == [] { assert RemovePatches(path, c, |xs|) + [] == RemovePatches(path, c, |xs|) && AddPatches(path, ys) == []; }
  }

  lemma ItemsHead(path: string, c: nat, done: seq<Val>, xs: seq<Json>, ys: seq<Json>)
    requires xs != [] && ys != [] && (forall x | x in xs :: WellNamed(x)) && (forall y | y in ys :: WellNamed(y))
    ensures DiffItems(path, c, xs, ys)
         == Diff(path + "/" + Digits(c), xs[0], ys[0]) + DiffItems(path, c + 1, xs[1..], ys[1..])
    ensures var o := Outcome(Meaning(xs[0]), Meaning(ys[0]));
      done + OutcomeItems(Meanings(xs), Meanings(ys)) == (done + [o]) + OutcomeItems(Meanings(xs[1..]), Meanings(ys[1..]))
    ensures WellNamed(xs[0]) && WellNamed(ys[0])
    ensures (forall x | x in xs[1..] :: WellNamed(x)) && (forall y | y in ys[1..] :: WellNamed(y))
  {
    MeaningsHead(xs);
    MeaningsHead(ys);
    assert xs[0] in xs && ys[0] in ys;
    hide Diff, Digits, Meaning, Meanings, WellNamed, Outcome;
  }

  lemma {:induction false} ItemApplies(doc: Json, ts: seq<Token>, done: seq<Val>, xs: seq<Json>, y: Json)
    requires xs != [] && (forall x | x in xs :: WellNamed(x)) && WellNamed(y)
    requires HasValue(doc, ts, VArray(done + Meanings(xs)))
    ensures Changed(doc, ts, VArray((done + [Outcome(Meaning(xs[0]), Meaning(y))]) + Meanings(xs[1..])),
                    ApplyAll(doc, Diff(PathText(ts) + "/" + Digits(|done|), xs[0], y)))
    decreases xs[0], 2
  {
    var t := Index(|done|);
    var o := Outcome(Meaning(xs[0]), Meaning(y));
    MeaningsHead(xs);
    hide ApplyAll, Diff, PathText, Encode, Digits, Get, Put, HasPath, WellNamed, Outcome, Meaning, Meanings;
    ReplaceFirst(done, Meanings(xs), o);
    PathAppend(Meaning(doc), ts, t);
    SplitPathText(ts, t);
    DiffApplies(doc, ts + [t], xs[0], y);
  }

  lemma ReplaceFirst<T>(done: seq<T>, tail: seq<T>, x: T)
    requires tail != []
    ensures (done + tail)[|done|] == tail[0]
    ensures (done + tail)[|done| := x] == (done + [x]) + tail[1..]
  {
  }

  /** Invariant of the merge loop: earlier names have become `done`, `fs` and `tl` are left. */
  ghost predicate Merging(doc: Json, ts: seq<Token>, done: map<string, Val>,
                          fs: seq<Entry<Json>>, tl: seq<Entry<Json>>) {
    && StrictlyOrdered(fs) && StrictlyOrdered(tl) && WellNamedMembers(fs) && WellNamedMembers(tl)
    && done.Keys !! Fields(fs).Keys && done.Keys !! Fields(tl).Keys
    && HasValue(doc, ts, VObject(done + Fields(fs)))
  }

  lemma {:induction false} MembersApply(doc: Json, ts: seq<Token>, done: map<string, Val>,
                                        fs: seq<Entry<Json>>, tl: seq<Entry<Json>>, owner: Json)
    requires (forall e | e in fs :: e.item < owner) && Merging(doc, ts, done, fs, tl)
    ensures Changed(doc, ts, VObject(done + Join(Fields(fs), Fields(tl))),
                    ApplyAll(doc, DiffMembers(PathText(ts), fs, tl, owner)))
    decreases owner, 0, |fs| + |tl|, 1
  {
    hide ApplyAll, PatchObject, PathText, Encode, Get, Put, HasPath, WellNamed, Meaning, Diff, Outcome;
    if fs == [] && tl == [] {
      JoinEmpty(done);
      PutSame(Meaning(doc), ts);
      ApplyNone(doc);
    } else {
      var diff := if fs == [] then 1 else if tl == [] then -1 else CaseOrder(fs[0].name, tl[0].name);
      if diff == 0 {
        MemberInBoth(doc, ts, done, fs, tl, owner);
      } else if diff < 0 {
        MemberRemoved(doc, ts, done, fs, tl, owner);
      } else {
        if fs != [] { CaseOrderReversed(fs[0].name, tl[0].name); }
        MemberAdded(doc, ts, done, fs, tl, owner);
      }
    }
  }

  lemma JoinEmpty(done: map<string, Val>)
    ensures done + Join(Fields([]), Fields([])) == done + Fields([]) == done
  {
  }

  lemma ValueHas(doc: Json, ts: seq<Token>, v: Val)
    requires HasValue(doc, ts, v)
    ensures WellNamed(doc) && HasPath(Meaning(doc), ts)
  {
  }

  lemma StepInBoth(path: string, done: map<string, Val>, fs: seq<Entry<Json>>, tl: seq<Entry<Json>>, owner: Json)
    requires forall e | e in fs :: e.item < owner
    requires StrictlyOrdered(fs) && StrictlyOrdered(tl) && WellNamedMembers(fs) && WellNamedMembers(tl)
    requires done.Keys !! Fields(fs).Keys && done.Keys !! Fields(tl).Keys
    requires fs != [] && tl != [] && CaseOrder(fs[0].name, tl[0].name) == 0
    ensures var k, o := LowerName(fs[0].name), Outcome(Meaning(fs[0].item), Meaning(tl[0].item));
            && done + Join(Fields(fs), Fields(tl)) == done[k := o] + Join(Fields(fs[1..]), Fields(tl[1..]))
            && done[k := o].Keys !! Fields(fs[1..]).Keys && done[k := o].Keys !! Fields(tl[1..]).Keys
    ensures StrictlyOrdered(fs[1..]) && StrictlyOrdered(tl[1..]) && WellNamedMembers(fs[1..]) && WellNamedMembers(tl[1..])
    ensures WellNamed(tl[0].item)
    ensures DiffMembers(path, fs, tl, owner)
         == Diff(path + "/" + Encode(fs[0].name), fs[0].item, tl[0].item) + DiffMembers(path, fs[1..], tl[1..], owner)
  {
    CaseOrderZero(fs[0].name, tl[0].name);
    HeadFields(fs);
    HeadFields(tl);
    hide Diff, Encode, Meaning, Outcome, Fields;
    JoinBoth(done, Fields(fs), Fields(tl), LowerName(fs[0].name));
  }

  lemma {:induction false} MemberInBoth(doc: Json, ts: seq<Token>, done: map<string, Val>,
                                        fs: seq<Entry<Json>>, tl: seq<Entry<Json>>, owner: Json)
    requires (forall e | e in fs :: e.item < owner) && Merging(doc, ts, done, fs, tl)
    requires fs != [] && tl != [] && CaseOrder(fs[0].name, tl[0].name) == 0
    ensures Changed(doc, ts, VObject(done + Join(Fields(fs), Fields(tl))),
                    ApplyAll(doc, DiffMembers(PathText(ts), fs, tl, owner)))
    decreases owner, 0, |fs| + |tl|, 0
  {
    var k := LowerName(fs[0].name);
    var o := Outcome(Meaning(fs[0].item), Meaning(tl[0].item));
    var w := VObject(done[k := o] + Fields(fs[1..]));
    var first := Diff(PathText(ts) + "/" + Encode(fs[0].name), fs[0].item, tl[0].item);
    var rest := DiffMembers(PathText(ts), fs[1..], tl[1..], owner);
    hide ApplyAll, Diff, DiffMembers, PathText, Encode, HasValue, WellNamed, Meaning, Outcome, Join, Fields, CaseOrder, LowerName,
      StrictlyOrdered, WellNamedMembers, Changed;
    StepInBoth(PathText(ts), done, fs, tl, owner);
    MemberApplies(doc, ts, done, fs, tl[0].item);
    var mid := ApplyAll(doc, first);
    ValueHas(doc, ts, VObject(done + Fields(fs)));
    ChangedHas(doc, ts, w, mid);
    MembersApply(mid.doc, ts, done[k := o], fs[1..], tl[1..], owner);
    ChangedTwice(doc, ts, first, w, rest, VObject(done + Join(Fields(fs), Fields(tl))));
  }

  lemma {:induction false} MemberApplies(doc: Json, ts: seq<Token>, done: map<string, Val>, fs: seq<Entry<Json>>, y: Json)
    requires fs != [] && StrictlyOrdered(fs) && WellNamedMembers(fs) && WellNamed(y)
    requires done.Keys !! Fields(fs).Keys
    requires HasValue(doc, ts, VObject(done + Fields(fs)))
    ensures Changed(doc, ts, VObject(done[LowerName(fs[0].name) := Outcome(Meaning(fs[0].item), Meaning(y))] + Fields(fs[1..])),
                    ApplyAll(doc, Diff(PathText(ts) + "/" + Encode(fs[0].name), fs[0].item, y)))
    decreases fs[0].item, 2
  {
    hide *;
    var t := Name(fs[0].name);
    var k := LowerName(fs[0].name);
    var o := Outcome(Meaning(fs[0].item), Meaning(y));
    HeadFields(fs);
    FieldPut(done, Fields(fs), k, o);
    MemberOf(doc, ts, done + Fields(fs), t);
    ValueHas(doc, ts + [t], Meaning(fs[0].item));
    SplitPathText(ts, t);
    NameText(fs[0].name);
    DiffApplies(doc, ts + [t], fs[0].item, y);
    ChangedAbove(doc, ts, t, done + Fields(fs), o, ApplyAll(doc, Diff(PathText(ts + [t]), fs[0].item, y)));
  }

  lemma NameText(n: string)
    ensures TokenText(Name(n)) == Encode(n)
  {
  }

  lemma MemberOf(doc: Json, ts: seq<Token>, m: map<string, Val>, t: Token)
    requires HasValue(doc, ts, VObject(m)) && t.Name? && LowerName(t.name) in m
    ensures HasPath(Meaning(doc), ts) && Get(Meaning(doc), ts) == VObject(m)
    ensures HasValue(doc, ts + [t], m[LowerName(t.name)])
  {
    hide LowerName, WellNamed, Meaning, Get, HasPath;
    PathAppend(Meaning(doc), ts, t);
  }

  /** One field put among those done and the rest. */
  lemma FieldPut(done: map<string, Val>, m: map<string, Val>, k: string, o: Val)
    requires k in m && done.Keys !! m.Keys
    ensures (done + m)[k := o] == done[k := o] + (m - {k})
    ensures k in done + m && (done + m)[k] == m[k]
  {
  }

  /** A change of one member is a change of its object. */
  lemma ChangedAbove(doc: Json, ts: seq<Token>, t: Token, m: map<string, Val>, o: Val, r: Applied)
    requires HasPath(Meaning(doc), ts) && Get(Meaning(doc), ts) == VObject(m) && t.Name? && LowerName(t.name) in m
    requires HasPath(Meaning(doc), ts + [t]) && Changed(doc, ts + [t], o, r)
    ensures Changed(doc, ts, VObject(m[LowerName(t.name) := o]), r)
  {
    hide Meaning, WellNamed, Get, HasPath, LowerName;
    PathAppend(Meaning(doc), ts, t);
  }

  lemma AbsentBeforeStrict(name: string, s: seq<Entry<Json>>)
    requires StrictlyOrdered(s) && (s == [] || CaseOrder(name, s[0].name) < 0)
    ensures LowerName(name) !in Fields(s)
  {
    AbsentBefore(name, s);
  }

  lemma FieldsLess(done: map<string, Val>, m: map<string, Val>, k: string)
    requires k in m && done.Keys !! m.Keys
    ensures done + m - {k} == done + (m - {k}) && done.Keys !! (m - {k}).Keys
  {
  }

  lemma DiffMembersRemoved(path: string, fs: seq<Entry<Json>>, tl: seq<Entry<Json>>, owner: Json)
    requires forall e | e in fs :: e.item < owner
    requires fs != [] && (tl == [] || CaseOrder(fs[0].name, tl[0].name) < 0)
    ensures forall e | e in fs[1..] :: e.item < owner
    ensures DiffMembers(path, fs, tl, owner)
         == [PatchObject("remove", path + "/" + Encode(fs[0].name), None)] + DiffMembers(path, fs[1..], tl, owner)
  {
    hide Diff, Encode, PatchObject;
  }

  lemma StepRemoved(path: string, done: map<string, Val>, fs: seq<Entry<Json>>, tl: seq<Entry<Json>>, owner: Json)
    requires forall e | e in fs :: e.item < owner
    requires StrictlyOrdered(fs) && StrictlyOrdered(tl) && WellNamedMembers(fs) && WellNamedMembers(tl)
    requires done.Keys !! Fields(fs).Keys
    requires fs != [] && (tl == [] || CaseOrder(fs[0].name, tl[0].name) < 0)
    ensures Join(Fields(fs), Fields(tl)) == Join(Fields(fs[1..]), Fields(tl))
    ensures (done + Fields(fs)) - {LowerName(fs[0].name)} == done + Fields(fs[1..])
    ensures LowerName(fs[0].name) in Fields(fs) && done.Keys !! Fields(fs[1..]).Keys
    ensures StrictlyOrdered(fs[1..]) && WellNamedMembers(fs[1..])
    ensures DiffMembers(path, fs, tl, owner)
         == [PatchObject("remove", path + "/" + Encode(fs[0].name), None)] + DiffMembers(path, fs[1..], tl, owner)
  {
    hide *;
    HeadFields(fs);
    AbsentBeforeStrict(fs[0].name, tl);
    FieldsLess(done, Fields(fs), LowerName(fs[0].name));
    JoinRemove(Fields(fs), Fields(tl), LowerName(fs[0].name));
    DiffMembersRemoved(path, fs, tl, owner);
  }

  lemma {:induction false} MemberRemoved(doc: Json, ts: seq<Token>, done: map<string, Val>,
                                         fs: seq<Entry<Json>>, tl: seq<Entry<Json>>, owner: Json)
    requires (forall e | e in fs :: e.item < owner) && Merging(doc, ts, done, fs, tl)
    requires fs != [] && (tl == [] || CaseOrder(fs[0].name, tl[0].name) < 0)
    ensures Changed(doc, ts, VObject(done + Join(Fields(fs), Fields(tl))),
                    ApplyAll(doc, DiffMembers(PathText(ts), fs, tl, owner)))
    decreases owner, 0, |fs| + |tl|, 0
  {
    var w := VObject(done + Fields(fs[1..]));
    var first := [PatchObject("remove", PathText(ts) + "/" + Encode(fs[0].name), None)];
    var rest := DiffMembers(PathText(ts), fs[1..], tl, owner);
    hide ApplyAll, DiffMembers, PatchObject, PathText, Encode, HasValue, WellNamed, Meaning, Outcome, Join, Fields, LowerName,
      StrictlyOrdered, WellNamedMembers, Changed, CaseOrder;
    StepRemoved(PathText(ts), done, fs, tl, owner);
    RemoveNamed(doc, ts, done + Fields(fs), fs[0].name);
    var mid := ApplyAll(doc, first);
    ValueHas(doc, ts, VObject(done + Fields(fs)));
    ChangedHas(doc, ts, w, mid);
    MembersApply(mid.doc, ts, done, fs[1..], tl, owner);
    ChangedTwice(doc, ts, first, w, rest, VObject(done + Join(Fields(fs), Fields(tl))));
  }

  lemma SetBehind(done: map<string, Val>, fm: map<string, Val>, k: string, v: Val)
    requires k !in fm
    ensures (done + fm)[k := v] == done[k := v] + fm
  {
  }

  /** The state after the head of `tl` was added. */
  lemma AddedState(doc: Json, ts: seq<Token>, done: map<string, Val>,
                   fs: seq<Entry<Json>>, tl: seq<Entry<Json>>, mid: Json)
    requires Merging(doc, ts, done, fs, tl)
    requires tl != [] && (fs == [] || CaseOrder(tl[0].name, fs[0].name) < 0)
    ensures (done + Fields(fs))[LowerName(tl[0].name) := Meaning(tl[0].item)]
         == done[LowerName(tl[0].name) := Meaning(tl[0].item)] + Fields(fs)
    ensures done + Join(Fields(fs), Fields(tl))
         == done[LowerName(tl[0].name) := Meaning(tl[0].item)] + Join(Fields(fs), Fields(tl[1..]))
    ensures HasValue(mid, ts, VObject(done[LowerName(tl[0].name) := Meaning(tl[0].item)] + Fields(fs))) ==>
              Merging(mid, ts, done[LowerName(tl[0].name) := Meaning(tl[0].item)], fs, tl[1..])
  {
    var k, y := LowerName(tl[0].name), tl[0].item;
    hide HasValue, WellNamed, Meaning, Outcome, Join, Fields, LowerName;
    HeadFields(tl);
    if fs != [] { StrictlyOrderedTail(fs); }
    AbsentBefore(tl[0].name, fs);
    JoinAdd(done, Fields(fs), Fields(tl), k);
    SetBehind(done, Fields(fs), k, Meaning(y));
  }

  lemma {:induction false} MemberAdded(doc: Json, ts: seq<Token>, done: map<string, Val>,
                                       fs: seq<Entry<Json>>, tl: seq<Entry<Json>>, owner: Json)
    requires (forall e | e in fs :: e.item < owner) && Merging(doc, ts, done, fs, tl)
    requires tl != [] && (fs == [] || CaseOrder(tl[0].name, fs[0].name) < 0)
    ensures Changed(doc, ts, VObject(done + Join(Fields(fs), Fields(tl))),
                    ApplyAll(doc, DiffMembers(PathText(ts), fs, tl, owner)))
    decreases owner, 0, |fs| + |tl|, 0
  {
    hide *;
    var k, y := LowerName(tl[0].name), tl[0].item;
    var w := VObject(done[k := Meaning(y)] + Fields(fs));
    var goal := VObject(done + Join(Fields(fs), Fields(tl)));
    var first := [PatchObject("add", PathText(ts) + "/" + Encode(tl[0].name), Some(y))];
    var rest := DiffMembers(PathText(ts), fs, tl[1..], owner);
    StepAdded(PathText(ts), fs, tl, owner);
    MergingIs(doc, ts, done, fs, tl);
    AddNamed(doc, ts, done + Fields(fs), tl[0].name, y);
    var mid := ApplyAll(doc, first);
    AddedMeans(doc, ts, done, fs, tl);
    ChangedHas(doc, ts, w, mid);
    AddedState(doc, ts, done, fs, tl, mid.doc);
    MembersApply(mid.doc, ts, done[k := Meaning(y)], fs, tl[1..], owner);
    ChangedTwice(doc, ts, first, w, rest, goal);
  }

  lemma AddedMeans(doc: Json, ts: seq<Token>, done: map<string, Val>, fs: seq<Entry<Json>>, tl: seq<Entry<Json>>)
    requires Merging(doc, ts, done, fs, tl)
    requires tl != [] && (fs == [] || CaseOrder(tl[0].name, fs[0].name) < 0)
    ensures (done + Fields(fs))[LowerName(tl[0].name) := Meaning(tl[0].item)]
         == done[LowerName(tl[0].name) := Meaning(tl[0].item)] + Fields(fs)
  {
    AddedState(doc, ts, done, fs, tl, doc);
    hide Fields, Meaning, Merging, LowerName;
  }

  lemma StepAdded(path: string, fs: seq<Entry<Json>>, tl: seq<Entry<Json>>, owner: Json)
    requires forall e | e in fs :: e.item < owner
    requires tl != [] && (fs == [] || CaseOrder(tl[0].name, fs[0].name) < 0)
    ensures DiffMembers(path, fs, tl, owner)
         == [PatchObject("add", path + "/" + Encode(tl[0].name), Some(tl[0].item))] + DiffMembers(path, fs, tl[1..], owner)
  {
    if fs != [] { CaseOrderReversed(tl[0].name, fs[0].name); }
    hide Diff, Encode, PatchObject, CaseOrder;
  }

  lemma MergingIs(doc: Json, ts: seq<Token>, done: map<string, Val>, fs: seq<Entry<Json>>, tl: seq<Entry<Json>>)
    requires Merging(doc, ts, done, fs, tl)
    ensures HasValue(doc, ts, VObject(done + Fields(fs))) && HasPath(Meaning(doc), ts)
    ensures tl != [] ==> WellNamed(tl[0].item)
  {
    hide Fields, Meaning, StrictlyOrdered, DistinctNames;
    if tl != [] { assert tl[0] in tl; }
  }
}
