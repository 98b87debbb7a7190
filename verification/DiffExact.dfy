/** When the generated patches reach the second tree: the exact condition, for all trees. */
module DiffExact {
  import opened Json
  import opened Numerals
  import opened Sorting
  import opened Compare
  import opened Pointer
  import opened Patch
  import opened PatchMeaning
  import opened DiffProof

  /** No array that both trees have in the same place loses more than one item. */
  ghost predicate ShrinksByAtMostOne(f: Val, t: Val)
    decreases t
  {
    match t
    case VArray(ys) =>
      f.VArray? ==>
        && |f.items| <= |ys| + 1
        && forall i :: 0 <= i < |ys| && i < |f.items| ==> ShrinksByAtMostOne(f.items[i], ys[i])
    case VObject(tm) =>
      f.VObject? ==> forall k :: k in tm && k in f.fields ==> ShrinksByAtMostOne(f.fields[k], tm[k])
    case _ => true
  }

  lemma {:induction false} OutcomeExact(f: Val, t: Val)
    ensures Outcome(f, t) == t <==> ShrinksByAtMostOne(f, t)
    decreases t, 1, 0
  {
    match t {
      case VArray(ys) =>
        if f.VArray? { ItemsExact(f.items, ys); }
      case VObject(tm) =>
        if f.VObject? {
          var o := Outcome(f, t).fields;
          forall k | k in tm
            ensures o[k] == tm[k] <==> (k in f.fields ==> ShrinksByAtMostOne(f.fields[k], tm[k]))
          {
            if k in f.fields { OutcomeExact(f.fields[k], tm[k]); }
          }
          assert o.Keys == tm.Keys;
          assert o == tm <==> forall k :: k in tm ==> o[k] == tm[k];
        }
      case _ =>
    }
  }

  lemma {:induction false} ItemsExact(xs: seq<Val>, ys: seq<Val>)
    ensures OutcomeItems(xs, ys) == ys <==>
              && |xs| <= |ys| + 1
              && forall i :: 0 <= i < |ys| && i < |xs| ==> ShrinksByAtMostOne(xs[i], ys[i])
    decreases ys, 0, 0
  {
    if xs != [] && ys != [] {
      OutcomeExact(xs[0], ys[0]);
      ItemsExact(xs[1..], ys[1..]);
      var o := OutcomeItems(xs, ys);
      assert o[0] == Outcome(xs[0], ys[0]) && o[1..] == OutcomeItems(xs[1..], ys[1..]);
      assert o == [o[0]] + o[1..] && ys == [ys[0]] + ys[1..];
      assert o == ys <==> o[0] == ys[0] && o[1..] == ys[1..];
      if forall i :: 0 <= i < |ys| && i < |xs| ==> ShrinksByAtMostOne(xs[i], ys[i]) {
        forall i | 0 <= i < |ys[1..]| && i < |xs[1..]|
          ensures ShrinksByAtMostOne(xs[1..][i], ys[1..][i])
        {
          assert ShrinksByAtMostOne(xs[i + 1], ys[i + 1]);
        }
      }
      if o == ys {
        forall i | 0 <= i < |ys| && i < |xs|
          ensures ShrinksByAtMostOne(xs[i], ys[i])
        {
          if i > 0 { assert ShrinksByAtMostOne(xs[1..][i - 1], ys[1..][i - 1]); }
        }
      }
    }
  }

  /** The document the patches are applied to may be any tree with the same meaning: members in
      another order, or names in another case. What the chains do is said in `LinkedExact`: a document
      without old links follows these values, and `from` itself, which generating sorts, follows them
      exactly if no member that holds an old link then is removed or replaced. */
  lemma PatchesReachOutcome(doc: Json, from: Json, to: Json)
    requires WellNamed(doc) && WellNamed(from) && WellNamed(to) && Meaning(doc) == Meaning(from)
    ensures var r := ApplyPatches(doc, GeneratePatches(from, to));
            if RootFits(Meaning(from), Meaning(to))
            then r.Applied? && r.code == 0 && WellNamed(r.doc) && Meaning(r.doc) == Outcome(Meaning(from), Meaning(to))
            else r.Undefined?
  {
    if RootFits(Meaning(from), Meaning(to)) {
      hide ApplyAll, Diff, Meaning, WellNamed, RootFits, Outcome;
      DiffApplies(doc, [], from, to);
    } else {
      RootReplaced(doc, from, to);
    }
  }

  lemma ReplaceRoot(doc: Json, p: Json)
    requires GetItem(p, "op") == Some(String("replace")) && GetItem(p, "path") == Some(String(""))
    ensures ApplyPatch(doc, p) == Undefined
  {
    assert LastSlash("").None?;
    hide GetItem, ApplyAdd, ApplyMove, ApplyCopy, ApplyTest;
    assert ApplyRemove(doc, String("")) == Undefined;
    hide ApplyRemove;
  }

  lemma DiffReplaces(from: Json, to: Json)
    requires !RootFits(Meaning(from), Meaning(to))
    ensures Diff("", from, to) == [PatchObject("replace", "", Some(to))]
  {
    hide DiffItems, DiffMembers, Meanings, Fields, PatchObject;
  }

  /** A patch with the empty path has no '/' to cut at, and the C code follows a null pointer. */
  lemma RootReplaced(doc: Json, from: Json, to: Json)
    requires !RootFits(Meaning(from), Meaning(to))
    ensures ApplyPatches(doc, GeneratePatches(from, to)) == Undefined
  {
    var p := PatchObject("replace", "", Some(to));
    assert ApplyPatches(doc, GeneratePatches(from, to)) == ApplyAll(doc, Diff("", from, to));
    hide *;
    DiffReplaces(from, to);
    PatchObjectItems("replace", "", Some(to));
    ReplaceRoot(doc, p);
    ApplyOne(doc, p);
  }

  /** Applying the generated patches succeeds and gives a tree that compares equal to `to`
      exactly when the roots fit and no compared array shrinks by more than one. */
  lemma PatchesReachTarget(doc: Json, from: Json, to: Json)
    requires WellNamed(doc) && WellNamed(from) && WellNamed(to) && Meaning(doc) == Meaning(from)
    ensures var r := ApplyPatches(doc, GeneratePatches(from, to));
            (r.Applied? && r.code == 0 && Comparison(r.doc, to).code == 0) <==>
            RootFits(Meaning(from), Meaning(to)) && ShrinksByAtMostOne(Meaning(from), Meaning(to))
  {
    hide ApplyPatches, GeneratePatches, Comparison, Meaning, WellNamed, Outcome, ShrinksByAtMostOne;
    PatchesReachOutcome(doc, from, to);
    OutcomeExact(Meaning(from), Meaning(to));
    var r := ApplyPatches(doc, GeneratePatches(from, to));
    if RootFits(Meaning(from), Meaning(to)) {
      CompareDecidesMeaning(r.doc, to);
    }
  }

  lemma OutcomeOfShrink()
    ensures Outcome(VArray([VNumber(1), VNumber(2), VNumber(3)]), VArray([VNumber(1)]))
         == VArray([VNumber(1), VNumber(3)])
  {
    var xs, ys := [VNumber(1), VNumber(2), VNumber(3)], [VNumber(1)];
    assert xs[1..] == [VNumber(2), VNumber(3)] && ys[1..] == [];
    assert OutcomeItems(xs, ys) == [VNumber(1)] + OutcomeItems(xs[1..], ys[1..]);
    assert Odds(xs[1..]) == [VNumber(3)] + Odds([]);
  }

  /** Cutting [1, 2, 3] down to [1] leaves [1, 3]: the second index is past the end. */
  lemma ShrinkByTwoFails(from: Json, to: Json)
    requires from == Array([Number(1), Number(2), Number(3)]) && to == Array([Number(1)])
    ensures var r := ApplyPatches(from, GeneratePatches(from, to));
            r.Applied? && r.code == 0 && Meaning(r.doc) == VArray([VNumber(1), VNumber(3)])
  {
    hide *;
    ShrinkMeans(from, to);
    OutcomeOfShrink();
    PatchesReachOutcome(from, from, to);
  }

  lemma ShrinkMeans(from: Json, to: Json)
    requires from == Array([Number(1), Number(2), Number(3)]) && to == Array([Number(1)])
    ensures Meaning(from) == VArray([VNumber(1), VNumber(2), VNumber(3)]) && Meaning(to) == VArray([VNumber(1)])
    ensures WellNamed(from) && WellNamed(to) && RootFits(Meaning(from), Meaning(to))
  {
    assert Meanings(from.items) == [VNumber(1), VNumber(2), VNumber(3)];
    assert Meanings(to.items) == [VNumber(1)];
  }

  // ----- how the operations are written

  /** The removals name neighbouring indices in ascending order, and items are appended under "-". */
  lemma {:induction false} TailsAre(path: string, c: nat, count: nat, items: seq<Json>)
    ensures |RemovePatches(path, c, count)| == count && |AddPatches(path, items)| == |items|
    ensures forall i :: 0 <= i < count ==> RemovePatches(path, c, count)[i] == PatchObject("remove", path + "/" + Digits(c + i), None)
    ensures forall i :: 0 <= i < |items| ==> AddPatches(path, items)[i] == PatchObject("add", path + "/-", Some(items[i]))
    decreases count + |items|
  {
    hide PatchObject, Digits, Encode;
    EncodePlain("-");
    assert path + "/" + "-" == path + "/-";
    if count > 0 {
      DigitsAreDigits(c);
      EncodePlain(Digits(c));
      TailsAre(path, c + 1, count - 1, []);
    }
    if items != [] { TailsAre(path, c, 0, items[1..]); }
  }

  // ----- when there is nothing to patch

  lemma ArraysDiffer(path: string, from: Json, to: Json)
    requires from.Array? && to.Array? && WellNamed(from) && WellNamed(to)
    ensures Diff(path, from, to) == DiffItems(path, 0, from.items, to.items)
    ensures (forall x | x in from.items :: WellNamed(x)) && (forall y | y in to.items :: WellNamed(y))
    ensures Meaning(from) == Meaning(to) <==> Meanings(from.items) == Meanings(to.items)
  {
    hide DiffItems, Meanings;
  }

  lemma TailPatches(path: string, c: nat, count: nat, ys: seq<Json>)
    ensures RemovePatches(path, c, count) + AddPatches(path, ys) == [] <==> count == 0 && ys == []
  {
    hide PatchObject;
  }

  lemma ItemsDiffer(path: string, c: nat, xs: seq<Json>, ys: seq<Json>)
    ensures DiffItems(path, c, xs, ys) == if xs == [] || ys == [] then RemovePatches(path, c, |xs|) + AddPatches(path, ys)
      else Diff(path + "/" + Digits(c), xs[0], ys[0]) + DiffItems(path, c + 1, xs[1..], ys[1..])
  {
    hide Diff, RemovePatches, AddPatches;
  }

  lemma MeaningsEqual(xs: seq<Json>, ys: seq<Json>)
    ensures Meanings(xs) == Meanings(ys) <==>
      if xs == [] || ys == [] then xs == [] && ys == []
      else Meaning(xs[0]) == Meaning(ys[0]) && Meanings(xs[1..]) == Meanings(ys[1..])
  {
    if xs != [] && ys != [] {
      MeaningsHead(xs);
      MeaningsHead(ys);
      hide Meanings, Meaning;
    }
  }

  lemma {:induction false} ItemsNothing(path: string, c: nat, xs: seq<Json>, ys: seq<Json>)
    requires (forall x | x in xs :: WellNamed(x)) && (forall y | y in ys :: WellNamed(y))
    ensures DiffItems(path, c, xs, ys) == [] <==> Meanings(xs) == Meanings(ys)
    decreases xs, 0, 0
  {
    hide *;
    ItemsDiffer(path, c, xs, ys);
    MeaningsEqual(xs, ys);
    TailPatches(path, c, |xs|, ys);
    if xs != [] && ys != [] {
      DiffNothing(path + "/" + Digits(c), xs[0], ys[0]);
      ItemsNothing(path, c + 1, xs[1..], ys[1..]);
    }
  }

  lemma MembersDiffer(path: string, fs: seq<Entry<Json>>, ts: seq<Entry<Json>>, owner: Json)
    requires forall e | e in fs :: e.item < owner
    ensures fs != [] ==> fs[0].item < owner && forall e | e in fs[1..] :: e.item < owner
    ensures DiffMembers(path, fs, ts, owner) == [] <==>
      if fs == [] || ts == [] then fs == [] && ts == []
      else
        && CaseOrder(fs[0].name, ts[0].name) == 0 && Diff(path + "/" + Encode(fs[0].name), fs[0].item, ts[0].item) == []
        && DiffMembers(path, fs[1..], ts[1..], owner) == []
  {
    hide Diff, CaseOrder, Encode, PatchObject;
  }

  lemma {:induction false} MembersNothing(path: string, fs: seq<Entry<Json>>, ts: seq<Entry<Json>>, owner: Json)
    requires forall e | e in fs :: e.item < owner
    requires WellNamedMembers(fs) && WellNamedMembers(ts) && StrictlyOrdered(fs) && StrictlyOrdered(ts)
    ensures DiffMembers(path, fs, ts, owner) == [] <==> Fields(fs) == Fields(ts)
    decreases owner, 0, |fs|
  {
    hide *;
    MembersDiffer(path, fs, ts, owner);
    if fs == [] || ts == [] {
      OneEmpty(fs, ts);
    } else {
      HeadsDecide(fs, ts);
      WellNamedTail(fs);
      WellNamedTail(ts);
      StrictlyOrderedTail(fs);
      StrictlyOrderedTail(ts);
      DiffNothing(path + "/" + Encode(fs[0].name), fs[0].item, ts[0].item);
      MembersNothing(path, fs[1..], ts[1..], owner);
    }
  }

  /** The list is empty exactly if the two trees mean the same. */
  lemma {:induction false} DiffNothing(path: string, from: Json, to: Json)
    requires WellNamed(from) && WellNamed(to)
    ensures Diff(path, from, to) == [] <==> Meaning(from) == Meaning(to)
    decreases from, 1, 0
  {
    hide *;
    if from.Array? && to.Array? {
      ArraysDiffer(path, from, to);
      ItemsNothing(path, 0, from.items, to.items);
    } else if from.Object? && to.Object? {
      SortedObject(from);
      SortedObject(to);
      DiffOfObjects(path, from, to);
      MembersNothing(path, Sort(from.members), Sort(to.members), from);
    } else {
      DiffOfOthers(path, from, to);
    }
  }
}
