/** Merging a generated merge patch into the very tree it was generated from, as generating leaves it: sorted,
    with old links. */
module LinkedOwn {
  import opened Json
  import opened Sorting
  import opened Compare
  import opened MergeApply
  import opened MergeGenerate
  import opened OldLinks
  import opened LinkedDiff
  import opened LinkedExact
  import opened LinkedMerge

  // ----- what generating leaves of the first tree

  ghost predicate Lower(fs: seq<Entry<Linked>>, h: nat) {
    forall e | e in fs :: Height(Erase(e.item)) < h
  }

  lemma SortedLower(ms: seq<Entry<Linked>>)
    ensures Lower(Sort(ms), Height(Object(EraseMembers(ms))))
  {
    SortKeepsMembers(ms);
    var es := EraseMembers(ms);
    MembersHeightBound(es, MembersHeight(es));
    hide Erase, Sort;
    forall e | e in Sort(ms) ensures Height(Erase(e.item)) <= MembersHeight(es) {
      var i :| 0 <= i < |ms| && ms[i] == e;
      assert es[i] in es;
    }
  }

  /** What `cJSONUtils_GenerateMergePatch` leaves of its first tree. */
  ghost function MergeLeft(f: Linked, to: Json): Linked
    decreases 1 + Height(Erase(f)), 0
  {
    match f
    case Members(ms, stale) =>
      SortedLower(ms);
      if to.Object? then Members(MergeLeftMembers(Sort(ms), Sort(to.members), Height(Erase(f))), Sorted(ms, stale)) else f
    case _ => f
  }

  ghost function MergeLeftMembers(fs: seq<Entry<Linked>>, ts: seq<Entry<Json>>, h: nat): seq<Entry<Linked>>
    requires Lower(fs, h)
    decreases h, 2, |fs| + |ts|
  {
    if fs == [] || ts == [] then fs
    else
      var order := ByteOrder(fs[0].name, ts[0].name);
      if order < 0 then [fs[0]] + MergeLeftMembers(fs[1..], ts, h)
      else if order > 0 then MergeLeftMembers(fs, ts[1..], h)
      else [fs[0].(item := MemberLeft(fs[0].item, ts[0].item, h))] + MergeLeftMembers(fs[1..], ts[1..], h)
  }

  /** Two members with the same name are compared, which sorts below them, and a patch for them is generated
      if they differ. */
  ghost function MemberLeft(f: Linked, t: Json, h: nat): Linked
    requires Height(Erase(f)) < h
    decreases h, 1, 0
  {
    var r := Comparison(Erase(f), t);
    EraseVisited(f, t);
    CompareKeepsHeight(Erase(f), t);
    if r.code == 0 then Visited(f, t) else MergeLeft(Visited(f, t), r.b)
  }

  // ----- it means the same

  lemma MergeLeftIs(f: Linked, to: Json)
    requires f.Members? && to.Object?
    ensures Lower(Sort(f.members), Height(Erase(f)))
    ensures MergeLeft(f, to)
         == Members(MergeLeftMembers(Sort(f.members), Sort(to.members), Height(Erase(f))), Sorted(f.members, f.stale))
  {
    SortedLower(f.members);
    hide Sort, MergeLeftMembers, Lower, Height, EraseMembers, Sorted;
  }

  lemma MergeLeftStep(fs: seq<Entry<Linked>>, ts: seq<Entry<Json>>, h: nat)
    requires Lower(fs, h) && fs != [] && ts != []
    ensures Lower(fs[1..], h) && Height(Erase(fs[0].item)) < h
    ensures var order := ByteOrder(fs[0].name, ts[0].name);
      MergeLeftMembers(fs, ts, h) ==
      if order < 0 then [fs[0]] + MergeLeftMembers(fs[1..], ts, h)
      else if order > 0 then MergeLeftMembers(fs, ts[1..], h)
      else [fs[0].(item := MemberLeft(fs[0].item, ts[0].item, h))] + MergeLeftMembers(fs[1..], ts[1..], h)
  {
    assert fs[0] in fs;
    hide ByteOrder, MemberLeft, Height, Erase;
  }

  lemma {:induction false} MergeLeftMeans(f: Linked, to: Json)
    requires WellNamed(Erase(f)) && WellNamed(to)
    ensures WellNamed(Erase(MergeLeft(f, to))) && Meaning(Erase(MergeLeft(f, to))) == Meaning(Erase(f))
    decreases 1 + Height(Erase(f)), 0
  {
    if f.Members? && to.Object? {
      hide *;
      var fs, ts, h := Sort(f.members), Sort(to.members), Height(Erase(f));
      MergeLeftIs(f, to);
      ErasedObject(f);
      EraseSorts(f.members);
      SortedObject(Erase(f));
      SortedObject(to);
      MergeLeftMembersMean(fs, ts, h);
      ObjectKept(Erase(f), EraseMembers(MergeLeftMembers(fs, ts, h)));
      ErasedObject(MergeLeft(f, to));
    }
  }

  lemma ErasedObject(f: Linked)
    requires f.Members?
    ensures Erase(f) == Object(EraseMembers(f.members))
  {
  }

  lemma {:induction false} MergeLeftMembersMean(fs: seq<Entry<Linked>>, ts: seq<Entry<Json>>, h: nat)
    requires Lower(fs, h) && WellNamedMembers(EraseMembers(fs)) && WellNamedMembers(ts)
    ensures SameMembers(EraseMembers(fs), EraseMembers(MergeLeftMembers(fs, ts, h)))
    decreases h, 2, |fs| + |ts|
  {
    hide *;
    if fs != [] && ts != [] {
      MergeLeftStep(fs, ts, h);
      EraseMembersTail(fs);
      WellNamedTail(EraseMembers(fs));
      WellNamedTail(ts);
      var order := ByteOrder(fs[0].name, ts[0].name);
      if order > 0 {
        MergeLeftMembersMean(fs, ts[1..], h);
      } else {
        if order == 0 { MemberLeftMeans(fs[0].item, ts[0].item, h); }
        var x := if order == 0 then MemberLeft(fs[0].item, ts[0].item, h) else fs[0].item;
        var rest := if order == 0 then ts[1..] else ts;
        MergeLeftMembersMean(fs[1..], rest, h);
        SameMembersCons(EraseMembers(fs), Erase(x), EraseMembers(MergeLeftMembers(fs[1..], rest, h)));
        EraseMembersCons(fs[0].(item := x), MergeLeftMembers(fs[1..], rest, h));
      }
    } else {
      NothingMoreLeft(fs, ts, h);
      SameMembersSelf(EraseMembers(fs));
    }
  }

  lemma NothingMoreLeft(fs: seq<Entry<Linked>>, ts: seq<Entry<Json>>, h: nat)
    requires Lower(fs, h) && (fs == [] || ts == [])
    ensures MergeLeftMembers(fs, ts, h) == fs
  {
  }

  lemma MemberLeftIs(f: Linked, t: Json, h: nat)
    requires Height(Erase(f)) < h
    ensures var r := Comparison(Erase(f), t);
      && Height(Erase(Visited(f, t))) == Height(Erase(f))
      && MemberLeft(f, t, h) == if r.code == 0 then Visited(f, t) else MergeLeft(Visited(f, t), r.b)
  {
    EraseVisited(f, t);
    CompareKeepsHeight(Erase(f), t);
    hide Comparison, Visited, MergeLeft, Height, Erase;
  }

  lemma {:induction false} MemberLeftMeans(f: Linked, t: Json, h: nat)
    requires Height(Erase(f)) < h && WellNamed(Erase(f)) && WellNamed(t)
    ensures WellNamed(Erase(MemberLeft(f, t, h))) && Meaning(Erase(MemberLeft(f, t, h))) == Meaning(Erase(f))
    decreases h, 1, 0
  {
    hide *;
    MemberLeftIs(f, t, h);
    EraseVisited(f, t);
    CompareDecidesMeaning(Erase(f), t);
    var r := Comparison(Erase(f), t);
    if r.code != 0 { MergeLeftMeans(Visited(f, t), r.b); }
  }

  // ----- the condition

  /** The walk leaves the member alone: both trees have the name, met in one step, and their values are
      equal. */
  ghost predicate Kept(e: Entry<Linked>, fnames: seq<string>, ts: seq<Entry<Json>>) {
    var j := FindName(ts, e.name);
    j < |ts| && Meet(fnames, NamesOf(ts), LowerName(e.name)) == Together && Meaning(Erase(e.item)) == Meaning(ts[j].item)
  }

  /** Below a member that both trees have, met in one step. */
  ghost predicate MemberDisturbs(e: Entry<Linked>, fnames: seq<string>, ts: seq<Entry<Json>>)
    decreases e.item, 2
  {
    var j := FindName(ts, e.name);
    && j < |ts| && Meet(fnames, NamesOf(ts), LowerName(e.name)) == Together
    && Meaning(Erase(e.item)) != Meaning(ts[j].item) && Disturbs(e.item, ts[j].item)
  }

  /** In some object for which a patch is generated, the member that comes first and holds an old link once
      the object is sorted is not left alone. */
  ghost predicate Disturbs(f: Linked, to: Json)
    decreases f, 1
  {
    && f.Members? && to.Object?
    && var fs, ts := Sort(f.members), Sort(to.members);
       || (Sorted(f.members, f.stale) && fs != [] && !Kept(fs[0], NamesOf(fs), ts))
       || exists i :: 0 <= i < |fs| && fs[i] in f.members && MemberDisturbs(fs[i], NamesOf(fs), ts)
  }

  lemma DisturbsIs(f: Linked, to: Json)
    requires f.Members? && to.Object?
    ensures var fs, ts := Sort(f.members), Sort(to.members);
      Disturbs(f, to) <==>
        || (Sorted(f.members, f.stale) && fs != [] && !Kept(fs[0], NamesOf(fs), ts))
        || exists i :: 0 <= i < |fs| && MemberDisturbs(fs[i], NamesOf(fs), ts)
  {
    SortedIn(f.members);
    hide Sort, MemberDisturbs, Kept, Sorted, NamesOf;
  }

  // ----- it does not change when the trees are compared

  /** The same tree with the same old links, up to the order of members that sorting undoes. */
  ghost predicate Alike(f: Linked, g: Linked)
    decreases f, 1
  {
    && Rearranged(Erase(f), Erase(g)) && (f.Members? <==> g.Members?)
    && (f.Members? ==>
          var fs, gs := Sort(f.members), Sort(g.members);
          && (Sorted(f.members, f.stale) <==> Sorted(g.members, g.stale)) && |fs| == |gs|
          && forall i :: 0 <= i < |fs| ==> fs[i].name == gs[i].name && fs[i] in f.members && Alike(fs[i].item, gs[i].item))
  }

  ghost predicate AllAlike(fs: seq<Entry<Linked>>, gs: seq<Entry<Linked>>) {
    |fs| == |gs| && forall i :: 0 <= i < |fs| ==> fs[i].name == gs[i].name && Alike(fs[i].item, gs[i].item)
  }

  lemma AlikeIs(f: Linked, g: Linked)
    ensures Alike(f, g) <==>
      && Rearranged(Erase(f), Erase(g)) && (f.Members? <==> g.Members?)
      && (f.Members? ==> (Sorted(f.members, f.stale) <==> Sorted(g.members, g.stale)) && AllAlike(Sort(f.members), Sort(g.members)))
  {
    if f.Members? { SortedIn(f.members); }
    hide Sort, Sorted, Rearranged, Erase;
  }

  lemma {:induction false} AlikeSelf(f: Linked)
    requires WellNamed(Erase(f))
    ensures Alike(f, f)
    decreases f, 1
  {
    hide *;
    RearrangedSelf(Erase(f));
    AlikeIs(f, f);
    if f.Members? {
      SortedKids(f);
      AllAlikeSelf(f, Sort(f.members));
    }
  }

  lemma KidWellNamed(f: Linked, e: Entry<Linked>)
    requires f.Members? && WellNamed(Erase(f)) && e in f.members
    ensures WellNamed(Erase(e.item))
  {
    ErasedObject(f);
    hide Erase, DistinctNames;
    var i :| 0 <= i < |f.members| && f.members[i] == e;
    assert EraseMembers(f.members)[i] in EraseMembers(f.members);
  }

  lemma SortedKids(f: Linked)
    requires f.Members? && WellNamed(Erase(f))
    ensures forall e | e in Sort(f.members) :: e.item < f && WellNamed(Erase(e.item))
  {
    hide *;
    SortOwned(f);
    SortKeepsMembers(f.members);
    forall e: Entry<Linked> | e in Sort(f.members) ensures WellNamed(Erase(e.item)) { KidWellNamed(f, e); }
  }

  lemma {:induction false} AllAlikeSelf(owner: Linked, fs: seq<Entry<Linked>>)
    requires forall e | e in fs :: e.item < owner && WellNamed(Erase(e.item))
    ensures AllAlike(fs, fs)
    decreases owner, 0
  {
    forall i | 0 <= i < |fs| ensures Alike(fs[i].item, fs[i].item) {
      assert fs[i] in fs;
      AlikeSelf(fs[i].item);
    }
    hide Alike;
  }

  lemma AllAlikeCons(f: Entry<Linked>, x: Linked, fs: seq<Entry<Linked>>, gs: seq<Entry<Linked>>)
    requires Alike(f.item, x) && AllAlike(fs, gs)
    ensures AllAlike([f] + fs, [f.(item := x)] + gs)
  {
    hide Alike;
  }

  lemma AlikeAt(fs: seq<Entry<Linked>>, gs: seq<Entry<Linked>>, i: nat)
    requires AllAlike(fs, gs) && i < |fs|
    ensures |gs| == |fs| && fs[i].name == gs[i].name && Alike(fs[i].item, gs[i].item)
  {
    hide Alike;
  }

  lemma AlikeNames(fs: seq<Entry<Linked>>, gs: seq<Entry<Linked>>)
    requires AllAlike(fs, gs)
    ensures |fs| == |gs| && NamesOf(fs) == NamesOf(gs)
  {
    hide Alike;
    assert forall i :: 0 <= i < |fs| ==> NamesOf(fs)[i] == NamesOf(gs)[i];
  }

  lemma AlikeMeans(f: Linked, g: Linked)
    requires Alike(f, g)
    ensures Rearranged(Erase(f), Erase(g)) && Meaning(Erase(f)) == Meaning(Erase(g))
  {
    hide Rearranged, Erase, Sort;
    RearrangedMeans(Erase(f), Erase(g));
  }

  lemma KeptAlike(e: Entry<Linked>, d: Entry<Linked>, fnames: seq<string>, ts: seq<Entry<Json>>, us: seq<Entry<Json>>)
    requires e.name == d.name && Alike(e.item, d.item) && AllRearranged(ts, us)
    ensures Kept(e, fnames, ts) <==> Kept(d, fnames, us)
  {
    AlikeMeans(e.item, d.item);
    FindSameNames(ts, us, e.name);
    hide Alike, Rearranged, Meaning, Erase, Meet, FindName, NamesOf, LowerName;
    var j := FindName(ts, e.name);
    if j < |ts| { RearrangedMeans(ts[j].item, us[j].item); }
  }

  lemma {:induction false} DisturbsAlike(f: Linked, g: Linked, t: Json, u: Json)
    requires Alike(f, g) && Rearranged(t, u)
    ensures Disturbs(f, t) <==> Disturbs(g, u)
    decreases f, 1
  {
    hide *;
    AlikeIs(f, g);
    RearrangedMeans(t, u);
    if f.Members? && t.Object? {
      var fs, gs, ts, us := Sort(f.members), Sort(g.members), Sort(t.members), Sort(u.members);
      DisturbsIs(f, t);
      DisturbsIs(g, u);
      RearrangedKeeps(t, u);
      SortOwned(f);
      AlikeNames(fs, gs);
      if fs != [] {
        AlikeAt(fs, gs, 0);
        KeptAlike(fs[0], gs[0], NamesOf(fs), ts, us);
      }
      forall i | 0 <= i < |fs| ensures MemberDisturbs(fs[i], NamesOf(fs), ts) <==> MemberDisturbs(gs[i], NamesOf(gs), us) {
        AlikeAt(fs, gs, i);
        assert fs[i] in fs;
        MemberAlike(fs[i], gs[i], NamesOf(fs), ts, us);
      }
    } else {
      NotDisturbed(f, t);
      NotDisturbed(g, u);
    }
  }

  lemma NotDisturbed(f: Linked, t: Json)
    requires !(f.Members? && t.Object?)
    ensures !Disturbs(f, t)
  {
  }

  lemma RearrangedKeeps(t: Json, u: Json)
    requires Rearranged(t, u) && t.Object? && u.Object?
    ensures AllRearranged(Sort(t.members), Sort(u.members))
  {
    RearrangedMeans(t, u);
    assert WellNamed(t) && WellNamed(u);
    hide Rearranged, Sort, Meaning, WellNamed;
    RearrangedObjects(t, u);
  }

  lemma {:induction false} MemberAlike(e: Entry<Linked>, d: Entry<Linked>, fnames: seq<string>, ts: seq<Entry<Json>>, us: seq<Entry<Json>>)
    requires e.name == d.name && Alike(e.item, d.item) && AllRearranged(ts, us)
    ensures MemberDisturbs(e, fnames, ts) <==> MemberDisturbs(d, fnames, us)
    decreases e.item, 2
  {
    AlikeMeans(e.item, d.item);
    FindSameNames(ts, us, e.name);
    hide Alike, Rearranged, Meaning, Erase, Meet, FindName, NamesOf, LowerName, Disturbs;
    var j := FindName(ts, e.name);
    if j < |ts| {
      RearrangedMeans(ts[j].item, us[j].item);
      DisturbsAlike(e.item, d.item, ts[j].item, us[j].item);
    }
  }

  // ----- what a comparison leaves is alike

  lemma {:induction false} VisitedAlike(f: Linked, b: Json)
    requires WellNamed(Erase(f)) && WellNamed(b)
    ensures Alike(f, Visited(f, b))
    decreases f, 1
  {
    hide *;
    EraseVisited(f, b);
    CompareRearranges(Erase(f), b);
    AlikeIs(f, Visited(f, b));
    if f.Members? && b.Object? {
      var fs, ts := Sort(f.members), Sort(b.members);
      VisitedOwned(f, b);
      var gs := VisitedMembers(fs, ts, f);
      SortedKids(f);
      ErasedObject(f);
      SortedObject(Erase(f));
      SortedObject(b);
      EraseSorts(f.members);
      NamesWell(ts);
      VisitedMembersAlike(fs, ts, f);
      AlikeNames(fs, gs);
      OrderedAgain(fs, gs);
      SortedIs(f.members, f.stale);
      SortedIs(gs, Sorted(f.members, f.stale));
    } else {
      VisitedNot(f, b);
      AlikeSelf(f);
      AlikeIs(f, f);
    }
  }

  lemma NamesWell(ts: seq<Entry<Json>>)
    requires WellNamedMembers(ts)
    ensures forall e | e in ts :: WellNamed(e.item)
  {
    hide DistinctNames;
  }

  lemma VisitedOwned(f: Linked, b: Json)
    requires f.Members? && b.Object?
    ensures forall e | e in Sort(f.members) :: e.item < f
    ensures Visited(f, b) == Members(VisitedMembers(Sort(f.members), Sort(b.members), f), Sorted(f.members, f.stale))
  {
    VisitedIs(f.members, f.stale, b);
    hide Visited, VisitedMembers, Sort, Sorted;
  }

  lemma VisitedNot(f: Linked, b: Json)
    requires !(f.Members? && b.Object?)
    ensures Visited(f, b).Members? <==> f.Members?
    ensures f.Members? ==> Visited(f, b) == f
  {
  }

  /** A list with the names of a sorted one is sorted. */
  lemma OrderedAgain(fs: seq<Entry<Linked>>, gs: seq<Entry<Linked>>)
    requires StrictlyOrdered(EraseMembers(fs)) && NamesOf(fs) == NamesOf(gs) && |fs| == |gs|
    ensures Sort(gs) == gs && Sort(fs) == fs && FirstIsLeast(gs)
  {
    hide Erase, CaseOrder;
    forall i, j | 0 <= i < j < |gs| ensures Before(gs[i], gs[j]) && Before(fs[i], fs[j]) {
      assert Before(EraseMembers(fs)[i], EraseMembers(fs)[j]);
      assert NamesOf(fs)[i] == NamesOf(gs)[i] && NamesOf(fs)[j] == NamesOf(gs)[j];
    }
  }

  lemma VisitedRound(fs: seq<Entry<Linked>>, ts: seq<Entry<Json>>, owner: Linked)
    requires (forall e | e in fs :: e.item < owner && WellNamed(Erase(e.item))) && forall e | e in ts :: WellNamed(e.item)
    ensures fs != [] ==> fs[0].item < owner && WellNamed(Erase(fs[0].item))
    ensures fs != [] ==> forall e | e in fs[1..] :: e.item < owner && WellNamed(Erase(e.item))
    ensures ts != [] ==> WellNamed(ts[0].item) && forall e | e in ts[1..] :: WellNamed(e.item)
    ensures VisitedMembers(fs, ts, owner) ==
      if fs == [] || ts == [] || CaseOrder(fs[0].name, ts[0].name) != 0 then fs
      else [fs[0].(item := Visited(fs[0].item, ts[0].item))]
           + (if Comparison(Erase(fs[0].item), ts[0].item).code != 0 then fs[1..] else VisitedMembers(fs[1..], ts[1..], owner))
  {
    hide CaseOrder, Visited, Comparison, Erase, WellNamed;
  }

  lemma {:induction false} VisitedMembersAlike(fs: seq<Entry<Linked>>, ts: seq<Entry<Json>>, owner: Linked)
    requires (forall e | e in fs :: e.item < owner && WellNamed(Erase(e.item))) && forall e | e in ts :: WellNamed(e.item)
    ensures AllAlike(fs, VisitedMembers(fs, ts, owner))
    decreases owner, 0, |fs|
  {
    hide *;
    AllAlikeSelf(owner, fs);
    VisitedRound(fs, ts, owner);
    if fs != [] && ts != [] && CaseOrder(fs[0].name, ts[0].name) == 0 {
      VisitedAlike(fs[0].item, ts[0].item);
      AllAlikeSelf(owner, fs[1..]);
      VisitedMembersAlike(fs[1..], ts[1..], owner);
      assert [fs[0]] + fs[1..] == fs;
      AllAlikeCons(fs[0], Visited(fs[0].item, ts[0].item), fs[1..], fs[1..]);
      AllAlikeCons(fs[0], Visited(fs[0].item, ts[0].item), fs[1..], VisitedMembers(fs[1..], ts[1..], owner));
    }
  }

  // ----- what the patch says of a name

  lemma LacksHead(e: Entry<Json>, ps: seq<Entry<Json>>, k: string)
    ensures Lacks([e] + ps, k) <==> LowerName(e.name) != k && Lacks(ps, k)
  {
    hide LowerName;
    var r := [e] + ps;
    assert forall x :: x in r <==> x == e || x in ps;
  }

  lemma CollectedCons(e: Entry<Json>, ps: seq<Entry<Json>>, name: string)
    ensures Collected([e] + ps, name) ==
      if LowerName(e.name) != LowerName(name) then Collected(ps, name)
      else if !e.item.Object? then []
      else e.item.members + Collected(ps, name)
  {
    assert ([e] + ps)[1..] == ps;
    hide LowerName;
  }

  /** The patch has a member called `name` or not, and what its members of that name merge into a member. */
  ghost predicate Says(ps: seq<Entry<Json>>, name: string, some: bool, below: seq<Entry<Json>>) {
    (Lacks(ps, LowerName(name)) <==> !some) && Collected(ps, name) == below
  }

  lemma SaysHead(e: Entry<Json>, ps: seq<Entry<Json>>, name: string, some: bool, below: seq<Entry<Json>>)
    requires Says(ps, name, some, below)
    ensures LowerName(e.name) != LowerName(name) ==> Says([e] + ps, name, some, below)
    ensures LowerName(e.name) == LowerName(name) ==> Says([e] + ps, name, true, if e.item.Object? then e.item.members + below else [])
  {
    LacksHead(e, ps, LowerName(name));
    CollectedCons(e, ps, name);
    hide LowerName, Collected, Lacks;
  }

  lemma SaysNull(name: string, spelled: string, ps: seq<Entry<Json>>)
    requires LowerName(spelled) == LowerName(name)
    ensures Says([Entry(spelled, Null)] + ps, name, true, [])
  {
    LacksHead(Entry(spelled, Null), ps, LowerName(name));
    CollectedCons(Entry(spelled, Null), ps, name);
    hide LowerName, Collected, Lacks;
  }

  /** One step of the walk that generates the patch. */
  lemma WalkStep(fs: seq<Entry<Json>>, ts: seq<Entry<Json>>, h: nat)
    requires Bounded(fs, h) && (fs != [] || ts != [])
    ensures fs != [] ==> Bounded(fs[1..], h) && Height(fs[0].item) < h
    ensures var order := if fs == [] then 1 else if ts == [] then -1 else ByteOrder(fs[0].name, ts[0].name);
      MergeDiff(fs, ts, h) ==
      if order < 0 then [Entry(fs[0].name, Null)] + MergeDiff(fs[1..], ts, h)
      else if order > 0 then [ts[0]] + MergeDiff(fs, ts[1..], h)
      else MemberDiff(fs[0], ts[0], h) + MergeDiff(fs[1..], ts[1..], h)
  {
    if fs != [] { BoundedTail(fs, h); }
    hide MemberDiff, ByteOrder, Height;
  }

  lemma NothingSaid(name: string)
    ensures Says([], name, false, [])
  {
  }

  lemma NothingDiffers(h: nat)
    ensures Bounded([], h) && MergeDiff([], [], h) == []
  {
  }

  lemma AppendNothing(ps: seq<Entry<Json>>)
    ensures [] + ps == ps && ps + [] == ps
  {
  }

  /** At most one entry, with the name of the second member. */
  lemma SaysMember(m: seq<Entry<Json>>, ps: seq<Entry<Json>>, spelled: string, name: string, some: bool, below: seq<Entry<Json>>)
    requires |m| <= 1 && (forall e :: e in m ==> e.name == spelled) && Says(ps, name, some, below)
    ensures LowerName(spelled) != LowerName(name) ==> Says(m + ps, name, some, below)
    ensures LowerName(spelled) == LowerName(name) ==>
      if m == [] then Says(m + ps, name, some, below)
      else Says(m + ps, name, true, if m[0].item.Object? then m[0].item.members + below else [])
  {
    hide *;
    AppendNothing(ps);
    if m != [] {
      assert m == [m[0]] && m[0] in m;
      SaysHead(m[0], ps, name, some, below);
    }
  }

  /** Neither list has the name. */
  lemma {:induction false} SaysAbsent(fs: seq<Entry<Json>>, ts: seq<Entry<Json>>, h: nat, name: string)
    requires Bounded(fs, h) && DistinctNames(fs) && DistinctNames(ts) && Lacks(fs, LowerName(name)) && Lacks(ts, LowerName(name))
    ensures Says(MergeDiff(fs, ts, h), name, false, [])
    decreases |fs| + |ts|
  {
    hide *;
    if fs != [] || ts != [] {
      WalkStep(fs, ts, h);
      if fs != [] { LacksTail(fs, LowerName(name)); }
      if ts != [] { LacksTail(ts, LowerName(name)); }
      var order := if fs == [] then 1 else if ts == [] then -1 else ByteOrder(fs[0].name, ts[0].name);
      var f, t := if order <= 0 then fs[1..] else fs, if order >= 0 then ts[1..] else ts;
      SaysAbsent(f, t, h, name);
      if order < 0 { SaysHead(Entry(fs[0].name, Null), MergeDiff(f, t, h), name, false, []); }
      else if order > 0 { SaysHead(ts[0], MergeDiff(f, t, h), name, false, []); }
      else {
        MemberDiffShape(fs[0], ts[0], h);
        SaysMember(MemberDiff(fs[0], ts[0], h), MergeDiff(f, t, h), ts[0].name, name, false, []);
      }
    } else {
      NothingDiffers(h);
      NothingSaid(name);
    }
  }

  /** Only the first list has the name. */
  lemma {:induction false} SaysGone(fs: seq<Entry<Json>>, ts: seq<Entry<Json>>, h: nat, i: nat, name: string)
    requires Bounded(fs, h) && DistinctNames(fs) && DistinctNames(ts) && i < |fs|
    requires LowerName(fs[i].name) == LowerName(name) && Lacks(ts, LowerName(name))
    ensures Says(MergeDiff(fs, ts, h), name, true, [])
    decreases |fs| + |ts|
  {
    hide *;
    WalkStep(fs, ts, h);
    if ts != [] {
      LacksTail(ts, LowerName(name));
      ByteOrderZero(fs[0].name, ts[0].name);
    }
    LacksTail(fs, LowerName(name));
    var order := if ts == [] then -1 else ByteOrder(fs[0].name, ts[0].name);
    if order > 0 {
      SaysGone(fs, ts[1..], h, i, name);
      SaysHead(ts[0], MergeDiff(fs, ts[1..], h), name, true, []);
    } else if i == 0 {
      SaysNull(name, fs[0].name, MergeDiff(fs[1..], ts, h));
    } else {
      var rest := if order == 0 then ts[1..] else ts;
      DistinctAt(fs, 0, i);
      SaysGone(fs[1..], rest, h, i - 1, name);
      if order < 0 {
        SaysHead(Entry(fs[0].name, Null), MergeDiff(fs[1..], rest, h), name, true, []);
      } else {
        MemberDiffShape(fs[0], ts[0], h);
        SaysMember(MemberDiff(fs[0], ts[0], h), MergeDiff(fs[1..], rest, h), ts[0].name, name, true, []);
      }
    }
  }

  /** What the patch holds below a member both lists have. */
  ghost function Inside(m: seq<Entry<Json>>): seq<Entry<Json>> {
    if m != [] && m[0].item.Object? then m[0].item.members else []
  }

  /** Both lists have the name, and the walk does not set it before it deletes it. */
  lemma {:induction false} SaysBoth(fs: seq<Entry<Json>>, ts: seq<Entry<Json>>, h: nat, i: nat, j: nat, name: string)
    requires Bounded(fs, h) && DistinctNames(fs) && DistinctNames(ts) && i < |fs| && j < |ts|
    requires LowerName(fs[i].name) == LowerName(name) && LowerName(ts[j].name) == LowerName(name)
    ensures match Meet(NamesOf(fs), NamesOf(ts), LowerName(name))
      case Together =>
        Height(fs[i].item) < h && Says(MergeDiff(fs, ts, h), name, MemberDiff(fs[i], ts[j], h) != [], Inside(MemberDiff(fs[i], ts[j], h)))
      case NullFirst => Says(MergeDiff(fs, ts, h), name, true, [])
      case SetFirst => true
    decreases |fs| + |ts|
  {
    hide *;
    var k := LowerName(name);
    WalkStep(fs, ts, h);
    MeetStep(fs, ts, k);
    ByteOrderZero(fs[0].name, ts[0].name);
    LacksTail(fs, k);
    LacksTail(ts, k);
    if i > 0 { DistinctAt(fs, 0, i); }
    if j > 0 { DistinctAt(ts, 0, j); }
    var order := ByteOrder(fs[0].name, ts[0].name);
    if order < 0 {
      if i == 0 {
        SaysNull(name, fs[0].name, MergeDiff(fs[1..], ts, h));
      } else {
        SaysBoth(fs[1..], ts, h, i - 1, j, name);
        SaysOver(fs, ts, h, i, j, name, [Entry(fs[0].name, Null)], fs[1..], ts);
      }
    } else if order > 0 {
      if j > 0 {
        SaysBoth(fs, ts[1..], h, i, j - 1, name);
        SaysOver(fs, ts, h, i, j, name, [ts[0]], fs, ts[1..]);
      }
    } else if i == 0 {
      SaysAbsent(fs[1..], ts[1..], h, name);
      MemberDiffShape(fs[0], ts[0], h);
      SaysMember(MemberDiff(fs[0], ts[0], h), MergeDiff(fs[1..], ts[1..], h), ts[0].name, name, false, []);
      InsideIs(MemberDiff(fs[0], ts[0], h));
    } else {
      SaysBoth(fs[1..], ts[1..], h, i - 1, j - 1, name);
      MemberDiffShape(fs[0], ts[0], h);
      SaysOver(fs, ts, h, i, j, name, MemberDiff(fs[0], ts[0], h), fs[1..], ts[1..]);
    }
  }

  lemma InsideIs(m: seq<Entry<Json>>)
    ensures m == [] ==> Inside(m) == []
    ensures m != [] ==> (if m[0].item.Object? then m[0].item.members + [] else []) == Inside(m)
  {
    if m != [] && m[0].item.Object? { assert m[0].item.members + [] == m[0].item.members; }
  }

  /** A step that passes another name. */
  lemma SaysOver(fs: seq<Entry<Json>>, ts: seq<Entry<Json>>, h: nat, i: nat, j: nat, name: string, m: seq<Entry<Json>>,
                 fs1: seq<Entry<Json>>, ts1: seq<Entry<Json>>)
    requires i < |fs| && j < |ts| && Bounded(fs, h) && Bounded(fs1, h) && MergeDiff(fs, ts, h) == m + MergeDiff(fs1, ts1, h) && |m| <= 1
    requires m != [] ==> LowerName(m[0].name) != LowerName(name)
    ensures forall some: bool, below: seq<Entry<Json>> ::
              Says(MergeDiff(fs1, ts1, h), name, some, below) ==> Says(MergeDiff(fs, ts, h), name, some, below)
  {
    hide *;
    forall some: bool, below: seq<Entry<Json>> | Says(MergeDiff(fs1, ts1, h), name, some, below)
      ensures Says(MergeDiff(fs, ts, h), name, some, below)
    {
      AppendNothing(MergeDiff(fs1, ts1, h));
      if m != [] {
        assert m == [m[0]];
        SaysHead(m[0], MergeDiff(fs1, ts1, h), name, some, below);
      }
    }
  }

  // ----- the trees the members become

  lemma MemberNamesSame(es: seq<Entry<Json>>, fs: seq<Entry<Linked>>)
    requires es == EraseMembers(fs) && DistinctNames(es)
    ensures NamesOf(es) == NamesOf(fs) && DistinctNames(fs)
  {
    hide LowerName, Erase;
    assert forall i :: 0 <= i < |fs| ==> es[i].name == fs[i].name;
  }

  lemma {:induction false} MergeLeftNames(fs: seq<Entry<Linked>>, ts: seq<Entry<Json>>, h: nat)
    requires Lower(fs, h)
    ensures |MergeLeftMembers(fs, ts, h)| == |fs| && NamesOf(MergeLeftMembers(fs, ts, h)) == NamesOf(fs)
    decreases |fs| + |ts|
  {
    hide *;
    if fs != [] && ts != [] {
      MergeLeftStep(fs, ts, h);
      var order := ByteOrder(fs[0].name, ts[0].name);
      if order > 0 {
        MergeLeftNames(fs, ts[1..], h);
      } else {
        var x := if order == 0 then fs[0].(item := MemberLeft(fs[0].item, ts[0].item, h)) else fs[0];
        var rest := if order == 0 then ts[1..] else ts;
        MergeLeftNames(fs[1..], rest, h);
        NamesOfCons(x, MergeLeftMembers(fs[1..], rest, h));
        NamesOfHead(fs);
      }
    } else {
      NothingMoreLeft(fs, ts, h);
    }
  }

  lemma NamesOfHead<T>(es: seq<Entry<T>>)
    requires es != []
    ensures |es[1..]| == |es| - 1 && NamesOf(es) == [es[0].name] + NamesOf(es[1..])
  {
  }

  lemma NamesOfCons<T>(e: Entry<T>, es: seq<Entry<T>>)
    ensures NamesOf([e] + es) == [e.name] + NamesOf(es)
  {
  }

  /** A member met in one step becomes what comparing, and generating below it, leaves. */
  lemma {:induction false} MergeLeftAt(fs: seq<Entry<Linked>>, ts: seq<Entry<Json>>, h: nat, i: nat, j: nat)
    requires Lower(fs, h) && DistinctNames(fs) && DistinctNames(ts) && i < |fs| && j < |ts|
    requires LowerName(fs[i].name) == LowerName(ts[j].name)
    requires Meet(NamesOf(fs), NamesOf(ts), LowerName(ts[j].name)) == Together
    ensures Height(Erase(fs[i].item)) < h && i < |MergeLeftMembers(fs, ts, h)|
    ensures MergeLeftMembers(fs, ts, h)[i].item == MemberLeft(fs[i].item, ts[j].item, h)
    decreases |fs| + |ts|
  {
    hide *;
    var k := LowerName(ts[j].name);
    MergeLeftStep(fs, ts, h);
    MeetStep(fs, ts, k);
    ByteOrderZero(fs[0].name, ts[0].name);
    LacksTail(fs, k);
    LacksTail(ts, k);
    if i > 0 { DistinctAt(fs, 0, i); }
    if j > 0 { DistinctAt(ts, 0, j); }
    var order := ByteOrder(fs[0].name, ts[0].name);
    if order < 0 {
      MergeLeftAt(fs[1..], ts, h, i - 1, j);
    } else if order > 0 {
      MergeLeftAt(fs, ts[1..], h, i, j - 1);
    } else if i > 0 {
      MergeLeftAt(fs[1..], ts[1..], h, i - 1, j - 1);
    }
  }

  // ----- what the patch does to them

  lemma OnePatch(x: Linked, n: string, p: Json)
    ensures TouchedBy(x, Inside([Entry(n, p)])) <==> Touches(Some(x), p)
  {
    TouchedIs(x, []);
    hide TouchedBy;
  }

  lemma NothingInside(x: Linked)
    ensures !TouchedBy(x, Inside([])) && !TouchedBy(x, [])
  {
    TouchedIs(x, []);
    hide TouchedBy;
  }

  /** A member met in one step. */
  lemma {:induction false} OwnTogether(e: Entry<Linked>, t: Entry<Json>, h: nat)
    requires Height(Erase(e.item)) < h && WellNamed(Erase(e.item)) && WellNamed(t.item)
    requires Meaning(Erase(e.item)) == Meaning(t.item) || Reaches(Erase(e.item), t.item)
    ensures var m := MemberDiff(Entry(e.name, Erase(e.item)), t, h);
      && (m == [] <==> Meaning(Erase(e.item)) == Meaning(t.item))
      && (TouchedBy(MemberLeft(e.item, t.item, h), Inside(m)) <==>
          Meaning(Erase(e.item)) != Meaning(t.item) && Disturbs(e.item, t.item))
    decreases h, 0
  {
    hide *;
    var f, v, r := Erase(e.item), Visited(e.item, t.item), Comparison(Erase(e.item), t.item);
    CompareDecidesMeaning(f, t.item);
    MemberDiffIs(Entry(e.name, f), t, h);
    MemberDiffExact(Entry(e.name, f), t, h);
    MemberLeftIs(e.item, t.item, h);
    if r.code == 0 {
      NothingInside(v);
    } else {
      EraseVisited(e.item, t.item);
      CompareRearranges(f, t.item);
      ReachesRearranged(f, t.item, r.a, r.b);
      VisitedAlike(e.item, t.item);
      DisturbsAlike(e.item, v, t.item, r.b);
      OwnTouched(v, r.b);
      OnePatch(MergeLeft(v, r.b), t.name, GenerateMergePatch(Some(r.a), Some(r.b)).value);
    }
  }

  lemma KeptIs(e: Entry<Linked>, fnames: seq<string>, ts: seq<Entry<Json>>)
    ensures var j := FindName(ts, e.name);
      && (Kept(e, fnames, ts) <==>
          j < |ts| && Meet(fnames, NamesOf(ts), LowerName(e.name)) == Together && Meaning(Erase(e.item)) == Meaning(ts[j].item))
      && (MemberDisturbs(e, fnames, ts) <==>
          && j < |ts| && Meet(fnames, NamesOf(ts), LowerName(e.name)) == Together
          && Meaning(Erase(e.item)) != Meaning(ts[j].item) && Disturbs(e.item, ts[j].item))
  {
    hide FindName, Meet, NamesOf, LowerName, Meaning, Erase, Disturbs;
  }

  lemma SaysIs(ps: seq<Entry<Json>>, name: string, some: bool, below: seq<Entry<Json>>)
    requires Says(ps, name, some, below)
    ensures (Lacks(ps, LowerName(name)) <==> !some) && Collected(ps, name) == below
  {
    hide Lacks, Collected, LowerName;
  }

  lemma MemberReachesIs(fs: seq<Entry<Json>>, t: Entry<Json>, tnames: seq<string>, i: nat)
    requires MemberReaches(fs, t, tnames) && FindName(fs, t.name) == i < |fs|
    ensures var m := Meet(NamesOf(fs), tnames, LowerName(t.name));
      && m != SetFirst
      && (m == Together ==> Meaning(fs[i].item) == Meaning(t.item) || Reaches(fs[i].item, t.item))
  {
    hide FindName, Meet, NamesOf, LowerName, Meaning, Reaches, Settable;
  }

  lemma FoundName<T>(es: seq<Entry<T>>, name: string)
    ensures var j := FindName(es, name);
      if j < |es| then LowerName(es[j].name) == LowerName(name) else Lacks(es, LowerName(name))
  {
    if FindName(es, name) == |es| { FindMisses(es, name); }
    hide FindName, LowerName, Lacks;
  }

  /** What is said of the name of a member, and touched below it. */
  lemma {:induction false} OwnMember(fs: seq<Entry<Linked>>, ts: seq<Entry<Json>>, h: nat, i: nat)
    requires Lower(fs, h) && Bounded(EraseMembers(fs), h) && i < |fs| && |MergeLeftMembers(fs, ts, h)| == |fs|
    requires MergeReady(EraseMembers(fs)) && MergeReady(ts)
    requires forall j :: 0 <= j < |ts| ==> MemberReaches(EraseMembers(fs), ts[j], NamesOf(ts))
    ensures var ps, names := MergeDiff(EraseMembers(fs), ts, h), NamesOf(fs);
      && (!Lacks(ps, LowerName(fs[i].name)) <==> !Kept(fs[i], names, ts))
      && (TouchedBy(MergeLeftMembers(fs, ts, h)[i].item, Collected(ps, fs[i].name)) <==> MemberDisturbs(fs[i], names, ts))
    decreases h, 1
  {
    hide *;
    var es, e, j := EraseMembers(fs), fs[i], FindName(ts, fs[i].name);
    var ps, x := MergeDiff(es, ts, h), MergeLeftMembers(fs, ts, h)[i].item;
    ReadyNames(fs, ts);
    KeptIs(e, NamesOf(fs), ts);
    FoundName(ts, e.name);
    NothingInside(x);
    if j == |ts| {
      SaysGone(es, ts, h, i, e.name);
      SaysIs(ps, e.name, true, []);
    } else {
      FindIsAt(es, i, ts[j].name);
      MemberReachesIs(es, ts[j], NamesOf(ts), i);
      SaysBoth(es, ts, h, i, j, e.name);
      ReadyAt(es, i);
      ReadyAt(ts, j);
      if Meet(NamesOf(es), NamesOf(ts), LowerName(e.name)) == Together {
        MergeLeftAt(fs, ts, h, i, j);
        OwnTogether(e, ts[j], h);
        var m := MemberDiff(es[i], ts[j], h);
        SaysIs(ps, e.name, m != [], Inside(m));
      } else {
        SaysIs(ps, e.name, true, []);
      }
    }
  }

  lemma ReadyNames(fs: seq<Entry<Linked>>, ts: seq<Entry<Json>>)
    requires MergeReady(EraseMembers(fs)) && MergeReady(ts)
    ensures DistinctNames(EraseMembers(fs)) && DistinctNames(fs) && DistinctNames(ts) && NamesOf(EraseMembers(fs)) == NamesOf(fs)
    ensures forall i :: 0 <= i < |fs| ==> EraseMembers(fs)[i] == Entry(fs[i].name, Erase(fs[i].item))
  {
    assert DistinctNames(EraseMembers(fs)) && DistinctNames(ts);
    hide DistinctNames, WellNamed, Erase;
    MemberNamesSame(EraseMembers(fs), fs);
  }

  lemma ReadyAt(es: seq<Entry<Json>>, i: nat)
    requires MergeReady(es) && i < |es|
    ensures WellNamed(es[i].item)
  {
    assert es[i] in es;
    hide WellNamed;
  }

  lemma FindIsAt<T>(es: seq<Entry<T>>, i: nat, name: string)
    requires DistinctNames(es) && i < |es| && LowerName(es[i].name) == LowerName(name)
    ensures FindName(es, name) == i
  {
    hide FindName, LowerName;
    FindIs(es, name, i);
  }

  /** Below the members of a sorted list some patch member touches something exactly if one at its name does. */
  lemma TouchedByIndex(x: Linked, ps: seq<Entry<Json>>)
    requires x.Members? && DistinctNames(x.members)
    ensures TouchedBy(x, ps) <==>
      || (x.stale && x.members != [] && !Lacks(ps, LowerName(x.members[0].name)))
      || exists i :: 0 <= i < |x.members| && TouchedBy(x.members[i].item, Collected(ps, x.members[i].name))
  {
    hide *;
    var gs := x.members;
    TouchedIs(x, ps);
    forall p | p in ps ensures NameTouches(x, ps, p.name) ==>
      || (x.stale && gs != [] && !Lacks(ps, LowerName(gs[0].name)))
      || exists i :: 0 <= i < |gs| && TouchedBy(gs[i].item, Collected(ps, gs[i].name))
    {
      FoundName(gs, p.name);
      KidIs(gs, p.name);
      NameIs(x, ps, p.name);
      HitsIs(x, p.name);
      LacksNot(ps, p);
      var i := FindName(gs, p.name);
      if i < |gs| { CollectedSame(ps, p.name, gs[i].name); }
    }
    if x.stale && gs != [] && !Lacks(ps, LowerName(gs[0].name)) {
      var p := LacksWitness(ps, LowerName(gs[0].name));
      FindIsAt(gs, 0, p.name);
      HitsIs(x, p.name);
      NameIs(x, ps, p.name);
    }
    forall i | 0 <= i < |gs| && TouchedBy(gs[i].item, Collected(ps, gs[i].name)) ensures TouchedBy(x, ps) {
      TouchedIs(gs[i].item, Collected(ps, gs[i].name));
      CollectedSome(ps, gs[i].name);
      var p := LacksWitness(ps, LowerName(gs[i].name));
      FindIsAt(gs, i, p.name);
      KidIs(gs, p.name);
      NameIs(x, ps, p.name);
      CollectedSame(ps, p.name, gs[i].name);
    }
  }

  lemma HitsIs(x: Linked, name: string)
    ensures LinkedPatch.HitsOldLink(x, name) <==> x.Members? && x.stale && x.members != [] && FindName(x.members, name) == 0
  {
    hide FindName;
  }

  lemma LacksNot(ps: seq<Entry<Json>>, p: Entry<Json>)
    requires p in ps
    ensures !Lacks(ps, LowerName(p.name))
  {
    hide LowerName;
  }

  lemma LacksWitness(ps: seq<Entry<Json>>, k: string) returns (p: Entry<Json>)
    requires !Lacks(ps, k)
    ensures p in ps && LowerName(p.name) == k
  {
    hide LowerName;
    p :| p in ps && LowerName(p.name) == k;
  }

  lemma CollectedSome(ps: seq<Entry<Json>>, name: string)
    ensures Collected(ps, name) != [] ==> !Lacks(ps, LowerName(name))
  {
    if Lacks(ps, LowerName(name)) {
      hide LowerName, Collected;
      CollectedOnce(ps, name);
    }
  }

  /** Merging the patch generated for two trees touches an old link of what generating leaves of the first
      exactly if the first disturbs one. */
  lemma {:induction false} OwnTouched(f: Linked, to: Json)
    requires WellNamed(Erase(f)) && WellNamed(to) && Reaches(Erase(f), to)
    ensures var p := GenerateMergePatch(Some(Erase(f)), Some(to));
      Disturbs(f, to) <==> p.Some? && Touches(Some(MergeLeft(f, to)), p.value)
    decreases Height(Erase(f)), 2
  {
    hide *;
    if f.Members? && to.Object? {
      var fs, ts, h := Sort(f.members), Sort(to.members), Height(Erase(f));
      ErasedObject(f);
      EraseSorts(f.members);
      MergeLeftIs(f, to);
      GenerateObjects(Erase(f), to);
      SortedReady(Erase(f));
      SortedReady(to);
      ReachesSorted(Erase(f), to);
      DisturbsIs(f, to);
      MergeLeftNames(fs, ts, h);
      var gs, ps := MergeLeftMembers(fs, ts, h), MergeDiff(EraseMembers(fs), ts, h);
      forall i | 0 <= i < |fs|
        ensures !Lacks(ps, LowerName(fs[i].name)) <==> !Kept(fs[i], NamesOf(fs), ts)
        ensures TouchedBy(gs[i].item, Collected(ps, fs[i].name)) <==> MemberDisturbs(fs[i], NamesOf(fs), ts)
        ensures gs[i].name == fs[i].name
      {
        NamesAt(gs, fs, i);
        OwnMember(fs, ts, h, i);
      }
      ReadyNames(fs, ts);
      DistinctCopied(gs, fs);
      TouchedByIndex(MergeLeft(f, to), ps);
      TouchesObject(MergeLeft(f, to), ps);
      NothingInside(MergeLeft(f, to));
    } else {
      NotDisturbed(f, to);
      OwnOther(f, to);
    }
  }

  lemma NamesAt<S, T>(gs: seq<Entry<S>>, fs: seq<Entry<T>>, i: nat)
    requires NamesOf(gs) == NamesOf(fs) && i < |fs| == |gs|
    ensures gs[i].name == fs[i].name
  {
    assert NamesOf(gs)[i] == NamesOf(fs)[i];
  }

  lemma DistinctCopied<S, T>(gs: seq<Entry<S>>, fs: seq<Entry<T>>)
    requires NamesOf(gs) == NamesOf(fs) && |gs| == |fs| && DistinctNames(fs)
    ensures DistinctNames(gs)
  {
    hide LowerName;
    assert forall i :: 0 <= i < |fs| ==> NamesOf(gs)[i] == NamesOf(fs)[i];
  }

  lemma TouchesObject(x: Linked, ps: seq<Entry<Json>>)
    ensures Touches(Some(x), Object(ps)) <==> TouchedBy(x, ps)
  {
    hide TouchedBy;
  }

  lemma OwnOther(f: Linked, to: Json)
    requires !(f.Members? && to.Object?)
    ensures GenerateMergePatch(Some(Erase(f)), Some(to)) == Some(to) && !Touches(Some(MergeLeft(f, to)), to)
  {
    if to.Object? {
      TouchedIs(f, to.members);
      assert !Erase(f).Object? && MergeLeft(f, to) == f;
    }
    hide TouchedBy, MergeDiff;
  }

  // ----- merging into the tree the patch was generated from

  lemma {:induction false} NamedErased(t: Linked)
    requires WellNamed(Erase(t))
    ensures Named(t)
  {
    hide *;
    if t.Members? {
      ErasedObject(t);
      forall e: Entry<Linked> | e in t.members ensures Named(e.item) {
        KidWellNamed(t, e);
        NamedErased(e.item);
      }
      ErasedDistinct(t);
    }
    NamedBy(t);
  }

  lemma ErasedDistinct(t: Linked)
    requires t.Members? && WellNamed(Erase(t))
    ensures DistinctNames(t.members)
  {
    assert DistinctNames(EraseMembers(t.members));
    hide Erase, DistinctNames;
    MemberNamesSame(EraseMembers(t.members), t.members);
  }

  /** Merging a generated patch, if there is one, into the tree it was generated from, as generating left it,
      goes through no old link and reaches the second tree exactly if the first reaches it and disturbs
      no old link. If it reaches, an old link is all that can stop it. */
  lemma MergeReachesOnItself(f: Linked, to: Json)
    requires WellNamed(Erase(f)) && WellNamed(to)
    ensures var doc, p := MergeLeft(f, to), GenerateMergePatch(Some(Erase(f)), Some(to));
      var r := if p.None? then Fine(doc) else MergedTree(Some(doc), p.value);
      && ((r.Fine? && Comparison(Erase(r.t), to).code == 0) <==> Reaches(Erase(f), to) && !Disturbs(f, to))
      && (Reaches(Erase(f), to) ==> (r == Loops <==> Disturbs(f, to)))
  {
    hide *;
    var doc, p := MergeLeft(f, to), GenerateMergePatch(Some(Erase(f)), Some(to));
    MergeLeftMeans(f, to);
    NamedErased(doc);
    MergePatchReachesTarget(Erase(doc), Erase(f), to);
    if Reaches(Erase(f), to) { OwnTouched(f, to); }
    if p.Some? {
      MergeOnLinked(Some(doc), p.value);
      ErasedSome(doc);
      MergedSome(Erase(doc), p.value);
    }
  }

  lemma ErasedSome(t: Linked)
    ensures EraseOption(Some(t)) == Some(Erase(t))
  {
  }

  lemma MergedSome(target: Json, patch: Json)
    ensures MergePatch(Some(target), Some(patch)) == Some(Merged(Some(target), patch))
  {
  }

  lemma HeadDisturbed(f: Linked, to: Json)
    requires f == Fresh(Object([Entry("b", Number(1)), Entry("a", Number(2))])) && to == Object([Entry("b", Number(1))])
    ensures Disturbs(f, to)
  {
    hide *;
    TwoMembers(f, to);
    TwoSorted(f.members);
    SortedIs(f.members, f.stale);
    SortedAlready(to.members);
    KeptIs(f.members[1], NamesOf(Sort(f.members)), to.members);
    DisturbsIs(f, to);
  }

  lemma TwoMembers(f: Linked, to: Json)
    requires f == Fresh(Object([Entry("b", Number(1)), Entry("a", Number(2))])) && to == Object([Entry("b", Number(1))])
    ensures f.Members? && |f.members| == 2 && f.members[0].name == "b" && f.members[1].name == "a"
    ensures |to.members| == 1 && FindName(to.members, "a") == 1
  {
    assert CaseOrder("b", "a") != 0;
  }

  lemma TwoSorted(ms: seq<Entry<Linked>>)
    requires |ms| == 2 && ms[0].name == "b" && ms[1].name == "a"
    ensures Sort(ms) == [ms[1], ms[0]] && !FirstIsLeast(ms)
  {
    assert CaseOrder("b", "a") > 0;
    hide CaseOrder, Sort, LowerName;
    SortTwo(ms);
    assert !Before(ms[0], ms[1]);
  }

  lemma HeadReaches(from: Json, to: Json)
    requires from == Object([Entry("b", Number(1)), Entry("a", Number(2))]) && to == Object([Entry("b", Number(1))])
    ensures Reaches(from, to)
  {
    var fs, ts := Sort(from.members), to.members;
    SortTwo(from.members);
    assert fs == [Entry("a", Number(2)), Entry("b", Number(1))];
    assert Sort(ts) == ts;
    assert LowerName("a") != LowerName("b") by { CaseOrderZero("a", "b"); }
    FindIsAt(fs, 1, "b");
    MeetStep(fs, ts, LowerName("b"));
    MeetStep(fs[1..], ts, LowerName("b"));
    hide Sort, FindName, Meet, NamesOf, LowerName, CaseOrder;
    assert MemberReaches(fs, ts[0], NamesOf(ts));
  }

  /** Generating from {"b": 1, "a": 2} to {"b": 1} sorts the first tree; merging the patch into it then detaches
      "a" through the old link. */
  lemma MergeHeadOnItself(from: Json, to: Json)
    requires from == Object([Entry("b", Number(1)), Entry("a", Number(2))]) && to == Object([Entry("b", Number(1))])
    ensures var p := GenerateMergePatch(Some(from), Some(to)); p.Some? && MergedTree(Some(MergeLeft(Fresh(from), to)), p.value) == Loops
  {
    hide *;
    TwoNamed(from);
    TwoRootsFit(from, to);
    HeadDisturbed(Fresh(from), to);
    HeadReaches(from, to);
    MergeReachesOnItself(Fresh(from), to);
  }
}
