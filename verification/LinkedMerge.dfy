/** JSON Merge Patch on targets with old links: exactly when a merge detaches a first member through
    one, and that otherwise it is the merge of the values. */
module LinkedMerge {
  import opened Json
  import opened Sorting
  import opened Compare
  import opened MergeApply
  import opened MergeGenerate
  import opened Pointer
  import opened OldLinks
  import opened LinkedDiff
  import opened LinkedPatch

  /** `Loops` where a first member is detached through an old link. */
  datatype Merging = Fine(t: Linked) | Loops

  ghost function KidNamed(ms: seq<Entry<Linked>>, name: string): Option<Linked> {
    var i := FindName(ms, name);
    if i < |ms| then Some(ms[i].item) else None
  }

  /** `cJSONUtils_MergePatch` for a patch that is not null. */
  ghost function MergedTree(target: Option<Linked>, patch: Json): Merging
    decreases patch, 0
  {
    if !patch.Object? then Fine(Fresh(patch))
    else if target.Some? && target.value.Members? then MergedMembers(target.value, patch.members)
    else MergedMembers(Members([], false), patch.members)
  }

  ghost function MergedMembers(node: Linked, ps: seq<Entry<Json>>): Merging
    requires node.Members?
    decreases ps, 0
  {
    if ps == [] then Fine(node)
    else match MergedMember(node, ps[0])
      case Loops => Loops
      case Fine(t) => if t.Members? then MergedMembers(t, ps[1..]) else Loops
  }

  /** Detach, merge, append; a null only detaches. */
  ghost function MergedMember(node: Linked, p: Entry<Json>): (r: Merging)
    requires node.Members?
    ensures r.Fine? ==> r.t.Members?
    decreases p, 1
  {
    if HitsOldLink(node, p.name) then Loops
    else if p.item.Null? then Fine(DetachKid(node, p.name).0)
    else match MergedTree(KidNamed(node.members, p.name), p.item)
      case Loops => Loops
      case Fine(t) => Fine(AddKid(node, p.name, t))
  }

  // ----- without the marks it is the merge of the values

  lemma {:induction false} MergeErases(target: Option<Linked>, patch: Json)
    ensures MergedTree(target, patch).Fine? ==> Erase(MergedTree(target, patch).t) == Merged(EraseOption(target), patch)
    decreases patch, 0
  {
    if patch.Object? {
      assert EraseMembers([]) == [];
      MembersErase(if target.Some? && target.value.Members? then target.value else Members([], false), patch.members);
    }
  }

  lemma {:induction false} MembersErase(node: Linked, ps: seq<Entry<Json>>)
    requires node.Members?
    ensures var r := MergedMembers(node, ps);
      r.Fine? ==> Erase(r.t) == Object(MergeMembers(EraseMembers(node.members), ps))
    decreases ps, 0
  {
    if ps != [] {
      MemberErases(node, ps[0]);
      hide MergedMember, MergeMember, EraseMembers;
      var r := MergedMember(node, ps[0]);
      if r.Fine? { MembersErase(r.t, ps[1..]); }
    }
  }

  lemma {:induction false} MemberErases(node: Linked, p: Entry<Json>)
    requires node.Members?
    ensures var r := MergedMember(node, p);
      r.Fine? ==> r.t.Members? && EraseMembers(r.t.members) == MergeMember(EraseMembers(node.members), p)
    decreases p, 1
  {
    var ms := node.members;
    EraseFinds(ms, p.name);
    if p.item.Null? {
      DetachKidErases(node, p.name);
    } else {
      MergeErases(KidNamed(ms, p.name), p.item);
      var r := MergedTree(KidNamed(ms, p.name), p.item);
      if r.Fine? { AddKidErases(node, p.name, r.t); }
      assert EraseOption(KidNamed(ms, p.name)) == Lookup(EraseMembers(ms), p.name);
    }
  }

  // ----- exactly when a merge goes through an old link

  /** What the members of a patch that are called `name` merge into a member that is there: all their
      members, in this order, up to the first of them that replaces it as a whole. */
  function Collected(ps: seq<Entry<Json>>, name: string): seq<Entry<Json>> {
    if ps == [] then []
    else if LowerName(ps[0].name) != LowerName(name) then Collected(ps[1..], name)
    else if !ps[0].item.Object? then []
    else ps[0].item.members + Collected(ps[1..], name)
  }

  /** The members called `name` detach the first member of `node` through an old link, or go through one
      below the member they name. */
  ghost predicate NameTouches(node: Linked, ps: seq<Entry<Json>>, name: string)
    requires node.Members?
    decreases node, 0
  {
    var kid := KidNamed(node.members, name);
    HitsOldLink(node, name) || (kid.Some? && kid.value < node && TouchedBy(kid.value, Collected(ps, name)))
  }

  ghost predicate TouchedBy(node: Linked, ps: seq<Entry<Json>>)
    decreases node, 1
  {
    node.Members? && exists p | p in ps :: NameTouches(node, ps, p.name)
  }

  /** Some member of the patch names the first member of an object that holds an old link there, in
      the target or below a member both have that is not replaced as a whole before. */
  ghost predicate Touches(target: Option<Linked>, patch: Json) {
    patch.Object? && target.Some? && TouchedBy(target.value, patch.members)
  }

  /** Names differ in every object reached through objects. */
  ghost predicate Named(t: Linked) {
    t.Members? ==> DistinctNames(t.members) && forall e | e in t.members :: Named(e.item)
  }

  function Size(v: Json): nat
    decreases v, 1
  {
    if v.Object? then MembersSize(v.members) else 0
  }

  function MembersSize(ms: seq<Entry<Json>>): nat
    decreases ms, 0
  {
    if ms == [] then 0 else 1 + Size(ms[0].item) + MembersSize(ms[1..])
  }

  lemma {:induction false} SizeAppend(a: seq<Entry<Json>>, b: seq<Entry<Json>>)
    ensures MembersSize(a + b) == MembersSize(a) + MembersSize(b)
  {
    if a == [] {
      assert a + b == b;
    } else {
      assert (a + b)[0] == a[0] && (a + b)[1..] == a[1..] + b;
      SizeAppend(a[1..], b);
    }
    hide Size;
  }

  lemma {:induction false} CollectedSize(ps: seq<Entry<Json>>, name: string)
    ensures MembersSize(Collected(ps, name)) <= MembersSize(ps)
    ensures ps != [] ==> MembersSize(Collected(ps, name)) < MembersSize(ps)
  {
    hide LowerName;
    if ps != [] {
      CollectedSize(ps[1..], name);
      if ps[0].item.Object? { SizeAppend(ps[0].item.members, Collected(ps[1..], name)); }
    }
  }

  lemma {:induction false} MergedAppend(node: Linked, a: seq<Entry<Json>>, b: seq<Entry<Json>>)
    requires node.Members?
    ensures MergedMembers(node, a).Fine? ==> MergedMembers(node, a).t.Members?
    ensures MergedMembers(node, a + b) == match MergedMembers(node, a)
      case Loops => Loops
      case Fine(t) => if t.Members? then MergedMembers(t, b) else Loops
    decreases |a|
  {
    hide MergedMember;
    if a == [] {
      assert a + b == b;
    } else {
      assert (a + b)[0] == a[0] && (a + b)[1..] == a[1..] + b;
      var r := MergedMember(node, a[0]);
      if r.Fine? { MergedAppend(r.t, a[1..], b); }
    }
  }

  lemma KidIs(ms: seq<Entry<Linked>>, name: string)
    ensures var i := FindName(ms, name); KidNamed(ms, name) == if i < |ms| then Some(ms[i].item) else None
  {
    hide FindName;
  }

  lemma OthersDetached(node: Linked, n: string, name: string)
    requires node.Members? && !HitsOldLink(node, n) && LowerName(name) != LowerName(n)
    ensures var t := DetachKid(node, n).0;
      && t.Members? && KidNamed(t.members, name) == KidNamed(node.members, name)
      && (HitsOldLink(t, name) <==> HitsOldLink(node, name))
  {
    hide *;
    var ms, i := node.members, FindName(node.members, n);
    DetachKidHits(node, n, [], name);
    DetachKidIs(node, n);
    HitNow(DetachKid(node, n).0, name);
    HitNow(node, name);
    if i < |ms| {
      FindWithout(ms, i, name);
      WithoutIndex(ms, i);
      KidIs(Without(ms, i), name);
      KidIs(ms, name);
    }
  }

  lemma OthersAdded(node: Linked, n: string, t: Linked, name: string)
    requires node.Members? && !HitsOldLink(node, n) && LowerName(name) != LowerName(n)
    ensures var r := AddKid(node, n, t);
      && r.Members? && KidNamed(r.members, name) == KidNamed(node.members, name)
      && (HitsOldLink(r, name) <==> HitsOldLink(node, name))
  {
    hide *;
    var ms, i := node.members, FindName(node.members, n);
    AddKidHits(node, n, t, [], name);
    AddKidIs(node, n, t);
    HitNow(AddKid(node, n, t), name);
    HitNow(node, name);
    if i < |ms| { FindWithout(ms, i, name); WithoutIndex(ms, i); }
    var es := if i < |ms| then Without(ms, i) else ms;
    FindAppended(es, Entry(n, t), name);
    KidIs(es + [Entry(n, t)], name);
    KidIs(ms, name);
  }

  /** Members with other names are left alone. */
  lemma OthersStay(node: Linked, p: Entry<Json>, name: string)
    requires node.Members? && MergedMember(node, p).Fine? && LowerName(name) != LowerName(p.name)
    ensures var t := MergedMember(node, p).t;
      KidNamed(t.members, name) == KidNamed(node.members, name) && (HitsOldLink(t, name) <==> HitsOldLink(node, name))
  {
    var ms := node.members;
    if p.item.Null? {
      OthersDetached(node, p.name, name);
    } else {
      OthersAdded(node, p.name, MergedTree(KidNamed(ms, p.name), p.item).t, name);
    }
    hide FindName, Without, LowerName, HitsOldLink;
  }

  // ----- what one member of a patch leaves

  lemma NamedKid(node: Linked, name: string)
    requires Named(node) && node.Members? && KidNamed(node.members, name).Some?
    ensures Named(KidNamed(node.members, name).value)
  {
    hide FindName;
    assert node.members[FindName(node.members, name)] in node.members;
  }

  lemma NamedSet(node: Linked, n: string, t: Linked)
    requires Named(node) && node.Members? && Named(t)
    ensures Named(AddKid(node, n, t)) && Named(DetachKid(node, n).0)
  {
    var ms, i := node.members, FindName(node.members, n);
    AddKidIs(node, n, t);
    DetachKidIs(node, n);
    hide AddKid, DetachKid, FindName, LowerName, Named, Without;
    NamedAre(node);
    if i < |ms| {
      DistinctWithout(ms, i);
      WithoutIndex(ms, i);
    }
    var es: seq<Entry<Linked>> := if i < |ms| then Without(ms, i) else ms;
    forall e: Entry<Linked> | e in es ensures Named(e.item) && LowerName(e.name) != LowerName(n) { OtherNames(ms, n, e); }
    NamedBy(Members(es, node.stale));
    NamedAppended(es, Entry(n, t), node.stale && ms != []);
  }

  lemma OtherNames(ms: seq<Entry<Linked>>, n: string, e: Entry<Linked>)
    requires DistinctNames(ms) && (forall m | m in ms :: Named(m.item))
    requires var i := FindName(ms, n); e in if i < |ms| then Without(ms, i) else ms
    ensures Named(e.item) && LowerName(e.name) != LowerName(n)
  {
    var i := FindName(ms, n);
    hide LowerName, Named, FindName, Without;
    if i < |ms| {
      WithoutIndex(ms, i);
      var j :| 0 <= j < |Without(ms, i)| && Without(ms, i)[j] == e;
      assert ms[if j < i then j else j + 1] == e;
    } else {
      var j :| 0 <= j < |ms| && ms[j] == e;
    }
  }

  lemma NamedAre(t: Linked)
    requires Named(t) && t.Members?
    ensures DistinctNames(t.members) && forall e | e in t.members :: Named(e.item)
  {
    hide DistinctNames;
  }

  lemma NamedBy(t: Linked)
    requires t.Members? ==> DistinctNames(t.members) && forall e | e in t.members :: Named(e.item)
    ensures Named(t)
  {
    hide DistinctNames;
  }

  lemma NamedAppended(es: seq<Entry<Linked>>, e: Entry<Linked>, stale: bool)
    requires DistinctNames(es) && Named(e.item)
    requires forall m | m in es :: Named(m.item) && LowerName(m.name) != LowerName(e.name)
    ensures Named(Members(es + [e], stale))
  {
    hide LowerName, Named;
    var r := es + [e];
    forall i, j | 0 <= i < j < |r| ensures LowerName(r[i].name) != LowerName(r[j].name) { assert r[i] in es; }
    NamedBy(Members(r, stale));
  }

  lemma {:induction false} MergedNamed(target: Option<Linked>, patch: Json)
    requires (target.Some? ==> Named(target.value)) && MergedTree(target, patch).Fine?
    ensures Named(MergedTree(target, patch).t)
    decreases patch, 0
  {
    if patch.Object? {
      NamedBy(Members([], false));
      MembersNamed(if target.Some? && target.value.Members? then target.value else Members([], false), patch.members);
    }
  }

  lemma {:induction false} MembersNamed(node: Linked, ps: seq<Entry<Json>>)
    requires node.Members? && Named(node) && MergedMembers(node, ps).Fine?
    ensures Named(MergedMembers(node, ps).t)
    decreases ps, 0
  {
    if ps != [] {
      MemberNamed(node, ps[0]);
      MembersNamed(MergedMember(node, ps[0]).t, ps[1..]);
      hide MergedMember, Named;
    }
  }

  lemma {:induction false} MemberNamed(node: Linked, p: Entry<Json>)
    requires node.Members? && Named(node) && MergedMember(node, p).Fine?
    ensures Named(MergedMember(node, p).t)
    decreases p, 1
  {
    NamedSet(node, p.name, node);
    if !p.item.Null? {
      var kid := KidNamed(node.members, p.name);
      if kid.Some? { NamedKid(node, p.name); }
      MergedNamed(kid, p.item);
      NamedSet(node, p.name, MergedTree(kid, p.item).t);
    }
    hide Named, KidNamed, DetachKid, AddKid, HitsOldLink;
  }

  /** The name of a member just merged does not lead to an old link, and leads to what was merged. */
  lemma MergedKid(node: Linked, p: Entry<Json>)
    requires node.Members? && MergedMember(node, p).Fine?
    ensures var t := MergedMember(node, p).t;
      && !HitsOldLink(t, p.name)
      && (!p.item.Null? && DistinctNames(node.members) ==> KidNamed(t.members, p.name) == Some(MergedTree(KidNamed(node.members, p.name), p.item).t))
      && (p.item.Null? && DistinctNames(node.members) ==> KidNamed(t.members, p.name) == None)
  {
    var ms, i := node.members, FindName(node.members, p.name);
    DetachKidOnce(node, p.name);
    if !p.item.Null? {
      var x := MergedTree(KidNamed(ms, p.name), p.item).t;
      var es := if i < |ms| then Without(ms, i) else ms;
      DetachKidIs(node, p.name);
      AddKidIs(node, p.name, x);
      AddedHead(node, es, Entry(p.name, x), p.name);
      if DistinctNames(ms) { AddedFound(ms, p.name, x); }
    } else if DistinctNames(ms) {
      DetachKidIs(node, p.name);
      GoneName(ms, p.name);
    }
    hide FindName, Without, HitsOldLink, DetachKid, AddKid, KidNamed, LowerName;
  }

  lemma GoneName(ms: seq<Entry<Linked>>, n: string)
    requires DistinctNames(ms)
    ensures var i := FindName(ms, n); KidNamed(if i < |ms| then Without(ms, i) else ms, n) == None
  {
    var i := FindName(ms, n);
    var es := if i < |ms| then Without(ms, i) else ms;
    if i < |ms| { WithoutIndex(ms, i); }
    hide FindName, Without, LowerName;
    KidIs(es, n);
    var j := FindName(es, n);
    if j < |es| { assert false; }
  }

  lemma AddedFound(ms: seq<Entry<Linked>>, n: string, x: Linked)
    requires DistinctNames(ms)
    ensures var i := FindName(ms, n); KidNamed((if i < |ms| then Without(ms, i) else ms) + [Entry(n, x)], n) == Some(x)
  {
    var i := FindName(ms, n);
    var es := if i < |ms| then Without(ms, i) else ms;
    GoneName(ms, n);
    KidIs(es, n);
    hide FindName, Without, LowerName, KidNamed, DistinctNames;
    FindAppended(es, Entry(n, x), n);
    KidIs(es + [Entry(n, x)], n);
  }

  /** A target without old links is merged as the values are, whatever the patch. */
  lemma {:induction false} CleanMerges(target: Option<Linked>, patch: Json)
    requires target.Some? ==> Clean(target.value)
    ensures MergedTree(target, patch).Fine? && Clean(MergedTree(target, patch).t)
    decreases patch, 0
  {
    if patch.Object? {
      CleanMembers(if target.Some? && target.value.Members? then target.value else Members([], false), patch.members);
    } else {
      FreshIsClean(patch);
    }
  }

  lemma {:induction false} CleanMembers(node: Linked, ps: seq<Entry<Json>>)
    requires node.Members? && Clean(node)
    ensures MergedMembers(node, ps).Fine? && Clean(MergedMembers(node, ps).t)
    decreases ps, 0
  {
    if ps != [] {
      CleanMember(node, ps[0]);
      CleanMembers(MergedMember(node, ps[0]).t, ps[1..]);
    }
  }

  lemma {:induction false} CleanMember(node: Linked, p: Entry<Json>)
    requires node.Members? && Clean(node)
    ensures MergedMember(node, p).Fine? && Clean(MergedMember(node, p).t)
    decreases p, 1
  {
    CleanEdits(node, p.name, node);
    if !p.item.Null? {
      var kid := KidNamed(node.members, p.name);
      if kid.Some? { assert node.members[FindName(node.members, p.name)] in node.members; }
      CleanMerges(kid, p.item);
      CleanEdits(node, p.name, MergedTree(kid, p.item).t);
    }
  }

  // ----- the condition is exact

  /** Either tree keeps its names apart. */
  ghost predicate Separate(node: Linked, ps: seq<Entry<Json>>) {
    Named(node) || WellNamed(Object(ps))
  }

  lemma {:induction false} CollectedOnce(ps: seq<Entry<Json>>, name: string)
    requires forall p | p in ps :: LowerName(p.name) != LowerName(name)
    ensures Collected(ps, name) == []
  {
    hide LowerName;
    if ps != [] {
      assert ps[0] in ps;
      CollectedOnce(ps[1..], name);
    }
  }

  lemma PatchTail(ps: seq<Entry<Json>>)
    requires ps != [] && WellNamed(Object(ps))
    ensures WellNamed(Object(ps[1..])) && WellNamed(ps[0].item)
    ensures forall p :: p in ps[1..] ==> LowerName(p.name) != LowerName(ps[0].name)
  {
    assert ps[0] in ps;
    hide LowerName;
  }

  lemma CollectedHead(ps: seq<Entry<Json>>)
    requires ps != []
    ensures Collected(ps, ps[0].name) == if ps[0].item.Object? then ps[0].item.members + Collected(ps[1..], ps[0].name) else []
    ensures WellNamed(Object(ps)) ==> Collected(ps[1..], ps[0].name) == []
  {
    if WellNamed(Object(ps)) {
      PatchTail(ps);
      hide WellNamed, LowerName;
      CollectedOnce(ps[1..], ps[0].name);
    }
    hide WellNamed, LowerName;
  }

  lemma CollectedOther(ps: seq<Entry<Json>>, name: string)
    requires ps != [] && LowerName(ps[0].name) != LowerName(name)
    ensures Collected(ps, name) == Collected(ps[1..], name)
  {
    hide LowerName;
  }

  lemma {:induction false} CollectedSame(ps: seq<Entry<Json>>, a: string, b: string)
    requires LowerName(a) == LowerName(b)
    ensures Collected(ps, a) == Collected(ps, b)
  {
    hide LowerName;
    if ps != [] { CollectedSame(ps[1..], a, b); }
  }

  lemma NameSame(node: Linked, ps: seq<Entry<Json>>, a: string, b: string)
    requires node.Members? && LowerName(a) == LowerName(b)
    ensures NameTouches(node, ps, a) <==> NameTouches(node, ps, b)
  {
    FindSame(node.members, a, b);
    CollectedSame(ps, a, b);
    hide LowerName, FindName, Collected;
  }

  lemma NameIs(node: Linked, ps: seq<Entry<Json>>, name: string)
    requires node.Members?
    ensures NameTouches(node, ps, name) <==>
      HitsOldLink(node, name)
      || (KidNamed(node.members, name).Some? && TouchedBy(KidNamed(node.members, name).value, Collected(ps, name)))
  {
    var i := FindName(node.members, name);
    if i < |node.members| { assert node.members[i] in node.members; }
    hide FindName, LowerName, Collected, HitsOldLink;
  }

  lemma TouchedIs(node: Linked, ps: seq<Entry<Json>>)
    ensures TouchedBy(node, ps) <==> node.Members? && exists p | p in ps :: NameTouches(node, ps, p.name)
    ensures ps == [] ==> !TouchedBy(node, ps)
  {
    hide NameTouches;
  }

  lemma HeadAndTail(ps: seq<Entry<Json>>)
    requires ps != []
    ensures forall p :: p in ps <==> p == ps[0] || p in ps[1..]
  {
  }

  lemma {:induction false} RepeatsExactly(node: Linked, ps: seq<Entry<Json>>)
    requires node.Members? && Separate(node, ps)
    ensures MergedMembers(node, ps) == Loops <==> TouchedBy(node, ps)
    decreases MembersSize(ps), 2
  {
    hide *;
    TouchedIs(node, ps);
    if ps == [] {
      NothingMerged(node);
    } else {
      var p := ps[0];
      MembersStep(node, ps);
      HeadAndTail(ps);
      MemberTouches(node, ps);
      var r := MergedMember(node, p);
      if r.Fine? {
        SeparateStep(node, ps);
        RepeatsExactly(r.t, ps[1..]);
        TouchedIs(r.t, ps[1..]);
        forall q | q in ps ensures NameTouches(node, ps, q.name) <==> NameTouches(r.t, ps[1..], q.name) {
          if LowerName(q.name) == LowerName(p.name) {
            NameSame(node, ps, q.name, p.name);
            NameSame(r.t, ps[1..], q.name, p.name);
          } else {
            OthersTouch(node, ps, q.name);
          }
        }
        if NameTouches(r.t, ps[1..], p.name) { TouchedAgain(r.t, ps[1..], p.name); }
      }
    }
  }

  lemma NothingMerged(node: Linked)
    requires node.Members?
    ensures MergedMembers(node, []) == Fine(node)
  {
  }

  lemma MembersStep(node: Linked, ps: seq<Entry<Json>>)
    requires node.Members? && ps != []
    ensures MembersSize(ps[1..]) < MembersSize(ps)
    ensures MergedMembers(node, ps) == match MergedMember(node, ps[0])
      case Loops => Loops
      case Fine(t) => if t.Members? then MergedMembers(t, ps[1..]) else Loops
  {
    hide MergedMember, Size;
  }

  lemma SeparateStep(node: Linked, ps: seq<Entry<Json>>)
    requires node.Members? && ps != [] && Separate(node, ps) && MergedMember(node, ps[0]).Fine?
    ensures Separate(MergedMember(node, ps[0]).t, ps[1..])
  {
    if Named(node) {
      MemberNamed(node, ps[0]);
    } else {
      PatchTail(ps);
    }
    hide MergedMember, Named, WellNamed, LowerName;
  }

  lemma OthersTouch(node: Linked, ps: seq<Entry<Json>>, name: string)
    requires node.Members? && ps != [] && MergedMember(node, ps[0]).Fine? && LowerName(name) != LowerName(ps[0].name)
    ensures NameTouches(node, ps, name) <==> NameTouches(MergedMember(node, ps[0]).t, ps[1..], name)
  {
    hide *;
    OthersStay(node, ps[0], name);
    CollectedOther(ps, name);
    NameIs(node, ps, name);
    NameIs(MergedMember(node, ps[0]).t, ps[1..], name);
  }

  /** A name that still touches something below a merged member is used again. */
  lemma TouchedAgain(t: Linked, ps: seq<Entry<Json>>, name: string)
    requires t.Members? && NameTouches(t, ps, name) && !HitsOldLink(t, name)
    ensures exists q | q in ps :: LowerName(q.name) == LowerName(name)
    ensures exists q | q in ps :: NameTouches(t, ps, q.name)
  {
    hide *;
    NameIs(t, ps, name);
    if forall q | q in ps :: LowerName(q.name) != LowerName(name) {
      CollectedOnce(ps, name);
      TouchedIs(KidNamed(t.members, name).value, []);
      assert false;
    }
    var q :| q in ps && LowerName(q.name) == LowerName(name);
    NameSame(t, ps, q.name, name);
  }

  /** The first member of a patch goes through an old link, or leaves the name as touched as it was. */
  lemma {:induction false} MemberTouches(node: Linked, ps: seq<Entry<Json>>)
    requires node.Members? && ps != [] && Separate(node, ps)
    ensures var p, r := ps[0], MergedMember(node, ps[0]);
      if r == Loops then NameTouches(node, ps, p.name)
      else !HitsOldLink(r.t, p.name) && (NameTouches(node, ps, p.name) <==> NameTouches(r.t, ps[1..], p.name))
    decreases MembersSize(ps), 1
  {
    hide *;
    var p, rest := ps[0], Collected(ps[1..], ps[0].name);
    var kid, r := KidNamed(node.members, p.name), MergedMember(node, p);
    MemberIs(node, p);
    NameIs(node, ps, p.name);
    CollectedHead(ps);
    CollectedSize(ps, p.name);
    CollectedSize(ps[1..], p.name);
    MembersStep(node, ps);
    if !HitsOldLink(node, p.name) {
      if kid.Some? { KidSeparate(node, ps, kid.value); }
      if r.Fine? {
        MergedKid(node, p);
        NameIs(r.t, ps[1..], p.name);
      }
      if p.item.Object? && kid.Some? && kid.value.Members? {
        var ms := p.item.members;
        TreeIs(kid.value, p.item);
        RepeatsExactly(kid.value, ms + rest);
        MergedAppend(kid.value, ms, rest);
        if r.Fine? { AfterMerge(node, ps); }
      } else {
        NothingBelow(node, ps);
      }
    }
  }

  lemma MemberIs(node: Linked, p: Entry<Json>)
    requires node.Members?
    ensures MergedMember(node, p) ==
      if HitsOldLink(node, p.name) then Loops
      else if p.item.Null? then Fine(DetachKid(node, p.name).0)
      else match MergedTree(KidNamed(node.members, p.name), p.item)
        case Loops => Loops
        case Fine(t) => Fine(AddKid(node, p.name, t))
  {
    hide HitsOldLink, DetachKid, AddKid, KidNamed, MergedTree;
  }

  lemma TreeIs(t: Linked, patch: Json)
    requires t.Members? && patch.Object?
    ensures MergedTree(Some(t), patch) == MergedMembers(t, patch.members)
  {
    hide MergedMembers;
  }

  lemma KidSeparate(node: Linked, ps: seq<Entry<Json>>, kid: Linked)
    requires node.Members? && ps != [] && Separate(node, ps) && KidNamed(node.members, ps[0].name) == Some(kid)
    ensures Separate(kid, Collected(ps, ps[0].name))
  {
    if Named(node) {
      NamedKid(node, ps[0].name);
    } else {
      CollectedHead(ps);
      PatchTail(ps);
      if ps[0].item.Object? { assert ps[0].item.members + [] == ps[0].item.members; }
      hide Collected, LowerName, Named;
    }
  }

  /** After an object was merged into an object: what is touched below it is what the rest touches. */
  lemma {:induction false} AfterMerge(node: Linked, ps: seq<Entry<Json>>)
    requires node.Members? && ps != [] && Separate(node, ps) && MergedMember(node, ps[0]).Fine? && ps[0].item.Object?
    requires KidNamed(node.members, ps[0].name).Some? && KidNamed(node.members, ps[0].name).value.Members?
    ensures var r := MergedMembers(KidNamed(node.members, ps[0].name).value, ps[0].item.members);
      && r.Fine? && r.t.Members?
      && (NameTouches(MergedMember(node, ps[0]).t, ps[1..], ps[0].name) <==>
          MergedMembers(r.t, Collected(ps[1..], ps[0].name)) == Loops)
    decreases MembersSize(ps), 0
  {
    hide *;
    var p, rest := ps[0], Collected(ps[1..], ps[0].name);
    var kid, t := KidNamed(node.members, p.name).value, MergedMember(node, p).t;
    MemberIs(node, p);
    TreeIs(kid, p.item);
    MergedAppend(kid, p.item.members, []);
    MergedKid(node, p);
    NameIs(t, ps[1..], p.name);
    CollectedHead(ps);
    CollectedSize(ps[1..], p.name);
    MembersStep(node, ps);
    var x := MergedMembers(kid, p.item.members).t;
    if Named(node) {
      NamedAre(node);
      NamedKid(node, p.name);
      MergedNamed(Some(kid), p.item);
      SeparateNamed(x, rest);
      RepeatsExactly(x, rest);
    } else {
      SeparateOr(node, ps);
      NothingMerged(x);
      if KidNamed(t.members, p.name).Some? { TouchedIs(KidNamed(t.members, p.name).value, []); }
    }
  }

  lemma SeparateNamed(x: Linked, ps: seq<Entry<Json>>)
    requires Named(x)
    ensures Separate(x, ps)
  {
    hide Named, WellNamed;
  }

  lemma SeparateOr(x: Linked, ps: seq<Entry<Json>>)
    requires Separate(x, ps) && !Named(x)
    ensures WellNamed(Object(ps))
  {
    hide Named, WellNamed;
  }

  /** Where nothing was, or was replaced as a whole, nothing is touched. */
  lemma {:induction false} NothingBelow(node: Linked, ps: seq<Entry<Json>>)
    requires node.Members? && ps != [] && Separate(node, ps) && !HitsOldLink(node, ps[0].name)
    requires var kid := KidNamed(node.members, ps[0].name); !ps[0].item.Object? || kid.None? || !kid.value.Members?
    ensures MergedMember(node, ps[0]).Fine?
    ensures !NameTouches(node, ps, ps[0].name) && !NameTouches(MergedMember(node, ps[0]).t, ps[1..], ps[0].name)
    decreases MembersSize(ps), 0
  {
    hide *;
    var p, rest := ps[0], Collected(ps[1..], ps[0].name);
    var kid := KidNamed(node.members, p.name);
    MemberIs(node, p);
    NameIs(node, ps, p.name);
    CollectedHead(ps);
    CollectedSize(ps[1..], p.name);
    MembersStep(node, ps);
    if kid.Some? { TouchedIs(kid.value, Collected(ps, p.name)); }
    NewMerge(kid, p.item);
    MergedKid(node, p);
    var t := MergedMember(node, p).t;
    NameIs(t, ps[1..], p.name);
    if !Named(node) {
      SeparateOr(node, ps);
      if KidNamed(t.members, p.name).Some? { TouchedIs(KidNamed(t.members, p.name).value, []); }
    } else {
      NamedAre(node);
      if !p.item.Null? {
        var x := MergedTree(kid, p.item).t;
        if kid.Some? { NamedKid(node, p.name); }
        MergedNamed(kid, p.item);
        TouchedIs(x, rest);
        if x.Members? {
          SeparateNamed(x, rest);
          CleanMembers(x, rest);
          RepeatsExactly(x, rest);
        }
      }
    }
  }

  /** Such a merge is out of new nodes. */
  lemma NewMerge(kid: Option<Linked>, patch: Json)
    requires !patch.Object? || kid.None? || !kid.value.Members?
    ensures MergedTree(kid, patch).Fine? && Clean(MergedTree(kid, patch).t)
  {
    FreshIsClean(patch);
    if patch.Object? { CleanMembers(Members([], false), patch.members); }
    hide MergedMembers, Fresh;
  }

  lemma TouchesExactly(target: Option<Linked>, patch: Json)
    requires WellNamed(patch) || (target.Some? ==> Named(target.value))
    ensures MergedTree(target, patch) == Loops <==> Touches(target, patch)
  {
    if patch.Object? && target.Some? && target.value.Members? {
      TreeIs(target.value, patch);
      hide MergedTree, MergedMembers, TouchedBy, Named, WellNamed;
      RepeatsExactly(target.value, patch.members);
    } else {
      NewMerge(target, patch);
      if target.Some? { TouchedIs(target.value, if patch.Object? then patch.members else []); }
      hide MergedTree, TouchedBy;
    }
  }

  /** A merge goes through an old link exactly if the patch touches one, for every patch if the target keeps
      its names apart, and for every target if the patch does; otherwise it is the merge of the values. */
  lemma MergeOnLinked(target: Option<Linked>, patch: Json)
    requires WellNamed(patch) || (target.Some? ==> Named(target.value))
    ensures MergedTree(target, patch) != Loops <==> !Touches(target, patch)
    ensures !Touches(target, patch) ==> Erase(MergedTree(target, patch).t) == Merged(EraseOption(target), patch)
    ensures (target.Some? ==> Clean(target.value)) ==> !Touches(target, patch)
  {
    hide *;
    TouchesExactly(target, patch);
    MergeErases(target, patch);
    if target.Some? ==> Clean(target.value) { CleanMerges(target, patch); }
  }

  /** Merging a generated patch into a document without old links does not go through one, and reaches
      the second tree exactly if the first reaches it. */
  lemma MergeReachesOnCopy(doc: Linked, from: Json, to: Json)
    requires Clean(doc) && WellNamed(Erase(doc)) && WellNamed(from) && WellNamed(to) && Meaning(Erase(doc)) == Meaning(from)
    ensures var p := GenerateMergePatch(Some(from), Some(to));
      && (p.Some? ==> MergedTree(Some(doc), p.value).Fine?)
      && var r := if p.None? then doc else MergedTree(Some(doc), p.value).t;
      (Comparison(Erase(r), to).code == 0 <==> Reaches(from, to))
  {
    var p := GenerateMergePatch(Some(from), Some(to));
    assert EraseOption(Some(doc)) == Some(Erase(doc));
    hide GenerateMergePatch, MergedTree, Merged, Erase, Reaches, Comparison, Clean, Meaning, WellNamed, NamesOf, Sort;
    MergePatchReachesTarget(Erase(doc), from, to);
    if p.Some? {
      CleanMerges(Some(doc), p.value);
      MergeErases(Some(doc), p.value);
    }
  }

  /** A sorted object the first member of which holds an old link: deleting that member goes through it. */
  lemma DeleteHeadLoops(target: Linked, patch: Json)
    requires target == Members([Entry("a", Leaf(Number(2))), Entry("b", Leaf(Number(1)))], true)
    requires patch == Object([Entry("a", Null)])
    ensures MergedTree(Some(target), patch) == Loops
  {
    assert FindName(target.members, "a") == 0;
    assert MergedMember(target, patch.members[0]) == Loops;
  }
}

