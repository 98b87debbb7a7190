/** Applying generated patches to the very tree they were generated from, as generating leaves it:
    sorted, with old links. */
module LinkedDiff {
  import opened Json
  import opened Sorting
  import opened Numerals
  import opened Compare
  import opened Pointer
  import opened Patch
  import opened PatchMeaning
  import opened DiffProof
  import opened DiffExact
  import opened OldLinks
  import LinkedPatch

  // ----- what generating leaves of the first tree

  /** What `cJSONUtils_CompareToPatch` leaves of its first tree. */
  function Left(t: Linked, b: Json): Linked
    decreases t, 1, 0
  {
    if !SameKind(Erase(t), b) then t
    else match t
      case Leaf(_) => t
      case Items(xs) => Items(LeftItems(xs, b.items))
      case Members(ms, stale) =>
        SortKeepsMembers(ms);
        Members(LeftMembers(Sort(ms), Sort(b.members), t), Sorted(ms, stale))
  }

  function LeftItems(xs: seq<Linked>, ys: seq<Json>): (r: seq<Linked>)
    ensures |r| == |xs|
    decreases xs, 0, 0
  {
    if xs == [] || ys == [] then xs else [Left(xs[0], ys[0])] + LeftItems(xs[1..], ys[1..])
  }

  function LeftMembers(fs: seq<Entry<Linked>>, ts: seq<Entry<Json>>, ghost owner: Linked): (r: seq<Entry<Linked>>)
    requires forall e | e in fs :: e.item < owner
    ensures |r| == |fs| && forall i :: 0 <= i < |fs| ==> r[i].name == fs[i].name
    decreases owner, 0, |fs| + |ts|
  {
    if fs == [] || ts == [] then fs
    else
      var diff := CaseOrder(fs[0].name, ts[0].name);
      if diff == 0 then [fs[0].(item := Left(fs[0].item, ts[0].item))] + LeftMembers(fs[1..], ts[1..], owner)
      else if diff < 0 then [fs[0]] + LeftMembers(fs[1..], ts, owner)
      else LeftMembers(fs, ts[1..], owner)
  }

  // ----- old links on the way of a path

  /** Detaching the member `name` of the node at `ts` would go through an old link. */
  ghost predicate Hit(t: Linked, ts: seq<Token>, name: string)
    decreases |ts|
  {
    if ts == [] then LinkedPatch.HitsOldLink(t, name)
    else match t
      case Members(ms, _) =>
        && ts[0].Name? && FindName(ms, ts[0].name) < |ms|
        && Hit(ms[FindName(ms, ts[0].name)].item, ts[1..], name)
      case Items(xs) => ts[0].Index? && ts[0].i < |xs| && Hit(xs[ts[0].i], ts[1..], name)
      case Leaf(_) => false
  }

  ghost predicate SameToken(a: Token, b: Token) {
    match a
    case Name(n) => b.Name? && LowerName(b.name) == LowerName(n)
    case Index(i) => b == a
    case End => b == a
  }

  /** `qs` leads through the place `ts` leads to. */
  ghost predicate Through(ts: seq<Token>, qs: seq<Token>) {
    ts == [] || (qs != [] && SameToken(ts[0], qs[0]) && Through(ts[1..], qs[1..]))
  }

  lemma {:induction false} ThroughLength(ts: seq<Token>, qs: seq<Token>)
    requires Through(ts, qs)
    ensures |ts| <= |qs|
  {
    if ts != [] { ThroughLength(ts[1..], qs[1..]); }
  }

  lemma {:induction false} FindSame<T>(es: seq<Entry<T>>, a: string, b: string)
    requires LowerName(a) == LowerName(b)
    ensures FindName(es, a) == FindName(es, b)
  {
    if es != [] {
      CaseOrderZero(es[0].name, a);
      CaseOrderZero(es[0].name, b);
      FindSame(es[1..], a, b);
    }
  }

  /** The node a path leads to, on marked trees. */
  lemma StepKid(t: Linked, tok: Token)
    requires WellNamed(Erase(t)) && HasStep(Meaning(Erase(t)), tok)
    ensures var k := StepIndex(Erase(t), tok);
      && k < |Kids(t)| && WellNamed(Erase(Kids(t)[k])) && Meaning(Erase(Kids(t)[k])) == Step(Meaning(Erase(t)), tok)
      && forall qs: seq<Token>, name: string :: qs != [] && SameToken(tok, qs[0]) ==> (Hit(t, qs, name) <==> Hit(Kids(t)[k], qs[1..], name))
  {
    MeaningStep(Erase(t), tok);
    var k := StepIndex(Erase(t), tok);
    forall qs: seq<Token>, name: string | qs != [] && SameToken(tok, qs[0])
      ensures Hit(t, qs, name) <==> Hit(Kids(t)[k], qs[1..], name)
    {
      match t {
        case Members(ms, _) =>
          EraseFinds(ms, tok.name);
          FindSame(ms, tok.name, qs[0].name);
        case Items(xs) =>
        case Leaf(_) =>
      }
    }
  }

  lemma MemberPut(ms: seq<Entry<Linked>>, stale: bool, k: nat, u: Linked, n: string, qs: seq<Token>, name: string)
    requires k < |ms| && FindName(ms, n) == k
    ensures var r := Members(ms[k := ms[k].(item := u)], stale);
      if qs != [] && SameToken(Name(n), qs[0]) then Hit(r, qs, name) <==> Hit(u, qs[1..], name)
      else Hit(r, qs, name) <==> Hit(Members(ms, stale), qs, name)
  {
    var ns := ms[k := ms[k].(item := u)];
    if qs == [] {
      FindRenamed(ms, ns, name);
    } else if qs[0].Name? {
      FindRenamed(ms, ns, qs[0].name);
      if LowerName(qs[0].name) == LowerName(n) { FindSame(ms, n, qs[0].name); }
    }
    hide FindName, LowerName;
  }

  lemma ItemPut(xs: seq<Linked>, k: nat, u: Linked, qs: seq<Token>, name: string)
    requires k < |xs|
    ensures if qs != [] && SameToken(Index(k), qs[0]) then Hit(Items(xs[k := u]), qs, name) <==> Hit(u, qs[1..], name)
            else Hit(Items(xs[k := u]), qs, name) <==> Hit(Items(xs), qs, name)
  {
  }

  /** Exchanging a child does not matter for paths that lead elsewhere. */
  lemma KidPut(t: Linked, k: nat, u: Linked, tok: Token, qs: seq<Token>, name: string)
    requires k < |Kids(t)| && k == StepIndex(Erase(t), tok)
    requires t.Members? ==> tok.Name?
    requires t.Items? ==> tok.Index?
    ensures if qs != [] && SameToken(tok, qs[0]) then Hit(WithKid(t, k, u), qs, name) <==> Hit(u, qs[1..], name)
            else Hit(WithKid(t, k, u), qs, name) <==> Hit(t, qs, name)
  {
    hide Hit, SameToken, FindName;
    match t {
      case Members(ms, stale) =>
        EraseFinds(ms, tok.name);
        MemberPut(ms, stale, k, u, tok.name, qs, name);
      case Items(xs) => ItemPut(xs, k, u, qs, name);
      case Leaf(_) =>
    }
  }

  lemma {:induction false} FindRenamed<T>(es: seq<Entry<T>>, fs: seq<Entry<T>>, name: string)
    requires |es| == |fs| && forall i :: 0 <= i < |es| ==> es[i].name == fs[i].name
    ensures FindName(es, name) == FindName(fs, name)
  {
    if es != [] { FindRenamed(es[1..], fs[1..], name); }
  }

  /** The node at `ts` and old links: those below it are its own, and changing it leaves the others. */
  lemma {:induction false} HitPut(doc: Linked, ts: seq<Token>, u: Linked, qs: seq<Token>, name: string)
    requires WellNamed(Erase(doc)) && HasPath(Meaning(Erase(doc)), ts)
    requires Resolve(Erase(doc), PathText(ts)).Some? && ValidLoc(Erase(doc), Resolve(Erase(doc), PathText(ts)).value)
    ensures var loc := Resolve(Erase(doc), PathText(ts)).value;
      if Through(ts, qs) then
        && |ts| <= |qs|
        && (Hit(doc, qs, name) <==> Hit(NodeAt(doc, loc), qs[|ts|..], name))
        && (Hit(PutAt(doc, loc, u), qs, name) <==> Hit(u, qs[|ts|..], name))
      else Hit(PutAt(doc, loc, u), qs, name) <==> Hit(doc, qs, name)
    decreases |ts|
  {
    if ts == [] {
      assert qs[0..] == qs;
    } else {
      hide *;
      HitPutStep(doc, ts, qs);
      var k := StepIndex(Erase(doc), ts[0]);
      var kid := Kids(doc)[k];
      var inner := Resolve(Erase(kid), PathText(ts[1..])).value;
      StepKid(doc, ts[0]);
      KidPut(doc, k, PutAt(kid, inner, u), ts[0], qs, name);
      PutInner(doc, k, inner, u);
      if qs != [] && SameToken(ts[0], qs[0]) { HitPut(kid, ts[1..], u, qs[1..], name); }
    }
  }

  lemma PutInner(t: Linked, k: nat, inner: Loc, u: Linked)
    requires k < |Kids(t)| && ValidLoc(Erase(Kids(t)[k]), inner)
    ensures ValidLoc(Erase(t), [k] + inner)
    ensures NodeAt(t, [k] + inner) == NodeAt(Kids(t)[k], inner)
    ensures PutAt(t, [k] + inner, u) == WithKid(t, k, PutAt(Kids(t)[k], inner, u))
  {
    assert ([k] + inner)[1..] == inner;
    hide Erase, Kids, WithKid;
  }

  lemma HitPutStep(doc: Linked, ts: seq<Token>, qs: seq<Token>)
    requires ts != [] && WellNamed(Erase(doc)) && HasPath(Meaning(Erase(doc)), ts)
    ensures var k := StepIndex(Erase(doc), ts[0]);
      && HasStep(Meaning(Erase(doc)), ts[0])
      && k < |Kids(doc)| && WellNamed(Erase(Kids(doc)[k])) && HasPath(Meaning(Erase(Kids(doc)[k])), ts[1..])
      && (doc.Members? ==> ts[0].Name?) && (doc.Items? ==> ts[0].Index?)
      && var r := Resolve(Erase(Kids(doc)[k]), PathText(ts[1..]));
      && r.Some? && ValidLoc(Erase(Kids(doc)[k]), r.value)
      && Resolve(Erase(doc), PathText(ts)) == Some([k] + r.value)
    ensures Through(ts, qs) <==> qs != [] && SameToken(ts[0], qs[0]) && Through(ts[1..], qs[1..])
    ensures Through(ts, qs) ==> |ts| <= |qs| && qs[|ts|..] == qs[1..][|ts[1..]|..]
  {
    var v := Erase(doc);
    ThroughStep(ts, qs);
    assert (doc.Members? <==> v.Object?) && (doc.Items? <==> v.Array?);
    hide Resolve, Meaning, WellNamed, PathText, HasStep, Step, Children, SameToken, Erase, Through;
    MeaningStep(v, ts[0]);
    var k := StepIndex(v, ts[0]);
    ResolveMeaning(Erase(Kids(doc)[k]), ts[1..]);
    ResolveChild(v, ts);
  }

  lemma ThroughStep(ts: seq<Token>, qs: seq<Token>)
    requires ts != []
    ensures Through(ts, qs) <==> qs != [] && SameToken(ts[0], qs[0]) && Through(ts[1..], qs[1..])
    ensures Through(ts, qs) ==> |ts| <= |qs| && qs[|ts|..] == qs[1..][|ts[1..]|..]
  {
    if Through(ts, qs) { ThroughLength(ts, qs); }
    hide SameToken;
  }

  // ----- what one operation does to old links

  /** Old links that no path through `ps` leads to are the same in both documents. */
  ghost predicate SameOutside(doc: Linked, doc2: Linked, ps: seq<Token>) {
    forall qs: seq<Token>, name: string :: !Through(ps, qs) ==> (Hit(doc2, qs, name) <==> Hit(doc, qs, name))
  }

  lemma {:induction false} ThroughAppend(ts: seq<Token>, t: Token, qs: seq<Token>)
    ensures Through(ts + [t], qs) <==> Through(ts, qs) && |qs| > |ts| && SameToken(t, qs[|ts|])
  {
    if ts == [] {
      assert ts + [t] == [t];
      assert qs != [] ==> Through([], qs[1..]);
    } else {
      assert (ts + [t])[1..] == ts[1..] + [t];
      if qs != [] { ThroughAppend(ts[1..], t, qs[1..]); }
      if Through(ts, qs) { ThroughLength(ts, qs); }
    }
  }

  lemma {:induction false} ThroughSelf(ts: seq<Token>, qs: seq<Token>)
    ensures Through(ts, ts + qs)
  {
    if ts != [] {
      assert (ts + qs)[1..] == ts[1..] + qs;
      ThroughSelf(ts[1..], qs);
    }
  }

  lemma FindIs<T>(es: seq<Entry<T>>, name: string, j: nat)
    requires j <= |es| && (j < |es| ==> LowerName(es[j].name) == LowerName(name))
    requires forall i :: 0 <= i < j ==> LowerName(es[i].name) != LowerName(name)
    ensures FindName(es, name) == j
  {
    var r := FindName(es, name);
    hide FindName;
    if r < j { assert false; }
  }

  lemma FindWithout<T>(es: seq<Entry<T>>, i: nat, name: string)
    requires i < |es| && LowerName(es[i].name) != LowerName(name)
    ensures var j := FindName(es, name);
      j != i && FindName(Without(es, i), name) == if j < i then j else j - 1
  {
    var j := FindName(es, name);
    WithoutIndex(es, i);
    hide FindName, Without, LowerName;
    FindIs(Without(es, i), name, if j < i then j else j - 1);
  }

  lemma DetachKidIs(node: Linked, n: string)
    requires node.Members?
    ensures var ms, i := node.members, FindName(node.members, n);
      LinkedPatch.DetachKid(node, n).0 == if i < |ms| then Members(Without(ms, i), node.stale) else node
  {
    hide FindName;
    assert FindName(node.members, n) <= |node.members|;
  }

  lemma HitBelow(ms: seq<Entry<Linked>>, stale: bool, qs: seq<Token>, name: string)
    requires qs != []
    ensures Hit(Members(ms, stale), qs, name) <==>
            qs[0].Name? && FindName(ms, qs[0].name) < |ms| && Hit(ms[FindName(ms, qs[0].name)].item, qs[1..], name)
  {
    hide FindName;
  }

  lemma DetachKidHitsHere(ms: seq<Entry<Linked>>, stale: bool, n: string, i: nat, name: string)
    requires i == FindName(ms, n) < |ms| && !LinkedPatch.HitsOldLink(Members(ms, stale), n)
    ensures Hit(Members(Without(ms, i), stale), [], name) <==> Hit(Members(ms, stale), [], name)
  {
    if LowerName(name) != LowerName(n) {
      FindWithout(ms, i, name);
      WithoutIndex(ms, i);
      hide FindName, LowerName, Without;
    } else {
      FindSame(ms, n, name);
      LinkedPatch.DetachKidOnce(Members(ms, stale), n);
      FindSame(Without(ms, i), n, name);
      hide FindName, LowerName, Without;
    }
  }

  /** Another name is found as before. */
  lemma FoundWithout(ms: seq<Entry<Linked>>, n: string, i: nat, q: Token)
    requires i == FindName(ms, n) < |ms| && q.Name? && !SameToken(Name(n), q)
    ensures var es, j, k := Without(ms, i), FindName(ms, q.name), FindName(Without(ms, i), q.name);
      (k < |es| <==> j < |ms|) && (k < |es| ==> es[k] == ms[j])
  {
    FindWithout(ms, i, q.name);
    WithoutIndex(ms, i);
    hide FindName, LowerName, Without;
  }

  lemma DetachKidHits(node: Linked, n: string, qs: seq<Token>, name: string)
    requires node.Members? && !LinkedPatch.HitsOldLink(node, n) && (qs == [] || !SameToken(Name(n), qs[0]))
    ensures Hit(LinkedPatch.DetachKid(node, n).0, qs, name) <==> Hit(node, qs, name)
  {
    var ms, i := node.members, FindName(node.members, n);
    hide *;
    DetachKidIs(node, n);
    if i < |ms| {
      if qs == [] {
        DetachKidHitsHere(ms, node.stale, n, i, name);
      } else {
        HitBelow(ms, node.stale, qs, name);
        HitBelow(Without(ms, i), node.stale, qs, name);
        if qs[0].Name? { FoundWithout(ms, n, i, qs[0]); }
      }
    }
  }

  lemma FindAppended<T>(es: seq<Entry<T>>, e: Entry<T>, name: string)
    ensures FindName(es + [e], name) ==
            if FindName(es, name) < |es| then FindName(es, name)
            else if LowerName(e.name) == LowerName(name) then |es| else |es| + 1
  {
    var j := FindName(es, name);
    hide FindName, LowerName;
    FindIs(es + [e], name, if j < |es| then j else if LowerName(e.name) == LowerName(name) then |es| else |es| + 1);
  }

  lemma AddKidIs(node: Linked, n: string, value: Linked)
    requires node.Members?
    ensures var ms, i := node.members, FindName(node.members, n);
      LinkedPatch.AddKid(node, n, value) ==
      Members((if i < |ms| then Without(ms, i) else ms) + [Entry(n, value)], node.stale && ms != [])
  {
    hide FindName, Without;
  }

  lemma AddKidHits(node: Linked, n: string, value: Linked, qs: seq<Token>, name: string)
    requires node.Members? && !LinkedPatch.HitsOldLink(node, n) && (qs == [] || !SameToken(Name(n), qs[0]))
    ensures Hit(LinkedPatch.AddKid(node, n, value), qs, name) <==> Hit(node, qs, name)
  {
    var ms, i, e := node.members, FindName(node.members, n), Entry(n, value);
    DetachKidHits(node, n, qs, name);
    var es := if i < |ms| then Without(ms, i) else ms;
    DetachKidIs(node, n);
    AddKidIs(node, n, value);
    if i < |ms| { WithoutIndex(ms, i); }
    hide LinkedPatch.DetachKid, LinkedPatch.AddKid, FindName, Without, LowerName;
    if qs != [] {
      if qs[0].Name? { FindAppended(es, e, qs[0].name); }
    } else {
      FindAppended(es, e, name);
      LinkedPatch.DetachKidOnce(node, n);
      AddedHead(node, es, e, name);
    }
  }

  lemma AddedHead(node: Linked, es: seq<Entry<Linked>>, e: Entry<Linked>, name: string)
    requires node.Members? && !LinkedPatch.HitsOldLink(node, e.name)
    requires Members(es, node.stale) == LinkedPatch.DetachKid(node, e.name).0
    ensures LinkedPatch.HitsOldLink(Members(es + [e], node.stale && node.members != []), name)
        <==> LinkedPatch.HitsOldLink(Members(es, node.stale), name)
  {
    FindAppended(es, e, name);
    var i := FindName(node.members, e.name);
    if es == [] && node.members != [] { assert |node.members| == 1 && i == 0; }
  }

  /** The place of an operation, and what an edit of the node there does to old links. */
  lemma EditHits(doc: Linked, ts: seq<Token>, u: Linked, qs: seq<Token>, name: string)
    requires WellNamed(Erase(doc)) && HasPath(Meaning(Erase(doc)), ts)
    ensures var r := Resolve(Erase(doc), PathText(ts));
      && r.Some? && ValidLoc(Erase(doc), r.value)
      && Meaning(Erase(NodeAt(doc, r.value))) == Get(Meaning(Erase(doc)), ts)
      && (Hit(doc, ts + qs, name) <==> Hit(NodeAt(doc, r.value), qs, name))
      && (Hit(PutAt(doc, r.value, u), ts + qs, name) <==> Hit(u, qs, name))
  {
    ResolveMeaning(Erase(doc), ts);
    ThroughSelf(ts, qs);
    assert (ts + qs)[|ts|..] == qs;
    hide *;
    HitPut(doc, ts, u, ts + qs, name);
  }

  /** Only old links that lead through `ts` can change there. */
  lemma EditOutside(doc: Linked, ts: seq<Token>, u: Linked)
    requires WellNamed(Erase(doc)) && HasPath(Meaning(Erase(doc)), ts)
    ensures var r := Resolve(Erase(doc), PathText(ts));
      r.Some? && ValidLoc(Erase(doc), r.value) && SameOutside(doc, PutAt(doc, r.value, u), ts)
  {
    ResolveMeaning(Erase(doc), ts);
    hide Resolve, Meaning, WellNamed, PathText, Hit, HasPath;
    forall qs: seq<Token>, name: string | !Through(ts, qs)
      ensures Hit(PutAt(doc, Resolve(Erase(doc), PathText(ts)).value, u), qs, name) <==> Hit(doc, qs, name)
    {
      HitPut(doc, ts, u, qs, name);
    }
  }

  /** The node keeps all old links but those of one member. */
  ghost predicate KeepsOthers(node: Linked, u: Linked, t: Token) {
    forall qs: seq<Token>, name: string :: qs == [] || !SameToken(t, qs[0]) ==> (Hit(u, qs, name) <==> Hit(node, qs, name))
  }

  lemma EditKeeps(doc: Linked, ts: seq<Token>, u: Linked, t: Token)
    requires WellNamed(Erase(doc)) && HasPath(Meaning(Erase(doc)), ts)
    requires var r := Resolve(Erase(doc), PathText(ts));
      r.Some? && ValidLoc(Erase(doc), r.value) && KeepsOthers(NodeAt(doc, r.value), u, t)
    ensures SameOutside(doc, PutAt(doc, Resolve(Erase(doc), PathText(ts)).value, u), ts + [t])
  {
    hide Resolve, Meaning, WellNamed, PathText, Hit, HasPath, Through, SameToken, KeepsOthers;
    var loc := Resolve(Erase(doc), PathText(ts)).value;
    forall qs: seq<Token>, name: string | !Through(ts + [t], qs)
      ensures Hit(PutAt(doc, loc, u), qs, name) <==> Hit(doc, qs, name)
    {
      ThroughAppend(ts, t, qs);
      HitPut(doc, ts, u, qs, name);
      if Through(ts, qs) { KeepsAt(NodeAt(doc, loc), u, t, qs[|ts|..], name); }
    }
  }

  lemma KeepsAt(node: Linked, u: Linked, t: Token, qs: seq<Token>, name: string)
    requires KeepsOthers(node, u, t) && (qs == [] || !SameToken(t, qs[0]))
    ensures Hit(u, qs, name) <==> Hit(node, qs, name)
  {
    hide Hit, SameToken;
  }

  lemma HitsAt(doc: Linked, path: string, parent: string, n: string)
    requires SplitPath(path) == Some((parent, n)) && Resolve(Erase(doc), parent).Some?
    requires ValidLoc(Erase(doc), Resolve(Erase(doc), parent).value)
    ensures LinkedPatch.Hits(doc, path) <==> LinkedPatch.HitsOldLink(NodeAt(doc, Resolve(Erase(doc), parent).value), n)
  {
    hide Resolve, SplitPath, Erase, NodeAt, LinkedPatch.HitsOldLink;
  }

  lemma HitNow(t: Linked, n: string)
    ensures Hit(t, [], n) <==> LinkedPatch.HitsOldLink(t, n)
  {
    hide LinkedPatch.HitsOldLink;
  }

  lemma NameChild(n: string)
    ensures ChildText(Name(n)) == n
  {
  }

  lemma HitsHere(doc: Linked, ts: seq<Token>, n: string)
    requires WellNamed(Erase(doc)) && HasPath(Meaning(Erase(doc)), ts)
    ensures LinkedPatch.Hits(doc, PathText(ts + [Name(n)])) <==> Hit(doc, ts, n)
  {
    hide *;
    SplitPathText(ts, Name(n));
    NameChild(n);
    assert ts + [] == ts;
    ResolveIsValid(Erase(doc), PathText(ts));
    EditHits(doc, ts, doc, [], n);
    HitsAt(doc, PathText(ts + [Name(n)]), PathText(ts), n);
    HitNow(NodeAt(doc, Resolve(Erase(doc), PathText(ts)).value), n);
  }

  lemma DetachKidKeeps(node: Linked, n: string)
    requires node.Members? && !LinkedPatch.HitsOldLink(node, n)
    ensures KeepsOthers(node, LinkedPatch.DetachKid(node, n).0, Name(n))
  {
    hide Hit, SameToken, LinkedPatch.DetachKid, LinkedPatch.HitsOldLink;
    var u := LinkedPatch.DetachKid(node, n).0;
    forall qs: seq<Token>, name: string | qs == [] || !SameToken(Name(n), qs[0]) ensures Hit(u, qs, name) <==> Hit(node, qs, name) {
      DetachKidHits(node, n, qs, name);
    }
  }

  lemma AddKidKeeps(node: Linked, n: string, value: Linked)
    requires node.Members? && !LinkedPatch.HitsOldLink(node, n)
    ensures KeepsOthers(node, LinkedPatch.AddKid(node, n, value), Name(n))
  {
    hide Hit, SameToken, LinkedPatch.AddKid, LinkedPatch.HitsOldLink;
    var u := LinkedPatch.AddKid(node, n, value);
    forall qs: seq<Token>, name: string | qs == [] || !SameToken(Name(n), qs[0]) ensures Hit(u, qs, name) <==> Hit(node, qs, name) {
      AddKidHits(node, n, value, qs, name);
    }
  }

  /** The object an operation edits. */
  lemma ObjectPlace(doc: Linked, ts: seq<Token>, n: string)
    requires WellNamed(Erase(doc)) && HasPath(Meaning(Erase(doc)), ts) && Get(Meaning(Erase(doc)), ts).VObject?
    ensures var r := Resolve(Erase(doc), PathText(ts));
      && r.Some? && ValidLoc(Erase(doc), r.value) && NodeAt(doc, r.value).Members?
      && (LinkedPatch.HitsOldLink(NodeAt(doc, r.value), n) <==> Hit(doc, ts, n))
      && SplitPath(PathText(ts + [Name(n)])) == Some((PathText(ts), n))
  {
    SplitPathText(ts, Name(n));
    assert ts + [] == ts;
    EditHits(doc, ts, doc, [], n);
    MembersOf(NodeAt(doc, Resolve(Erase(doc), PathText(ts)).value));
    hide Resolve, Meaning, WellNamed, PathText, HasPath, SplitPath, Get, LinkedPatch.HitsOldLink;
  }

  /** Detaching a member that is not the first with an old link. */
  lemma DetachMember(doc: Linked, ts: seq<Token>, n: string)
    requires WellNamed(Erase(doc)) && HasPath(Meaning(Erase(doc)), ts) && Get(Meaning(Erase(doc)), ts).VObject?
    requires !Hit(doc, ts, n)
    ensures var d := LinkedPatch.PatchDetach(doc, PathText(ts + [Name(n)]));
      d.Taken? && SameOutside(doc, d.doc, ts + [Name(n)])
  {
    hide Resolve, Meaning, WellNamed, PathText, HasPath, SplitPath, Hit, LinkedPatch.DetachKid, LinkedPatch.HitsOldLink, Get,
      SameOutside, KeepsOthers, Erase, NodeAt, PutAt;
    ObjectPlace(doc, ts, n);
    var node := NodeAt(doc, Resolve(Erase(doc), PathText(ts)).value);
    DetachKidKeeps(node, n);
    EditKeeps(doc, ts, LinkedPatch.DetachKid(node, n).0, Name(n));
  }

  lemma MembersOf(node: Linked)
    requires Meaning(Erase(node)).VObject? || Meaning(Erase(node)).VArray?
    ensures node.Members? <==> Meaning(Erase(node)).VObject?
    ensures node.Items? <==> Meaning(Erase(node)).VArray?
  {
  }

  /** Setting a member that is not the first with an old link. */
  lemma SetsMember(doc: Linked, ts: seq<Token>, n: string, value: Linked)
    requires WellNamed(Erase(doc)) && HasPath(Meaning(Erase(doc)), ts) && Get(Meaning(Erase(doc)), ts).VObject?
    requires !Hit(doc, ts, n)
    ensures var r := LinkedPatch.PatchAdd(doc, PathText(ts + [Name(n)]), value);
      r.Ran? && r.code == 0 && SameOutside(doc, r.doc, ts + [Name(n)])
  {
    hide Resolve, Meaning, WellNamed, PathText, HasPath, SplitPath, Hit, LinkedPatch.AddKid, LinkedPatch.HitsOldLink, Get,
      SameOutside, KeepsOthers, Erase, NodeAt, PutAt;
    ObjectPlace(doc, ts, n);
    var node := NodeAt(doc, Resolve(Erase(doc), PathText(ts)).value);
    AddKidKeeps(node, n, value);
    EditKeeps(doc, ts, LinkedPatch.AddKid(node, n, value), Name(n));
  }

  lemma SameInside(doc: Linked, doc2: Linked, ts: seq<Token>, t: Token)
    requires SameOutside(doc, doc2, ts + [t])
    ensures SameOutside(doc, doc2, ts)
  {
    hide Hit, Through, SameToken;
    forall qs: seq<Token>, name: string | !Through(ts, qs) ensures Hit(doc2, qs, name) <==> Hit(doc, qs, name) {
      ThroughAppend(ts, t, qs);
    }
  }

  lemma SameTwice(a: Linked, b: Linked, c: Linked, ts: seq<Token>)
    requires SameOutside(a, b, ts) && SameOutside(b, c, ts)
    ensures SameOutside(a, c, ts)
  {
    hide Hit, Through;
  }

  /** After detaching at an object or array, the place is still there. */
  lemma DetachedPlace(doc: Linked, ts: seq<Token>, t: Token)
    requires WellNamed(Erase(doc)) && HasPath(Meaning(Erase(doc)), ts) && Fits(Get(Meaning(Erase(doc)), ts), t)
    ensures var d := LinkedPatch.PatchDetach(doc, PathText(ts + [t]));
      d.Taken? ==> HasValue(Erase(d.doc), ts, Removed(Get(Meaning(Erase(doc)), ts), t))
  {
    hide *;
    PatchDetachMeaning(Erase(doc), ts, t);
    LinkedPatch.DetachErases(doc, PathText(ts + [t]));
    var d := LinkedPatch.PatchDetach(doc, PathText(ts + [t]));
    if d.Taken? {
      PutGet(Meaning(Erase(doc)), ts, Removed(Get(Meaning(Erase(doc)), ts), t));
      HasValueBy(Erase(d.doc), ts, Removed(Get(Meaning(Erase(doc)), ts), t));
    }
  }

  lemma HasValueBy(doc: Json, ts: seq<Token>, v: Val)
    requires WellNamed(doc) && HasPath(Meaning(doc), ts) && Get(Meaning(doc), ts) == v
    ensures HasValue(doc, ts, v)
  {
  }

  lemma HasValueIs(doc: Json, ts: seq<Token>, v: Val)
    requires HasValue(doc, ts, v)
    ensures WellNamed(doc) && HasPath(Meaning(doc), ts) && Get(Meaning(doc), ts) == v
  {
  }

  // ----- the generated operations

  /** A list ends by tangling, or else it succeeds and changes old links only below `ts`. */
  ghost predicate Ends(doc: Linked, r: LinkedPatch.Run, ts: seq<Token>, tangles: bool) {
    if tangles then r == LinkedPatch.Tangled
    else r.Ran? && r.code == 0 && SameOutside(doc, r.doc, ts)
  }

  lemma RunOne(doc: Linked, p: Json, ts: seq<Token>, tangles: bool)
    requires Ends(doc, LinkedPatch.ApplyPatch(doc, p), ts, tangles)
    ensures Ends(doc, LinkedPatch.ApplyAll(doc, [p]), ts, tangles)
  {
    hide LinkedPatch.ApplyPatch, SameOutside;
    var r := LinkedPatch.ApplyPatch(doc, p);
    assert [p][1..] == [];
    if r.Ran? { assert LinkedPatch.ApplyAll(r.doc, []) == LinkedPatch.Ran(0, r.doc); }
  }

  lemma RemoveEnds(doc: Linked, ts: seq<Token>, n: string)
    requires WellNamed(Erase(doc)) && HasPath(Meaning(Erase(doc)), ts) && Get(Meaning(Erase(doc)), ts).VObject?
    ensures Ends(doc, LinkedPatch.ApplyAll(doc, [PatchObject("remove", PathText(ts + [Name(n)]), None)]), ts + [Name(n)], Hit(doc, ts, n))
  {
    var path := PathText(ts + [Name(n)]);
    var p := PatchObject("remove", path, None);
    PatchObjectItems("remove", path, None);
    hide GetItem, PatchObject, PathText, LinkedPatch.PatchDetach, Meaning, WellNamed, Get, HasPath, Hit, SameOutside;
    HitsHere(doc, ts, n);
    LinkedPatch.DetachErases(doc, path);
    if !Hit(doc, ts, n) { DetachMember(doc, ts, n); }
    RunOne(doc, p, ts + [Name(n)], Hit(doc, ts, n));
  }

  lemma AddEnds(doc: Linked, ts: seq<Token>, n: string, v: Json)
    requires WellNamed(Erase(doc)) && HasPath(Meaning(Erase(doc)), ts) && Get(Meaning(Erase(doc)), ts).VObject?
    ensures Ends(doc, LinkedPatch.ApplyAll(doc, [PatchObject("add", PathText(ts + [Name(n)]), Some(v))]), ts + [Name(n)], Hit(doc, ts, n))
  {
    var path := PathText(ts + [Name(n)]);
    var p := PatchObject("add", path, Some(v));
    PatchObjectItems("add", path, Some(v));
    hide GetItem, PatchObject, PathText, LinkedPatch.PatchAdd, Meaning, WellNamed, Get, HasPath, Hit, SameOutside, Fresh;
    HitsHere(doc, ts, n);
    LinkedPatch.AddErases(doc, path, Fresh(v));
    if !Hit(doc, ts, n) { SetsMember(doc, ts, n, Fresh(v)); }
    RunOne(doc, p, ts + [Name(n)], Hit(doc, ts, n));
  }

  lemma NotThroughLonger(ts: seq<Token>, t: Token)
    ensures !Through(ts + [t], ts)
  {
    if Through(ts + [t], ts) { ThroughLength(ts + [t], ts); }
  }

  /** Replacing a member: detached, and set again at the end. */
  lemma ReplaceMemberEnds(doc: Linked, ts: seq<Token>, n: string, v: Json)
    requires WellNamed(Erase(doc)) && HasPath(Meaning(Erase(doc)), ts) && Get(Meaning(Erase(doc)), ts).VObject?
    ensures Ends(doc, LinkedPatch.ApplyAll(doc, [PatchObject("replace", PathText(ts + [Name(n)]), Some(v))]), ts + [Name(n)],
                 Hit(doc, ts, n))
  {
    var path := PathText(ts + [Name(n)]);
    var p := PatchObject("replace", path, Some(v));
    PatchObjectItems("replace", path, Some(v));
    hide GetItem, PatchObject, PathText, LinkedPatch.PatchAdd, LinkedPatch.PatchDetach, Meaning, WellNamed, Get, HasPath, Hit, Through,
      Fresh, HasValue, LowerName;
    HitsHere(doc, ts, n);
    LinkedPatch.DetachErases(doc, path);
    if !Hit(doc, ts, n) {
      DetachMember(doc, ts, n);
      DetachedPlace(doc, ts, Name(n));
      var d := LinkedPatch.PatchDetach(doc, path);
      HasValueIs(Erase(d.doc), ts, Removed(Get(Meaning(Erase(doc)), ts), Name(n)));
      NotThroughLonger(ts, Name(n));
      SetsMember(d.doc, ts, n, Fresh(v));
      SameTwice(doc, d.doc, LinkedPatch.PatchAdd(d.doc, path, Fresh(v)).doc, ts + [Name(n)]);
    }
    hide SameOutside;
    RunOne(doc, p, ts + [Name(n)], Hit(doc, ts, n));
  }

  /** Operations on the items of an array never go through an old link. */
  lemma ItemPlace(doc: Linked, ts: seq<Token>, t: Token)
    requires WellNamed(Erase(doc)) && HasPath(Meaning(Erase(doc)), ts) && Get(Meaning(Erase(doc)), ts).VArray? && !t.Name?
    ensures var r := Resolve(Erase(doc), PathText(ts));
      && r.Some? && ValidLoc(Erase(doc), r.value) && NodeAt(doc, r.value).Items?
      && SplitPath(PathText(ts + [t])) == Some((PathText(ts), ChildText(t)))
      && !LinkedPatch.Hits(doc, PathText(ts + [t]))
  {
    SplitPathText(ts, t);
    ResolveMeaning(Erase(doc), ts);
    MembersOf(NodeAt(doc, Resolve(Erase(doc), PathText(ts)).value));
    hide Resolve, Meaning, WellNamed, PathText, HasPath, SplitPath, Get;
  }

  lemma DetachItem(doc: Linked, ts: seq<Token>, t: Token)
    requires WellNamed(Erase(doc)) && HasPath(Meaning(Erase(doc)), ts) && Get(Meaning(Erase(doc)), ts).VArray? && !t.Name?
    ensures var d := LinkedPatch.PatchDetach(doc, PathText(ts + [t])); d.Taken? && SameOutside(doc, d.doc, ts)
  {
    hide Resolve, Meaning, WellNamed, PathText, HasPath, SplitPath, Hit, LinkedPatch.DetachKid, Get, SameOutside;
    ItemPlace(doc, ts, t);
    var loc := Resolve(Erase(doc), PathText(ts)).value;
    EditOutside(doc, ts, LinkedPatch.DetachKid(NodeAt(doc, loc), ChildText(t)).0);
  }

  lemma AddItem(doc: Linked, ts: seq<Token>, t: Token, value: Linked)
    requires WellNamed(Erase(doc)) && HasPath(Meaning(Erase(doc)), ts) && Get(Meaning(Erase(doc)), ts).VArray? && !t.Name?
    ensures var r := LinkedPatch.PatchAdd(doc, PathText(ts + [t]), value);
      r.Ran? && r.code == 0 && SameOutside(doc, r.doc, ts)
  {
    hide Resolve, Meaning, WellNamed, PathText, HasPath, SplitPath, Hit, LinkedPatch.AddKid, Get, SameOutside;
    ItemPlace(doc, ts, t);
    var loc := Resolve(Erase(doc), PathText(ts)).value;
    EditOutside(doc, ts, LinkedPatch.AddKid(NodeAt(doc, loc), ChildText(t), value));
  }

  lemma RemoveItemEnds(doc: Linked, ts: seq<Token>, i: nat)
    requires WellNamed(Erase(doc)) && HasPath(Meaning(Erase(doc)), ts) && Get(Meaning(Erase(doc)), ts).VArray?
    ensures Ends(doc, LinkedPatch.ApplyAll(doc, [PatchObject("remove", PathText(ts + [Index(i)]), None)]), ts, false)
  {
    var path := PathText(ts + [Index(i)]);
    var p := PatchObject("remove", path, None);
    PatchObjectItems("remove", path, None);
    hide GetItem, PatchObject, PathText, LinkedPatch.PatchDetach, Meaning, WellNamed, Get, HasPath, SameOutside;
    DetachItem(doc, ts, Index(i));
    RunOne(doc, p, ts, false);
  }

  lemma AddItemEnds(doc: Linked, ts: seq<Token>, v: Json)
    requires WellNamed(Erase(doc)) && HasPath(Meaning(Erase(doc)), ts) && Get(Meaning(Erase(doc)), ts).VArray?
    ensures Ends(doc, LinkedPatch.ApplyAll(doc, [PatchObject("add", PathText(ts + [End]), Some(v))]), ts, false)
  {
    var path := PathText(ts + [End]);
    var p := PatchObject("add", path, Some(v));
    PatchObjectItems("add", path, Some(v));
    hide GetItem, PatchObject, PathText, LinkedPatch.PatchAdd, Meaning, WellNamed, Get, HasPath, SameOutside, Fresh;
    AddItem(doc, ts, End, Fresh(v));
    RunOne(doc, p, ts, false);
  }

  lemma KidTwice(t: Linked, k: nat, a: Linked, b: Linked)
    requires k < |Kids(t)|
    ensures k < |Kids(WithKid(t, k, a))| && Kids(WithKid(t, k, a))[k] == a && WithKid(WithKid(t, k, a), k, b) == WithKid(t, k, b)
  {
    hide Erase;
    match t {
      case Items(xs) => assert xs[k := a][k := b] == xs[k := b];
      case Members(ms, stale) => assert ms[k := ms[k].(item := a)][k := ms[k].(item := b)] == ms[k := ms[k].(item := b)];
      case Leaf(_) =>
    }
  }

  lemma {:induction false} PutTwice(t: Linked, loc: Loc, u: Linked, w: Linked)
    requires ValidLoc(Erase(t), loc)
    ensures ValidLoc(Erase(PutAt(t, loc, u)), loc) && PutAt(PutAt(t, loc, u), loc, w) == PutAt(t, loc, w)
    decreases |loc|
  {
    if loc != [] {
      var kid := Kids(t)[loc[0]];
      PutTwice(kid, loc[1..], u, w);
      hide Erase, Kids, WithKid;
      KidTwice(t, loc[0], PutAt(kid, loc[1..], u), PutAt(kid, loc[1..], w));
    }
  }

  lemma ItemKeeps(xs: seq<Linked>, i: nat, v: Linked)
    requires i < |xs|
    ensures KeepsOthers(Items(xs), Items(xs[i := v]), Index(i))
  {
    hide Hit, SameToken;
    forall qs: seq<Token>, name: string | qs == [] || !SameToken(Index(i), qs[0])
      ensures Hit(Items(xs[i := v]), qs, name) <==> Hit(Items(xs), qs, name)
    {
      ItemPut(xs, i, v, qs, name);
    }
  }

  lemma PutBack<T>(xs: seq<T>, i: nat, v: T)
    requires i < |xs|
    ensures InsertAt(Without(xs, i), i, v) == xs[i := v] && InsertAt(Without(xs, i), i, v) == xs[i := v]
  {
    WithoutIndex(xs, i);
  }

  lemma ItemReplaced(xs: seq<Linked>, i: nat, v: Linked)
    requires i < |xs|
    ensures LinkedPatch.AddKid(LinkedPatch.DetachKid(Items(xs), Digits(i)).0, Digits(i), v) == Items(xs[i := v])
    ensures KeepsOthers(Items(xs), Items(xs[i := v]), Index(i))
  {
    AtoiOfDigits(i);
    DigitsAreDigits(i);
    assert Digits(i) != "-" by { assert Digits(i)[0] != '-'; }
    hide Atoi, Digits, KeepsOthers, InsertAt, Without;
    PutBack(xs, i, v);
    ItemKeeps(xs, i, v);
  }

  lemma DetachAtPlace(doc: Linked, path: string, parent: string, name: string, loc: Loc)
    requires SplitPath(path) == Some((parent, name)) && Resolve(Erase(doc), parent) == Some(loc) && ValidLoc(Erase(doc), loc)
    requires NodeAt(doc, loc).Items?
    ensures var d := LinkedPatch.PatchDetach(doc, path);
      d.Taken? && d.doc == PutAt(doc, loc, LinkedPatch.DetachKid(NodeAt(doc, loc), name).0)
    ensures forall v :: LinkedPatch.PatchAdd(doc, path, v)
                     == LinkedPatch.Ran(0, PutAt(doc, loc, LinkedPatch.AddKid(NodeAt(doc, loc), name, v)))
  {
    hide Resolve, SplitPath, LinkedPatch.DetachKid, LinkedPatch.AddKid, PutAt, Erase;
  }

  lemma ItemsAt(doc: Linked, ts: seq<Token>, i: nat)
    requires WellNamed(Erase(doc)) && HasPath(Meaning(Erase(doc)), ts)
    requires Get(Meaning(Erase(doc)), ts).VArray? && i < |Get(Meaning(Erase(doc)), ts).items|
    ensures var r := Resolve(Erase(doc), PathText(ts));
      r.Some? && ValidLoc(Erase(doc), r.value) && NodeAt(doc, r.value).Items? && i < |NodeAt(doc, r.value).items|
  {
    ItemPlace(doc, ts, Index(i));
    ResolveMeaning(Erase(doc), ts);
    hide Resolve, PathText, WellNamed, HasPath, Get;
    var node := NodeAt(doc, Resolve(Erase(doc), PathText(ts)).value);
    assert |Meaning(Erase(node)).items| == |node.items|;
  }

  /** An item detached, and another inserted at its index. */
  lemma ReplaceItem(doc: Linked, ts: seq<Token>, i: nat, v: Linked)
    requires WellNamed(Erase(doc)) && HasPath(Meaning(Erase(doc)), ts)
    requires Get(Meaning(Erase(doc)), ts).VArray? && i < |Get(Meaning(Erase(doc)), ts).items|
    ensures var d := LinkedPatch.PatchDetach(doc, PathText(ts + [Index(i)]));
      && d.Taken?
      && var r := LinkedPatch.PatchAdd(d.doc, PathText(ts + [Index(i)]), v);
      r.Ran? && r.code == 0 && SameOutside(doc, r.doc, ts + [Index(i)])
  {
    assert ChildText(Index(i)) == Digits(i);
    hide *;
    var path, parent := PathText(ts + [Index(i)]), PathText(ts);
    ItemPlace(doc, ts, Index(i));
    ItemsAt(doc, ts, i);
    var loc := Resolve(Erase(doc), parent).value;
    var node := NodeAt(doc, loc);
    var rest := LinkedPatch.DetachKid(node, Digits(i)).0;
    ItemReplaced(node.items, i, v);
    ItemsStay(node, Digits(i));
    DetachAtPlace(doc, path, parent, Digits(i), loc);
    ResolveAgainAt(doc, ts, rest);
    DetachAtPlace(PutAt(doc, loc, rest), path, parent, Digits(i), loc);
    PutTwice(doc, loc, rest, Items(node.items[i := v]));
    EditKeeps(doc, ts, Items(node.items[i := v]), Index(i));
  }

  lemma ReplaceItemEnds(doc: Linked, ts: seq<Token>, i: nat, v: Json)
    requires WellNamed(Erase(doc)) && HasPath(Meaning(Erase(doc)), ts)
    requires Get(Meaning(Erase(doc)), ts).VArray? && i < |Get(Meaning(Erase(doc)), ts).items|
    ensures Ends(doc, LinkedPatch.ApplyAll(doc, [PatchObject("replace", PathText(ts + [Index(i)]), Some(v))]), ts + [Index(i)], false)
  {
    var path := PathText(ts + [Index(i)]);
    PatchObjectItems("replace", path, Some(v));
    hide GetItem, PatchObject, PathText, LinkedPatch.PatchDetach, LinkedPatch.PatchAdd, Meaning, WellNamed, Get, HasPath, SameOutside, Fresh;
    ReplaceItem(doc, ts, i, Fresh(v));
    RunOne(doc, PatchObject("replace", path, Some(v)), ts + [Index(i)], false);
  }

  lemma ItemsStay(node: Linked, name: string)
    requires node.Items?
    ensures LinkedPatch.DetachKid(node, name).0.Items?
  {
  }

  lemma ResolveAgainAt(doc: Linked, ts: seq<Token>, u: Linked)
    requires Resolve(Erase(doc), PathText(ts)).Some?
    ensures var loc := Resolve(Erase(doc), PathText(ts)).value;
      && ValidLoc(Erase(doc), loc) && Resolve(Erase(PutAt(doc, loc, u)), PathText(ts)) == Some(loc)
      && ValidLoc(Erase(PutAt(doc, loc, u)), loc) && NodeAt(PutAt(doc, loc, u), loc) == u
  {
    hide Resolve, PathText, Erase;
    LinkedPatch.ResolveAgain(Erase(doc), PathText(ts), Erase(u));
    LinkedPatch.NodePut(doc, Resolve(Erase(doc), PathText(ts)).value, u);
  }
}
