/** `cJSONUtils_MergePatch` on trees in the heap: members are detached from the target, merged and
    appended again, and what comes from the patch is copied. */
module MergeHeap {
  import opened Json
  import opened ChildList
  import D = Duplicates
  import opened MergeApply

  const TYPE_TRUE := 2
  const TYPE_NULL := 4
  const TYPE_NUMBER := 8
  const TYPE_STRING := 16
  const TYPE_ARRAY := 32
  const TYPE_OBJECT := 64

  /** The JSON value of a tree, by the type of its root. */
  function JsonOf(v: D.Value): Json {
    var kind := v.scalar.kind;
    if kind == TYPE_NULL then Null
    else if kind == TYPE_TRUE then True
    else if kind == TYPE_NUMBER then Number(v.scalar.valueint)
    else if kind == TYPE_STRING then String(v.scalar.valuestring)
    else if kind == TYPE_ARRAY then Array(seq(|v.kids|, i requires 0 <= i < |v.kids| => JsonOf(v.kids[i])))
    else if kind == TYPE_OBJECT then Object(MembersOf(v.kids))
    else False
  }

  function MembersOf(vs: seq<D.Value>): (r: seq<Entry<Json>>)
    ensures |r| == |vs| && forall i :: 0 <= i < |vs| ==> r[i] == Entry(vs[i].name, JsonOf(vs[i]))
  {
    seq(|vs|, i requires 0 <= i < |vs| => Entry(vs[i].name, JsonOf(vs[i])))
  }

  lemma MembersWithout(vs: seq<D.Value>, i: nat)
    requires i < |vs|
    ensures MembersOf(Without(vs, i)) == Without(MembersOf(vs), i)
  {
    WithoutIndex(vs, i);
    WithoutIndex(MembersOf(vs), i);
    hide JsonOf, Without;
  }

  lemma MembersAppend(vs: seq<D.Value>, v: D.Value)
    ensures MembersOf(vs + [v]) == MembersOf(vs) + [Entry(v.name, JsonOf(v))]
  {
    hide JsonOf;
  }

  lemma Renamed(v: D.Value, name: string)
    ensures JsonOf(v.(name := name)) == JsonOf(v)
  {
  }

  // ----- the children of a tree as a chain

  ghost function Roots(ks: seq<D.Shape>): (r: seq<Node>)
    ensures |r| == |ks| && forall i :: 0 <= i < |ks| ==> r[i] == ks[i].root
  {
    seq(|ks|, i requires 0 <= i < |ks| => ks[i].root)
  }

  lemma RootsInside(ks: seq<D.Shape>, inner: set<Node>)
    requires D.NestedIn(ks, inner)
    ensures Distinct(Roots(ks)) && Nodes(Roots(ks)) <= inner
    ensures forall k :: k in ks ==> D.Nested(k) && k.nodes <= inner && k.root in k.nodes && Nodes(Roots(ks)) !! D.Inner(k)
  {
    forall k | k in ks ensures D.Nested(k) && k.root in k.nodes {}
    hide D.Nested;
    forall i, j | 0 <= i < j < |ks| ensures Roots(ks)[i] != Roots(ks)[j] {
      assert ks[i] in ks && ks[j] in ks;
    }
    forall i | 0 <= i < |ks| ensures Roots(ks)[i] in inner { assert ks[i] in ks; }
    forall k, x | k in ks && x in Roots(ks) ensures x !in D.Inner(k) {
      var i :| 0 <= i < |ks| && Roots(ks)[i] == x;
      var j :| 0 <= j < |ks| && ks[j] == k;
      assert ks[i] in ks && ks[i].root in ks[i].nodes;
    }
  }

  lemma LinkedRoots(ks: seq<D.Shape>)
    requires forall i :: 0 <= i < |ks| ==> D.LinkedAt(ks, i)
    ensures forall i :: 0 <= i < |ks| ==> LinkedAt(Roots(ks), i)
    ensures ks != [] ==> Roots(ks)[0].prev == null
  {
    var xs := Roots(ks);
    forall i | 0 <= i < |xs| ensures LinkedAt(xs, i) { assert D.LinkedAt(ks, i); }
    assert ks != [] ==> D.LinkedAt(ks, 0);
  }

  lemma ChainOf(owner: Node, ks: seq<D.Shape>)
    requires owner.child == D.RootAt(ks, 0) && owner !in Roots(ks) && Distinct(Roots(ks))
    requires forall i :: 0 <= i < |ks| ==> LinkedAt(Roots(ks), i)
    requires ks != [] ==> Roots(ks)[0].prev == null
    ensures Chain(owner, Roots(ks))
  {
    hide LinkedAt, Distinct;
  }

  lemma RootOutside(s: D.Shape)
    requires Nodes(Roots(s.kids)) <= D.Inner(s)
    ensures s.root !in Roots(s.kids)
  {
    assert forall x :: x in Roots(s.kids) ==> x in Nodes(Roots(s.kids));
    hide Roots;
  }

  lemma ToChain(s: D.Shape)
    requires D.Nested(s) && D.Tree(s)
    ensures D.NestedIn(s.kids, D.Inner(s)) && Chain(s.root, Roots(s.kids))
    ensures forall k :: k in s.kids ==> D.Nested(k) && D.Tree(k)
  {
    hide *;
    var ks, inner := s.kids, D.Inner(s);
    D.TreeParts(s);
    RootsInside(ks, inner);
    D.KidsAre(ks, inner);
    LinkedRoots(ks);
    RootOutside(s);
    ChainOf(s.root, ks);
  }

  lemma FromChain(s: D.Shape)
    requires D.Nested(s) && Chain(s.root, Roots(s.kids))
    requires forall k :: k in s.kids ==> D.Nested(k) && D.Tree(k)
    ensures D.Tree(s)
  {
    var ks, inner, xs := s.kids, D.Inner(s), Roots(s.kids);
    assert D.NestedIn(ks, inner);
    hide D.NestedIn, D.Nested;
    forall i | 0 <= i < |ks| ensures D.LinkedAt(ks, i) { assert LinkedAt(xs, i); }
    TreeBy(s);
  }

  lemma TreeBy(s: D.Shape)
    requires D.Nested(s) && D.NestedIn(s.kids, D.Inner(s)) && s.root.child == D.RootAt(s.kids, 0)
    requires forall i :: 0 <= i < |s.kids| ==> D.LinkedAt(s.kids, i)
    requires forall k :: k in s.kids ==> D.Nested(k) && D.Tree(k)
    ensures D.Tree(s)
  {
    hide D.NestedIn, D.Nested, D.LinkedAt;
    D.KidsBy(s.kids, D.Inner(s));
    hide D.Kids;
  }

  lemma ViewIs(s: D.Shape)
    requires D.Nested(s)
    ensures D.NestedIn(s.kids, D.Inner(s)) && s.root in s.nodes && D.Inner(s) == s.nodes - {s.root}
    ensures D.View(s) == D.Value(s.root.name, s.root.scalar, D.Views(s.kids, D.Inner(s)))
    ensures forall i :: 0 <= i < |s.kids| ==> D.Nested(s.kids[i]) && s.kids[i].nodes <= D.Inner(s)
  {
    forall i | 0 <= i < |s.kids| ensures D.Nested(s.kids[i]) && s.kids[i].nodes <= D.Inner(s) { assert s.kids[i] in s.kids; }
    hide D.Views, D.NestedIn;
  }

  // ----- detaching and appending

  /** What is left of a tree without one child, which takes its nodes along. */
  ghost function Pruned(s: D.Shape, i: nat): D.Shape
    requires i < |s.kids|
  {
    D.Shape(s.root, Without(s.kids, i), s.nodes - s.kids[i].nodes)
  }

  lemma PrunedNested(s: D.Shape, i: nat)
    requires D.Nested(s) && i < |s.kids|
    ensures D.Nested(Pruned(s, i)) && Pruned(s, i).nodes <= s.nodes && Pruned(s, i).nodes !! s.kids[i].nodes
    ensures forall k :: k in Pruned(s, i).kids ==> k in s.kids
    ensures Roots(Pruned(s, i).kids) == Without(Roots(s.kids), i)
  {
    var r, c := Pruned(s, i), s.kids[i];
    RootsInside(s.kids, D.Inner(s));
    WithoutIndex(s.kids, i);
    WithoutIndex(Roots(s.kids), i);
    assert c in s.kids;
    hide Without;
    var ks := r.kids;
    forall k | k in ks ensures k in s.kids && k.nodes !! c.nodes {
      var j :| 0 <= j < |ks| && ks[j] == k;
      assert k == s.kids[if j < i then j else j + 1];
    }
    forall k | k in ks ensures D.Nested(k) && k.root in D.Inner(r) && k.nodes <= D.Inner(r) {
      assert k in s.kids && k.root in k.nodes;
    }
    forall a, b | 0 <= a < b < |ks| ensures ks[a].nodes !! ks[b].nodes {
      assert ks[a] == s.kids[if a < i then a else a + 1] && ks[b] == s.kids[if b < i then b else b + 1];
    }
    assert D.NestedIn(ks, D.Inner(r));
  }

  lemma {:induction false} ViewsEach(ks: seq<D.Shape>, inner: set<Node>)
    requires D.NestedIn(ks, inner)
    ensures |D.Views(ks, inner)| == |ks|
    ensures forall i :: 0 <= i < |ks| ==> D.Nested(ks[i]) && D.Views(ks, inner)[i] == D.View(ks[i])
  {
    forall i | 0 <= i < |ks| ensures D.Nested(ks[i]) && D.Views(ks, inner)[i] == D.View(ks[i]) {
      assert ks[i] in ks;
      D.ViewsAt(ks, inner, i);
    }
  }

  lemma PrunedView(s: D.Shape, i: nat)
    requires D.Nested(s) && i < |s.kids| && D.Nested(Pruned(s, i)) && D.Nested(s.kids[i])
    ensures D.View(Pruned(s, i)) == D.View(s).(kids := Without(D.View(s).kids, i))
    ensures i < |D.View(s).kids| && D.View(s).kids[i] == D.View(s.kids[i])
  {
    hide *;
    var r := Pruned(s, i);
    PrunedIs(s, i);
    ViewIs(s);
    ViewIs(r);
    ViewsEach(s.kids, D.Inner(s));
    ViewsEach(r.kids, D.Inner(r));
    WithoutIndex(s.kids, i);
    WithoutIndex(D.Views(s.kids, D.Inner(s)), i);
    assert D.Views(r.kids, D.Inner(r)) == Without(D.Views(s.kids, D.Inner(s)), i);
  }

  lemma PrunedIs(s: D.Shape, i: nat)
    requires i < |s.kids|
    ensures Pruned(s, i).root == s.root && Pruned(s, i).kids == Without(s.kids, i)
  {
  }

  /** `cJSON_DetachItemFromArray` on a tree: the child leaves with its whole subtree. */
  method DetachKid(root: Node, i: nat, ghost s: D.Shape) returns (c: Node)
    requires D.Nested(s) && D.Tree(s) && s.root == root && i < |s.kids|
    modifies root`child, D.Inner(s)`next, D.Inner(s)`prev
    ensures c == s.kids[i].root && c.next == null && c.prev == null
    ensures D.Nested(s.kids[i]) && D.Tree(s.kids[i])
    ensures D.Nested(Pruned(s, i)) && D.Tree(Pruned(s, i))
  {
    hide D.Nested, D.NestedIn, D.Tree, D.Kids, D.LinkedAt, Chain, Loose, Distinct, LinkedAt, Without, OldLink;
    ghost var r := Pruned(s, i);
    ghost var xs := Roots(s.kids);
    ToChain(s);
    RootsInside(s.kids, D.Inner(s));
    ViewIs(s);
    PrunedNested(s, i);
    ChainIs(root, xs);
    NoOldLink(xs);
    assert s.kids[i] in s.kids;
    c := DetachItemFromArray(root, i, xs);
    forall k | k in s.kids ensures D.Nested(k) && D.Tree(k) { assert old(D.Tree(k)); }
    FromChain(r);
  }

  lemma NoOldLink(xs: seq<Node>)
    requires xs != [] ==> xs[0].prev == null
    ensures OldLink(xs) == {}
  {
  }

  lemma FindNext<T>(ms: seq<Entry<T>>, i: nat, name: string)
    requires i < |ms|
    ensures CaseOrder(ms[i].name, name) == 0 ==> FindName(ms[i..], name) == 0
    ensures CaseOrder(ms[i].name, name) != 0 ==> FindName(ms[i..], name) == 1 + FindName(ms[i + 1..], name)
  {
    assert ms[i..][0] == ms[i] && ms[i..][1..] == ms[i + 1..];
  }

  lemma KidName(s: D.Shape, i: nat)
    requires D.Nested(s) && D.Tree(s) && i < |s.kids|
    ensures |MembersOf(D.View(s).kids)| == |s.kids| && MembersOf(D.View(s).kids)[i].name == s.kids[i].root.name
    ensures s.kids[i].root.next == D.RootAt(s.kids, i + 1)
  {
    hide JsonOf;
    D.TreeParts(s);
    D.KidAt(s.kids, D.Inner(s), i);
    ViewIs(s);
    ViewsEach(s.kids, D.Inner(s));
    ViewIs(s.kids[i]);
  }

  lemma KidCount(s: D.Shape)
    requires D.Nested(s) && D.Tree(s)
    ensures |MembersOf(D.View(s).kids)| == |s.kids| && s.root.child == D.RootAt(s.kids, 0)
  {
    D.TreeParts(s);
    hide D.Nested, D.Tree, D.NestedIn, D.Kids;
  }

  /** The loop over the names in `cJSON_DetachItemFromObject`. */
  method FindKid(root: Node, name: string, ghost s: D.Shape) returns (i: nat, c: Node?)
    requires D.Nested(s) && D.Tree(s) && s.root == root
    ensures i == FindName(MembersOf(D.View(s).kids), name) && i <= |s.kids|
    ensures c == if i < |s.kids| then s.kids[i].root else null
  {
    hide *;
    ghost var ms := MembersOf(D.View(s).kids);
    KidCount(s);
    FindEnds(ms, name);
    i, c := 0, root.child;
    while c != null && CaseOrder(c.name, name) != 0
      invariant i <= |s.kids| && c == D.RootAt(s.kids, i)
      invariant i + FindName(ms[i..], name) == FindName(ms, name)
      invariant D.Nested(s) && D.Tree(s) && ms == MembersOf(D.View(s).kids)
      decreases |s.kids| - i
    {
      RootAtIs(s.kids, i);
      KidName(s, i);
      FindNext(ms, i, name);
      c := c.next;
      i := i + 1;
    }
    RootAtIs(s.kids, i);
    if c != null {
      KidName(s, i);
      FindNext(ms, i, name);
    }
  }

  lemma FindEnds<T>(ms: seq<Entry<T>>, name: string)
    ensures ms[0..] == ms && FindName(ms[|ms|..], name) == 0
  {
  }

  lemma RootAtIs(ks: seq<D.Shape>, i: nat)
    ensures D.RootAt(ks, i) == if i < |ks| then ks[i].root else null
  {
  }

  /** A tree with one more child behind the others. */
  ghost function Grown(s: D.Shape, t: D.Shape): D.Shape {
    D.Shape(s.root, s.kids + [t], s.nodes + t.nodes)
  }

  lemma GrownNested(s: D.Shape, t: D.Shape)
    requires D.Nested(s) && D.Nested(t) && s.nodes !! t.nodes
    ensures D.Nested(Grown(s, t)) && D.Inner(Grown(s, t)) == D.Inner(s) + t.nodes
    ensures Roots(s.kids + [t]) == Roots(s.kids) + [t.root]
    ensures s.root !in t.nodes && t.root in t.nodes && t.root !in s.nodes && t.root !in Roots(s.kids)
    ensures forall k :: k in s.kids + [t] ==> k in s.kids || k == t
  {
    ViewIs(s);
    ViewIs(t);
    RootsInside(s.kids, D.Inner(s));
    assert forall x :: x in Roots(s.kids) ==> x in Nodes(Roots(s.kids));
    hide D.NestedIn;
    D.NestedMore(s.kids, D.Inner(s), t);
    assert D.Inner(Grown(s, t)) == D.Inner(s) + t.nodes;
  }

  lemma GrownView(s: D.Shape, t: D.Shape)
    requires D.Nested(s) && D.Nested(t) && s.nodes !! t.nodes && D.Nested(Grown(s, t))
    ensures D.View(Grown(s, t)) == D.View(s).(kids := D.View(s).kids + [D.View(t)])
  {
    var r := Grown(s, t);
    ViewIs(s);
    ViewIs(r);
    GrownNested(s, t);
    hide D.Nested, D.NestedIn, D.Views, D.View;
    D.ViewsWithNew(s.kids, D.Inner(s), t);
  }

  /** `cJSON_AddItemToObject` on a tree. */
  method AppendKid(root: Node, item: Node, name: string, ghost s: D.Shape, ghost t: D.Shape) returns (ghost r: D.Shape)
    requires D.Nested(s) && D.Tree(s) && s.root == root && D.Nested(t) && D.Tree(t) && t.root == item
    requires item.next == null && item.prev == null && s.nodes !! t.nodes
    modifies root`child, D.Inner(s)`next, item`prev, item`name
    ensures r == Grown(s, t) && D.Nested(r) && D.Tree(r)
    ensures D.View(r) == old(D.View(s)).(kids := old(D.View(s)).kids + [old(D.View(t)).(name := name)])
  {
    hide D.Nested, D.NestedIn, D.Tree, D.Kids, D.View, D.Views, D.LinkedAt, Chain, Loose, Distinct, LinkedAt;
    ghost var xs := Roots(s.kids);
    r := Grown(s, t);
    ToChain(s);
    RootsInside(s.kids, D.Inner(s));
    ViewIs(s);
    ViewIs(t);
    GrownNested(s, t);
    ChainIs(root, xs);
    item.name := name;
    AddItemToArray(root, item, xs);
    forall k | k in s.kids ensures D.Nested(k) && D.Tree(k) { assert old(D.Tree(k)); }
    assert D.Tree(t) by { assert old(D.Tree(t)); }
    FromChain(r);
    GrownView(s, t);
    ViewIs(t);
  }

  // ----- merging

  ghost function NodesOf(s: Option<D.Shape>): set<Node> {
    match s case None => {} case Some(x) => x.nodes
  }

  ghost function RootOf(s: Option<D.Shape>): set<Node> {
    match s case None => {} case Some(x) => {x.root}
  }

  ghost function InnerOf(s: Option<D.Shape>): set<Node> {
    match s case None => {} case Some(x) => D.Inner(x)
  }

  /** The target is no tree, or a tree in the heap. */
  ghost predicate Held(target: Node?, s: Option<D.Shape>)
    reads RootOf(s)`child, InnerOf(s)
  {
    match s
    case None => target == null
    case Some(x) => target == x.root && D.Nested(x) && D.Tree(x)
  }

  ghost function ValueOf(target: Node?, s: Option<D.Shape>): Option<Json>
    requires Held(target, s)
    reads RootOf(s)`child, InnerOf(s), NodesOf(s)`name, NodesOf(s)`scalar
  {
    match s case None => None case Some(x) => Some(JsonOf(D.View(x)))
  }

  lemma TakenOut(s: D.Shape, vs: seq<D.Value>, i: nat, name: string)
    requires i == FindName(MembersOf(vs), name) && i <= |vs|
    ensures DeleteMember(MembersOf(vs), name) == if i < |vs| then MembersOf(Without(vs, i)) else MembersOf(vs)
    ensures Lookup(MembersOf(vs), name) == if i < |vs| then Some(JsonOf(vs[i])) else None
  {
    if i < |vs| { MembersWithout(vs, i); }
    hide JsonOf, Without;
  }

  /** `cJSON_DetachItemFromObject` on a tree. */
  method TakeOut(root: Node, name: string, ghost s: D.Shape) returns (c: Node?, ghost rest: D.Shape, ghost kid: Option<D.Shape>)
    requires D.Nested(s) && D.Tree(s) && s.root == root
    modifies root`child, D.Inner(s)`next, D.Inner(s)`prev
    ensures D.Nested(rest) && D.Tree(rest) && rest.root == root
    ensures rest.nodes <= s.nodes && NodesOf(kid) <= D.Inner(s) && rest.nodes !! NodesOf(kid)
    ensures Held(c, kid) && (c != null ==> c.next == null && c.prev == null)
    ensures MembersOf(D.View(rest).kids) == DeleteMember(old(MembersOf(D.View(s).kids)), name)
    ensures ValueOf(c, kid) == Lookup(old(MembersOf(D.View(s).kids)), name)
  {
    hide D.Nested, D.NestedIn, D.Tree, D.Kids, D.View, D.Views, MembersOf, FindName, Lookup, DeleteMember, Without;
    ghost var vs := D.View(s).kids;
    ViewIs(s);
    KidCount(s);
    var i;
    i, c := FindKid(root, name, s);
    MembersCount(vs);
    TakenOut(s, vs, i, name);
    rest, kid := s, None;
    if c != null {
      PrunedNested(s, i);
      PrunedView(s, i);
      var d := DetachKid(root, i, s);
      rest, kid := Pruned(s, i), Some(s.kids[i]);
      PrunedView(s, i);
    }
  }

  lemma MembersCount(vs: seq<D.Value>)
    ensures |MembersOf(vs)| == |vs|
  {
  }

  lemma MergedMember(ms: seq<Entry<Json>>, rest: seq<Entry<Json>>, name: string, p: Json)
    requires rest == DeleteMember(ms, name)
    ensures MergeMember(ms, Entry(name, p)) == if p.Null? then rest else rest + [Entry(name, Merged(Lookup(ms, name), p))]
  {
    hide Merged;
  }

  lemma NullKind(v: D.Value)
    ensures JsonOf(v).Null? <==> v.scalar.kind == TYPE_NULL
    ensures JsonOf(v).Object? <==> v.scalar.kind == TYPE_OBJECT
    ensures JsonOf(v).Object? ==> JsonOf(v).members == MembersOf(v.kids)
  {
    hide MembersOf;
  }

  /** One member of the patch: what the target has under its name is detached, and unless the member
      is null it is merged and appended. */
  method MergeOne(root: Node, patch: Node, ghost s: D.Shape, ghost p: D.Shape) returns (ghost t: D.Shape)
    requires D.Nested(s) && D.Tree(s) && s.root == root
    requires D.Nested(p) && D.Tree(p) && p.root == patch && s.nodes !! p.nodes
    modifies root`child, D.Inner(s)`next, D.Inner(s)`prev, D.Inner(s)`child, D.Inner(s)`name
    ensures D.Nested(t) && D.Tree(t) && t.root == root && fresh(t.nodes - s.nodes)
    ensures MembersOf(D.View(t).kids) == MergeMember(old(MembersOf(D.View(s).kids)), old(Entry(patch.name, JsonOf(D.View(p)))))
    decreases p, 3
  {
    hide D.Nested, D.NestedIn, D.Tree, D.Kids, D.View, D.Views, MembersOf, JsonOf, Lookup, DeleteMember, MergeMember, Merged;
    ghost var ms, pv := MembersOf(D.View(s).kids), JsonOf(D.View(p));
    ViewIs(s);
    ViewIs(p);
    NullKind(D.View(p));
    var c, rest, kid := TakeOut(root, patch.name, s);
    MergedMember(ms, MembersOf(D.View(rest).kids), patch.name, pv);
    ViewIs(rest);
    if patch.scalar.kind == TYPE_NULL { return rest; }
    ghost var before := D.View(rest);
    KidInner(kid);
    var merged, mt := MergePatch(c, patch, kid, p);
    ghost var mv := D.View(mt);
    ViewIs(mt);
    assert D.View(rest) == before;
    t := AppendKid(root, merged, patch.name, rest, mt);
    MembersAppend(before.kids, mv.(name := patch.name));
    Renamed(mv, patch.name);
  }

  lemma KidInner(kid: Option<D.Shape>)
    ensures InnerOf(kid) <= NodesOf(kid)
    ensures kid.Some? && D.Nested(kid.value) ==> RootOf(kid) <= NodesOf(kid)
  {
  }

  lemma MembersStep(ms: seq<Entry<Json>>, ps: seq<Entry<Json>>, k: nat)
    requires k < |ps|
    ensures MergeMembers(ms, ps[k..]) == MergeMembers(MergeMember(ms, ps[k]), ps[k + 1..])
  {
    assert ps[k..][0] == ps[k] && ps[k..][1..] == ps[k + 1..];
    hide MergeMember;
  }

  lemma MembersEnds(ms: seq<Entry<Json>>, ps: seq<Entry<Json>>)
    ensures ps[0..] == ps && MergeMembers(ms, ps[|ps|..]) == ms
  {
  }

  /** Child `k` of the patch. */
  lemma PatchKid(p: D.Shape, k: nat)
    requires D.Nested(p) && D.Tree(p) && k < |p.kids|
    ensures D.Nested(p.kids[k]) && D.Tree(p.kids[k]) && p.kids[k].nodes <= p.nodes
    ensures p.kids[k].root.next == D.RootAt(p.kids, k + 1)
    ensures |MembersOf(D.View(p).kids)| == |p.kids|
    ensures MembersOf(D.View(p).kids)[k] == Entry(p.kids[k].root.name, JsonOf(D.View(p.kids[k])))
  {
    hide JsonOf;
    D.TreeParts(p);
    D.KidAt(p.kids, D.Inner(p), k);
    ViewIs(p);
    ViewsEach(p.kids, D.Inner(p));
    ViewIs(p.kids[k]);
  }

  /** The loop over the members of the patch. */
  method MergeAll(root: Node, patch: Node, ghost s: D.Shape, ghost p: D.Shape) returns (ghost t: D.Shape)
    requires D.Nested(s) && D.Tree(s) && s.root == root
    requires D.Nested(p) && D.Tree(p) && p.root == patch && s.nodes !! p.nodes
    modifies root`child, D.Inner(s)`next, D.Inner(s)`prev, D.Inner(s)`child, D.Inner(s)`name
    ensures D.Nested(t) && D.Tree(t) && t.root == root && fresh(t.nodes - s.nodes)
    ensures MembersOf(D.View(t).kids) == MergeMembers(old(MembersOf(D.View(s).kids)), old(MembersOf(D.View(p).kids)))
    decreases p, 1
  {
    hide D.Nested, D.NestedIn, D.Tree, D.Kids, D.View, D.Views, D.RootAt, MembersOf, JsonOf, MergeMember, MergeMembers;
    ghost var ps := MembersOf(D.View(p).kids);
    ghost var total := MergeMembers(MembersOf(D.View(s).kids), ps);
    ghost var k: nat := 0;
    ViewIs(s);
    ViewIs(p);
    KidCount(p);
    MembersEnds(MembersOf(D.View(s).kids), ps);
    var next := patch.child;
    t := s;
    while next != null
      invariant k <= |p.kids| && next == D.RootAt(p.kids, k)
      invariant D.Nested(t) && D.Tree(t) && t.root == root && fresh(t.nodes - s.nodes)
      invariant D.Nested(p) && D.Tree(p) && ps == MembersOf(D.View(p).kids)
      invariant MergeMembers(MembersOf(D.View(t).kids), ps[k..]) == total
      decreases |p.kids| - k
    {
      RootAtIs(p.kids, k);
      PatchKid(p, k);
      MembersStep(MembersOf(D.View(t).kids), ps, k);
      t := MergeOne(root, next, t, p.kids[k]);
      PatchKid(p, k);
      next := next.next;
      k := k + 1;
    }
    RootAtIs(p.kids, k);
    MembersEnds(MembersOf(D.View(t).kids), ps);
  }

  lemma MergedIs(target: Option<Json>, p: D.Value)
    ensures Merged(target, JsonOf(p)) ==
      if p.scalar.kind != TYPE_OBJECT then JsonOf(p)
      else Object(MergeMembers(if target.Some? && target.value.Object? then target.value.members else [], MembersOf(p.kids)))
  {
    NullKind(p);
    hide MergeMembers, JsonOf, MembersOf;
  }

  /** `cJSON_CreateObject`. */
  method CreateObject() returns (r: Node, ghost t: D.Shape)
    ensures t == D.Shape(r, [], {r}) && D.Nested(t) && D.Tree(t) && fresh(r)
    ensures r.next == null && r.prev == null && r.scalar.kind == TYPE_OBJECT && MembersOf(D.View(t).kids) == []
  {
    r := new Node("", Scalar(TYPE_OBJECT, 0, ""));
    t := D.Shape(r, [], {r});
    D.Leaf(t);
  }

  /** `cJSONUtils_MergePatch`: the result is a tree made of nodes of the target and new nodes, so it
      shares none with the patch, which stays as it is. */
  method MergePatch(target: Node?, patch: Node, ghost s: Option<D.Shape>, ghost p: D.Shape) returns (r: Node, ghost t: D.Shape)
    requires Held(target, s) && D.Nested(p) && D.Tree(p) && p.root == patch && NodesOf(s) !! p.nodes
    modifies RootOf(s)`child, InnerOf(s)`next, InnerOf(s)`prev, InnerOf(s)`child, InnerOf(s)`name
    ensures D.Nested(t) && D.Tree(t) && t.root == r
    ensures fresh(t.nodes - NodesOf(s)) && t.nodes !! p.nodes
    ensures r != target ==> r.next == null && r.prev == null
    ensures JsonOf(D.View(t)) == Merged(old(ValueOf(target, s)), old(JsonOf(D.View(p))))
    ensures D.Tree(p) && D.View(p) == old(D.View(p))
    decreases p, 2
  {
    hide D.Nested, D.NestedIn, D.Tree, D.Kids, D.View, D.Views, MembersOf, JsonOf, Merged, MergeMembers;
    ghost var before := ValueOf(target, s);
    KidInner(s);
    ViewIs(p);
    MergedIs(before, D.View(p));
    if patch.scalar.kind != TYPE_OBJECT {
      r, t := D.Duplicate(patch, true, p);
      return;
    }
    ghost var base;
    if target == null || target.scalar.kind != TYPE_OBJECT {
      r, base := CreateObject();
      if s.Some? { ViewIs(s.value); NullKind(D.View(s.value)); }
    } else {
      r, base := target, s.value;
      ViewIs(base);
      NullKind(D.View(base));
    }
    t := MergeAll(r, patch, base, p);
    ViewIs(t);
    NullKind(D.View(t));
  }

  /** The same for a patch that may be null: then the target is deleted and the result is null. */
  method Merge(target: Node?, patch: Node?, ghost s: Option<D.Shape>, ghost p: Option<D.Shape>)
    returns (r: Node?, ghost t: Option<D.Shape>)
    requires Held(target, s) && Held(patch, p) && NodesOf(s) !! NodesOf(p)
    modifies RootOf(s)`child, InnerOf(s)`next, InnerOf(s)`prev, InnerOf(s)`child, InnerOf(s)`name
    ensures Held(r, t) && fresh(NodesOf(t) - NodesOf(s)) && NodesOf(t) !! NodesOf(p)
    ensures ValueOf(r, t) == MergeApply.MergePatch(old(ValueOf(target, s)), old(ValueOf(patch, p)))
    ensures Held(patch, p) && ValueOf(patch, p) == old(ValueOf(patch, p))
  {
    if patch == null { return null, None; }
    hide D.Nested, D.Tree, D.View, JsonOf, Merged;
    ghost var shape;
    r, shape := MergePatch(target, patch, s, p.value);
    t := Some(shape);
  }
}
