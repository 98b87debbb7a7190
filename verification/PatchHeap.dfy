/** JSON Patch on trees in the heap: children are detached, inserted and appended at the node a pointer leads
    to, and what comes from the patch is copied. */
module PatchHeap {
  import opened Json
  import opened Numerals
  import opened Pointer
  import opened Patch
  import opened ChildList
  import opened MergeHeap
  import D = Duplicates
  import LinkedPatch
  import opened PointerLoops

  // ----- the subtree a path of child indices leads to

  ghost predicate Leads(s: D.Shape, loc: Loc)
    decreases |loc|
  {
    loc == [] || (loc[0] < |s.kids| && Leads(s.kids[loc[0]], loc[1..]))
  }

  ghost function ShapeAt(s: D.Shape, loc: Loc): D.Shape
    requires Leads(s, loc)
    decreases |loc|
  {
    if loc == [] then s else ShapeAt(s.kids[loc[0]], loc[1..])
  }

  /** The tree with another subtree there. */
  ghost function Put(s: D.Shape, loc: Loc, u: D.Shape): D.Shape
    requires Leads(s, loc)
    decreases |loc|
  {
    if loc == [] then u
    else
      var i := loc[0];
      var k := Put(s.kids[i], loc[1..], u);
      D.Shape(s.root, s.kids[i := k], s.nodes - s.kids[i].nodes + k.nodes)
  }

  lemma KidNested(s: D.Shape, i: nat)
    requires D.Nested(s) && i < |s.kids|
    ensures D.Nested(s.kids[i]) && s.kids[i].root in s.kids[i].nodes && s.kids[i].nodes <= D.Inner(s)
    ensures forall j :: 0 <= j < |s.kids| && j != i ==> s.kids[j].nodes !! s.kids[i].nodes
    ensures forall j :: 0 <= j < |s.kids| ==> D.Nested(s.kids[j]) && s.kids[j].nodes <= D.Inner(s)
  {
    assert D.NestedIn(s.kids, D.Inner(s));
    forall j | 0 <= j < |s.kids| ensures D.Nested(s.kids[j]) && s.kids[j].nodes <= D.Inner(s)
        && s.kids[j].root in s.kids[j].nodes {
      assert s.kids[j] in s.kids;
    }
    hide D.Nested;
    forall j | 0 <= j < |s.kids| && j != i ensures s.kids[j].nodes !! s.kids[i].nodes {
      if j < i { assert s.kids[j].nodes !! s.kids[i].nodes; } else { assert s.kids[i].nodes !! s.kids[j].nodes; }
    }
  }

  lemma {:induction false} ShapeInside(s: D.Shape, loc: Loc)
    requires D.Nested(s) && Leads(s, loc)
    ensures D.Nested(ShapeAt(s, loc)) && ShapeAt(s, loc).nodes <= s.nodes && ShapeAt(s, loc).root in ShapeAt(s, loc).nodes
    ensures loc != [] ==> ShapeAt(s, loc).nodes <= D.Inner(s)
    decreases |loc|
  {
    hide D.NestedIn;
    if loc != [] {
      KidNested(s, loc[0]);
      hide D.Nested;
      ShapeInside(s.kids[loc[0]], loc[1..]);
    }
  }

  /** `u` is the subtree at the same root, without nodes that the rest of the tree has. */
  ghost predicate Fits(s: D.Shape, loc: Loc, u: D.Shape)
    requires Leads(s, loc)
  {
    var v := ShapeAt(s, loc);
    D.Nested(s) && D.Nested(u) && u.root == v.root && (u.nodes - v.nodes) !! s.nodes
  }

  lemma InnerIs(s: D.Shape)
    ensures D.Inner(s) == s.nodes - {s.root}
  {
  }

  lemma NestedInBy(ks: seq<D.Shape>, inner: set<Node>)
    requires forall i :: 0 <= i < |ks| ==> D.Nested(ks[i]) && ks[i].root in inner && ks[i].nodes <= inner
    requires forall i, j :: 0 <= i < j < |ks| ==> ks[i].nodes !! ks[j].nodes
    ensures D.NestedIn(ks, inner)
  {
    hide D.Nested;
    forall x | x in ks ensures D.Nested(x) && x.root in inner && x.nodes <= inner {
      var j :| 0 <= j < |ks| && ks[j] == x;
    }
  }

  lemma KidPutNested(s: D.Shape, i: nat, k: D.Shape)
    requires D.Nested(s) && i < |s.kids| && D.Nested(k) && k.root == s.kids[i].root && (k.nodes - s.kids[i].nodes) !! s.nodes
    ensures D.Nested(D.Shape(s.root, s.kids[i := k], s.nodes - s.kids[i].nodes + k.nodes))
  {
    hide *;
    var r := D.Shape(s.root, s.kids[i := k], s.nodes - s.kids[i].nodes + k.nodes);
    ViewIs(s);
    ViewIs(k);
    KidNested(s, i);
    InnerIs(r);
    InnerIs(s);
    forall j | 0 <= j < |r.kids| ensures D.Nested(r.kids[j]) && r.kids[j].root in D.Inner(r) && r.kids[j].nodes <= D.Inner(r) {
      KidNested(s, j);
    }
    forall a, b | 0 <= a < b < |r.kids| ensures r.kids[a].nodes !! r.kids[b].nodes { KidNested(s, a); }
    NestedInBy(r.kids, D.Inner(r));
    NestedBy(r);
  }

  lemma NestedBy(s: D.Shape)
    requires s.root in s.nodes && D.NestedIn(s.kids, D.Inner(s))
    ensures D.Nested(s)
  {
    hide D.NestedIn;
  }

  lemma {:induction false} PutNested(s: D.Shape, loc: Loc, u: D.Shape)
    requires Leads(s, loc) && Fits(s, loc, u)
    ensures D.Nested(Put(s, loc, u)) && Put(s, loc, u).root == s.root
    ensures Put(s, loc, u).nodes == s.nodes - ShapeAt(s, loc).nodes + u.nodes
    decreases |loc|
  {
    ShapeInside(s, loc);
    if loc != [] {
      var i := loc[0];
      KidNested(s, i);
      hide D.Nested;
      ShapeInside(s.kids[i], loc[1..]);
      PutNested(s.kids[i], loc[1..], u);
      KidPutNested(s, i, Put(s.kids[i], loc[1..], u));
    }
  }

  // ----- the links around it

  /** The nodes of the tree that are not below there. */
  ghost function Outside(s: D.Shape, loc: Loc): set<Node>
    requires Leads(s, loc)
  {
    s.nodes - ShapeAt(s, loc).nodes
  }

  lemma OutsideIs(s: D.Shape, loc: Loc)
    requires Leads(s, loc)
    ensures Outside(s, loc) == s.nodes - ShapeAt(s, loc).nodes
  {
  }

  /** Everything the heap must hold for the tree, except below there. */
  ghost predicate Around(s: D.Shape, loc: Loc)
    requires D.Nested(s) && Leads(s, loc)
    reads Outside(s, loc), ShapeAt(s, loc).root`next, ShapeAt(s, loc).root`prev
    decreases |loc|
  {
    if loc == [] then true
    else
      var i := loc[0];
      KidNested(s, i);
      ShapeInside(s.kids[i], loc[1..]);
      RootsOutside(s, i, loc);
      && s.root.child == D.RootAt(s.kids, 0)
      && (forall j :: 0 <= j < |s.kids| ==> D.LinkedAt(s.kids, j))
      && (forall j :: 0 <= j < |s.kids| && j != i ==> D.Tree(s.kids[j]))
      && Around(s.kids[i], loc[1..])
  }

  lemma RootsOutside(s: D.Shape, i: nat, loc: Loc)
    requires D.Nested(s) && Leads(s, loc) && loc != [] && i == loc[0]
    ensures s.root in Outside(s, loc) && Outside(s.kids[i], loc[1..]) <= Outside(s, loc)
    ensures ShapeAt(s, loc) == ShapeAt(s.kids[i], loc[1..])
    ensures forall j :: 0 <= j < |s.kids| && j != i ==> s.kids[j].nodes <= Outside(s, loc) && s.kids[j].root in Outside(s, loc)
    ensures s.kids[i].root in Outside(s, loc) || s.kids[i].root == ShapeAt(s, loc).root
    ensures s.root != ShapeAt(s, loc).root
  {
    KidNested(s, i);
    assert s.root in s.nodes;
    forall j | 0 <= j < |s.kids| && j != i ensures s.kids[j].root in s.kids[j].nodes { KidNested(s, j); }
    hide D.Nested;
    ShapeInside(s.kids[i], loc[1..]);
  }

  lemma {:induction false} AroundIt(s: D.Shape, loc: Loc)
    requires D.Nested(s) && D.Tree(s) && Leads(s, loc)
    ensures Around(s, loc) && D.Nested(ShapeAt(s, loc)) && D.Tree(ShapeAt(s, loc))
    decreases |loc|
  {
    hide *;
    ShapeStep(s, loc);
    if loc != [] {
      TreeFacts(s);
      AroundIt(s.kids[loc[0]], loc[1..]);
      AroundStep(s, loc);
    } else {
      AroundRoot(s);
    }
  }

  lemma ShapeStep(s: D.Shape, loc: Loc)
    requires Leads(s, loc)
    ensures loc == [] ==> ShapeAt(s, loc) == s
    ensures loc != [] ==>
      && loc[0] < |s.kids| && Leads(s.kids[loc[0]], loc[1..]) && ShapeAt(s, loc) == ShapeAt(s.kids[loc[0]], loc[1..])
  {
  }

  lemma AroundRoot(s: D.Shape)
    requires D.Nested(s)
    ensures Leads(s, []) && Around(s, [])
  {
    hide D.Nested;
  }

  lemma AroundStep(s: D.Shape, loc: Loc)
    requires D.Nested(s) && Leads(s, loc) && loc != []
    ensures var i := loc[0];
      && D.Nested(s.kids[i])
      && (forall j :: 0 <= j < |s.kids| ==> D.Nested(s.kids[j]))
      && (Around(s, loc) <==>
          && s.root.child == D.RootAt(s.kids, 0)
          && (forall j :: 0 <= j < |s.kids| ==> D.LinkedAt(s.kids, j))
          && (forall j :: 0 <= j < |s.kids| && j != i ==> D.Tree(s.kids[j]))
          && Around(s.kids[i], loc[1..]))
  {
    KidNested(s, loc[0]);
    hide D.Nested, D.Tree, D.LinkedAt, D.RootAt;
  }

  lemma TreeFacts(s: D.Shape)
    requires D.Nested(s) && D.Tree(s)
    ensures s.root.child == D.RootAt(s.kids, 0)
    ensures forall j :: 0 <= j < |s.kids| ==> D.LinkedAt(s.kids, j) && D.Nested(s.kids[j]) && D.Tree(s.kids[j])
  {
    hide *;
    D.TreeParts(s);
    D.KidsAre(s.kids, D.Inner(s));
    forall j | 0 <= j < |s.kids| ensures D.Nested(s.kids[j]) && D.Tree(s.kids[j]) { assert s.kids[j] in s.kids; }
  }

  lemma {:induction false} TreePut(s: D.Shape, loc: Loc, u: D.Shape)
    requires Leads(s, loc) && Fits(s, loc, u) && Around(s, loc) && D.Tree(u)
    ensures D.Nested(Put(s, loc, u)) && D.Tree(Put(s, loc, u)) && Put(s, loc, u).root == s.root
    decreases |loc|
  {
    hide *;
    PutNested(s, loc, u);
    PutStep(s, loc, u);
    if loc != [] {
      ShapeStep(s, loc);
      KidFits(s, loc, u);
      AroundStep(s, loc);
      TreePut(s.kids[loc[0]], loc[1..], u);
      KidPutTree(s, loc[0], Put(s.kids[loc[0]], loc[1..], u));
    }
  }

  lemma PutStep(s: D.Shape, loc: Loc, u: D.Shape)
    requires Leads(s, loc) && Fits(s, loc, u)
    ensures D.Nested(s) && D.Nested(u)
    ensures Put(s, loc, u) ==
      if loc == [] then u
      else
        var k := Put(s.kids[loc[0]], loc[1..], u);
        D.Shape(s.root, s.kids[loc[0] := k], s.nodes - s.kids[loc[0]].nodes + k.nodes)
    ensures Put(s, loc, u).root == s.root
    decreases |loc|
  {
    hide D.Nested;
  }

  lemma KidFits(s: D.Shape, loc: Loc, u: D.Shape)
    requires Leads(s, loc) && Fits(s, loc, u) && loc != []
    ensures D.Nested(s) && Fits(s.kids[loc[0]], loc[1..], u) && Put(s.kids[loc[0]], loc[1..], u).root == s.kids[loc[0]].root
  {
    KidNested(s, loc[0]);
    hide D.Nested;
    PutNested(s.kids[loc[0]], loc[1..], u);
  }

  lemma KidPutTree(s: D.Shape, i: nat, k: D.Shape)
    requires D.Nested(s) && i < |s.kids| && D.Nested(k) && k.root == s.kids[i].root && D.Tree(k)
    requires s.root.child == D.RootAt(s.kids, 0) && forall j :: 0 <= j < |s.kids| ==> D.LinkedAt(s.kids, j)
    requires forall j :: 0 <= j < |s.kids| && j != i ==> D.Nested(s.kids[j]) && D.Tree(s.kids[j])
    requires D.Nested(D.Shape(s.root, s.kids[i := k], s.nodes - s.kids[i].nodes + k.nodes))
    ensures D.Tree(D.Shape(s.root, s.kids[i := k], s.nodes - s.kids[i].nodes + k.nodes))
  {
    hide *;
    var r := D.Shape(s.root, s.kids[i := k], s.nodes - s.kids[i].nodes + k.nodes);
    ViewIs(r);
    forall j | 0 <= j < |r.kids| ensures D.LinkedAt(r.kids, j) { LinkedPut(s.kids, i, k, j); }
    forall x | x in r.kids ensures D.Nested(x) && D.Tree(x) {
      var j :| 0 <= j < |r.kids| && r.kids[j] == x;
      assert j != i ==> x == s.kids[j];
    }
    RootAtIs(s.kids, 0);
    RootAtIs(r.kids, 0);
    TreeBy(r);
  }

  lemma LinkedPut(ks: seq<D.Shape>, i: nat, k: D.Shape, j: nat)
    requires i < |ks| && j < |ks| && k.root == ks[i].root && D.LinkedAt(ks, j)
    ensures D.LinkedAt(ks[i := k], j)
  {
  }

  // ----- the value with another subtree there

  lemma WithKid(v: D.Value, i: nat, w: D.Value)
    requires i < |Pointer.Children(JsonOf(v))| && i < |v.kids| && w.name == v.kids[i].name
    ensures Pointer.Children(JsonOf(v))[i] == JsonOf(v.kids[i])
    ensures JsonOf(v.(kids := v.kids[i := w])) == WithChild(JsonOf(v), i, JsonOf(w))
  {
    var r := v.(kids := v.kids[i := w]);
    if JsonOf(v).Array? {
      assert JsonOf(r).items == JsonOf(v).items[i := JsonOf(w)];
    } else {
      assert MembersOf(r.kids) == MembersOf(v.kids)[i := MembersOf(v.kids)[i].(item := JsonOf(w))];
    }
  }

  lemma KidCounts(v: D.Value)
    ensures |Pointer.Children(JsonOf(v))| == if JsonOf(v).Array? || JsonOf(v).Object? then |v.kids| else 0
    ensures forall i :: 0 <= i < |Pointer.Children(JsonOf(v))| ==> Pointer.Children(JsonOf(v))[i] == JsonOf(v.kids[i])
  {
  }

  lemma KidPutView(s: D.Shape, i: nat, k: D.Shape)
    requires D.Nested(s) && i < |s.kids| && D.Nested(k) && k.root == s.kids[i].root
    requires D.Nested(D.Shape(s.root, s.kids[i := k], s.nodes - s.kids[i].nodes + k.nodes))
    ensures i < |D.View(s).kids| && D.Nested(s.kids[i]) && D.View(s).kids[i] == D.View(s.kids[i])
    ensures D.View(k).name == D.View(s.kids[i]).name
    ensures D.View(D.Shape(s.root, s.kids[i := k], s.nodes - s.kids[i].nodes + k.nodes)) ==
              D.View(s).(kids := D.View(s).kids[i := D.View(k)])
  {
    hide *;
    var r := D.Shape(s.root, s.kids[i := k], s.nodes - s.kids[i].nodes + k.nodes);
    ViewIs(s);
    ViewIs(r);
    ViewIs(k);
    ViewIs(s.kids[i]);
    ViewsEach(s.kids, D.Inner(s));
    ViewsEach(r.kids, D.Inner(r));
    assert D.Views(r.kids, D.Inner(r)) == D.Views(s.kids, D.Inner(s))[i := D.View(k)];
  }

  /** Places of the value are places of the tree. */
  lemma {:induction false} Located(s: D.Shape, loc: Loc)
    requires D.Nested(s) && ValidLoc(JsonOf(D.View(s)), loc)
    ensures Leads(s, loc) && D.Nested(ShapeAt(s, loc)) && At(JsonOf(D.View(s)), loc) == JsonOf(D.View(ShapeAt(s, loc)))
    decreases |loc|
  {
    if loc != [] {
      KidCounts(D.View(s));
      ViewIs(s);
      ViewsEach(s.kids, D.Inner(s));
      hide D.Nested, D.NestedIn, D.View, D.Views, JsonOf;
      Located(s.kids[loc[0]], loc[1..]);
    }
  }

  lemma {:induction false} ViewPut(s: D.Shape, loc: Loc, u: D.Shape)
    requires Leads(s, loc) && Fits(s, loc, u) && ValidLoc(JsonOf(D.View(s)), loc)
    ensures D.Nested(Put(s, loc, u)) && JsonOf(D.View(Put(s, loc, u))) == SetAt(JsonOf(D.View(s)), loc, JsonOf(D.View(u)))
    decreases |loc|
  {
    PutNested(s, loc, u);
    if loc != [] {
      var i := loc[0];
      KidNested(s, i);
      KidFits(s, loc, u);
      KidCounts(D.View(s));
      hide D.Nested, D.View, JsonOf, Fits;
      var k := Put(s.kids[i], loc[1..], u);
      PutNested(s.kids[i], loc[1..], u);
      KidPutView(s, i, k);
      WithKid(D.View(s), i, D.View(k));
      ViewPut(s.kids[i], loc[1..], u);
    }
  }

  // ----- following a pointer

  lemma {:induction false} LeadsOn(s: D.Shape, loc: Loc, i: nat)
    requires Leads(s, loc) && i < |ShapeAt(s, loc).kids|
    ensures Leads(s, loc + [i]) && ShapeAt(s, loc + [i]) == ShapeAt(s, loc).kids[i]
    decreases |loc|
  {
    if loc != [] {
      assert (loc + [i])[0] == loc[0] && (loc + [i])[1..] == loc[1..] + [i];
      LeadsOn(s.kids[loc[0]], loc[1..], i);
    }
  }

  lemma FindTokenNext(ms: seq<Entry<Json>>, i: nat, ptr: string)
    requires i < |ms|
    ensures TokenMatches(ms[i].name, ptr) ==> FindToken(ms[i..], ptr) == 0
    ensures !TokenMatches(ms[i].name, ptr) ==> FindToken(ms[i..], ptr) == 1 + FindToken(ms[i + 1..], ptr)
  {
    assert ms[i..][0] == ms[i] && ms[i..][1..] == ms[i + 1..];
  }

  lemma FindTokenEnds(ms: seq<Entry<Json>>, ptr: string)
    ensures ms[0..] == ms && FindToken(ms[|ms|..], ptr) == 0
  {
  }

  /** The loop over the names of an object. */
  method FindMember(root: Node, ptr: string, ghost s: D.Shape) returns (c: Node?, ghost i: nat)
    requires D.Nested(s) && D.Tree(s) && s.root == root
    ensures i == FindToken(MembersOf(D.View(s).kids), ptr) && i <= |s.kids|
    ensures c == if i < |s.kids| then s.kids[i].root else null
  {
    hide *;
    ghost var ms := MembersOf(D.View(s).kids);
    KidCount(s);
    FindTokenEnds(ms, ptr);
    i, c := 0, root.child;
    while c != null && !TokenMatches(c.name, ptr)
      invariant i <= |s.kids| && c == D.RootAt(s.kids, i)
      invariant i + FindToken(ms[i..], ptr) == FindToken(ms, ptr)
      invariant D.Nested(s) && D.Tree(s) && ms == MembersOf(D.View(s).kids)
      decreases |s.kids| - i
    {
      RootAtIs(s.kids, i);
      KidName(s, i);
      FindTokenNext(ms, i, ptr);
      c := c.next;
      i := i + 1;
    }
    RootAtIs(s.kids, i);
    if c != null {
      KidName(s, i);
      FindTokenNext(ms, i, ptr);
    }
  }

  /** `cJSON_GetArrayItem` on a tree. */
  method ItemAt(root: Node, which: int, ghost s: D.Shape) returns (c: Node?)
    requires D.Nested(s) && D.Tree(s) && s.root == root
    ensures c == if Clamp(which) < |s.kids| then s.kids[Clamp(which)].root else null
  {
    hide *;
    ghost var xs := Roots(s.kids);
    ToChain(s);
    ChainIs(root, xs);
    c := Seek(root, which, xs);
  }

  /** One step of the resolution in an array, and in an object. */
  lemma ResolveItem(v: D.Value, ptr: string)
    requires JsonOf(v).Array? && ptr != [] && ptr[0] == '/'
    ensures var (which, rest) := ReadDigits(ptr[1..], 0);
      && |rest| < |ptr|
      && Resolve(JsonOf(v), ptr) == if !EndsToken(rest) || which >= |v.kids| then None else Under(which,
          Resolve(JsonOf(v.kids[which]), rest))
  {
    hide *;
    KindIs(v);
    ResolveArray(JsonOf(v), ptr);
  }

  lemma ResolveArray(v: Json, ptr: string)
    requires v.Array? && ptr != [] && ptr[0] == '/'
    ensures var (which, rest) := ReadDigits(ptr[1..], 0);
      && |rest| < |ptr|
      && Resolve(v, ptr) == if !EndsToken(rest) || which >= |v.items| then None else Under(which, Resolve(v.items[which], rest))
  {
    ReadDigitsShortens(ptr[1..], 0);
    hide ReadDigits;
  }

  lemma {:induction false} ReadDigitsShortens(s: string, acc: nat)
    ensures |ReadDigits(s, acc).1| <= |s|
  {
    if s != [] && '0' <= s[0] <= '9' { ReadDigitsShortens(s[1..], 10 * acc + (s[0] as int - '0' as int)); }
  }

  lemma ResolveMember(v: D.Value, ptr: string)
    requires JsonOf(v).Object? && ptr != [] && ptr[0] == '/'
    ensures JsonOf(v).members == MembersOf(v.kids)
    ensures var i, rest := FindToken(MembersOf(v.kids), ptr[1..]), DropToken(ptr[1..]);
      Resolve(JsonOf(v), ptr) == if i >= |v.kids| then None else Under(i, Resolve(JsonOf(v.kids[i]), rest))
  {
    hide FindToken, DropToken;
  }

  lemma ResolveScalar(v: D.Value, ptr: string)
    requires !JsonOf(v).Array? && !JsonOf(v).Object? && ptr != [] && ptr[0] == '/'
    ensures Resolve(JsonOf(v), ptr) == None
  {
  }

  lemma KindIs(v: D.Value)
    ensures JsonOf(v).Array? <==> v.scalar.kind == TYPE_ARRAY
    ensures JsonOf(v).Object? <==> v.scalar.kind == TYPE_OBJECT
    ensures JsonOf(v).String? <==> v.scalar.kind == TYPE_STRING
    ensures JsonOf(v).String? ==> JsonOf(v).s == v.scalar.valuestring
    ensures JsonOf(v).Array? ==> |JsonOf(v).items| == |v.kids| && forall i :: 0 <= i < |v.kids| ==>
              JsonOf(v).items[i] == JsonOf(v.kids[i])
    ensures JsonOf(v).Object? ==> JsonOf(v).members == MembersOf(v.kids)
  {
    hide MembersOf;
  }

  lemma KidTree(s: D.Shape, i: nat)
    requires D.Nested(s) && D.Tree(s) && i < |s.kids|
    ensures D.Nested(s.kids[i]) && D.Tree(s.kids[i]) && i < |D.View(s).kids| == |s.kids| && D.View(s).kids[i] == D.View(s.kids[i])
  {
    hide *;
    TreeFacts(s);
    ViewIs(s);
    ViewsEach(s.kids, D.Inner(s));
  }

  /** One round of the loop: the child the token after the slash leads to, and the rest of the pointer. */
  method Follow(c: Node, ptr: string, ghost s: D.Shape) returns (next: Node?, rest: string, ghost i: nat)
    requires D.Nested(s) && D.Tree(s) && s.root == c && ptr != [] && ptr[0] == '/'
    ensures |rest| < |ptr|
    ensures next == null ==> Resolve(JsonOf(D.View(s)), ptr) == None
    ensures next != null ==>
      && i < |s.kids| && next == s.kids[i].root && D.Nested(s.kids[i]) && D.Tree(s.kids[i])
      && Resolve(JsonOf(D.View(s)), ptr) == Under(i, Resolve(JsonOf(D.View(s.kids[i])), rest))
  {
    hide *;
    ghost var v := D.View(s);
    ViewIs(s);
    KindIs(v);
    next, rest, i := null, "", 0;
    if c.scalar.kind == TYPE_ARRAY {
      ResolveItem(v, ptr);
      var (which, more) := ReadDigits(ptr[1..], 0);
      rest := more;
      if !EndsToken(rest) { return; }
      next := ItemAt(c, which, s);
      i := which;
      ClampIs(which);
    } else if c.scalar.kind == TYPE_OBJECT {
      ResolveMember(v, ptr);
      next, i := FindMember(c, ptr[1..], s);
      rest := DropToken(ptr[1..]);
    } else {
      ResolveScalar(v, ptr);
    }
    if i < |s.kids| { KidTree(s, i); }
  }

  lemma ClampIs(which: nat)
    ensures Clamp(which) == which
  {
  }

  /** `cJSONUtils_GetPointer` on a tree. */
  method GetPointer(root: Node, pointer: string, ghost s: D.Shape) returns (c: Node?, ghost loc: Loc)
    requires D.Nested(s) && D.Tree(s) && s.root == root
    ensures c == null ==> Resolve(JsonOf(D.View(s)), pointer) == None
    ensures c != null ==> Resolve(JsonOf(D.View(s)), pointer) == Some(loc) && Leads(s, loc) && c == ShapeAt(s, loc).root
  {
    hide *;
    var ptr := pointer;
    ghost var u, v := s, JsonOf(D.View(s));
    c, loc := root, [];
    StartsHere(s, v, pointer);
    while ptr != [] && ptr[0] == '/'
      invariant c != null && D.Nested(u) && D.Tree(u) && u.root == c && Leads(s, loc) && u == ShapeAt(s, loc)
      invariant Resolve(v, pointer) == Below(loc, Resolve(JsonOf(D.View(u)), ptr))
      decreases |ptr|
    {
      ghost var i;
      ghost var here := JsonOf(D.View(u));
      var next, rest;
      next, rest, i := Follow(c, ptr, u);
      if next == null {
        BelowNone(loc);
        return null, [];
      }
      BelowUnder(loc, i, Resolve(JsonOf(D.View(u.kids[i])), rest));
      LeadsOn(s, loc, i);
      c, ptr, loc, u := next, rest, loc + [i], u.kids[i];
    }
    EndsHere(loc, JsonOf(D.View(u)), ptr);
  }

  lemma StartsHere(s: D.Shape, v: Json, pointer: string)
    ensures Leads(s, []) && ShapeAt(s, []) == s && Resolve(v, pointer) == Below([], Resolve(v, pointer))
  {
    if Resolve(v, pointer).Some? { assert [] + Resolve(v, pointer).value == Resolve(v, pointer).value; }
    hide Resolve;
  }

  lemma BelowNone(loc: Loc)
    ensures Below(loc, None) == None
  {
  }

  lemma EndsHere(loc: Loc, v: Json, ptr: string)
    requires ptr == [] || ptr[0] != '/'
    ensures Below(loc, Resolve(v, ptr)) == Some(loc)
  {
    assert loc + [] == loc;
  }

  // ----- taking a child out of a node

  lemma ItemsWithout(v: D.Value, i: nat)
    requires JsonOf(v).Array? && i < |v.kids|
    ensures i < |JsonOf(v).items| && JsonOf(v.(kids := Without(v.kids, i))) == Array(Without(JsonOf(v).items, i))
    ensures JsonOf(v).items[i] == JsonOf(v.kids[i])
  {
    var r := v.(kids := Without(v.kids, i));
    KindIs(v);
    KindIs(r);
    hide JsonOf, Without;
    WithoutIndex(v.kids, i);
    WithoutIndex(JsonOf(v).items, i);
    assert JsonOf(r).items == Without(JsonOf(v).items, i);
  }

  lemma DetachItem(v: D.Value, name: string)
    requires JsonOf(v).Array?
    ensures var i := Clamp(Atoi(name));
      DetachChild(JsonOf(v), name) ==
      if i < |v.kids| then (JsonOf(v.(kids := Without(v.kids, i))), Some(JsonOf(v.kids[i]))) else (JsonOf(v), None)
  {
    KindIs(v);
    if Clamp(Atoi(name)) < |v.kids| { ItemsWithout(v, Clamp(Atoi(name))); }
    hide JsonOf, Without, Atoi;
  }

  lemma DetachMember(v: D.Value, rest: D.Value, name: string)
    requires JsonOf(v).Object? && rest.scalar == v.scalar && MembersOf(rest.kids) ==
              MergeApply.DeleteMember(MembersOf(v.kids), name)
    ensures DetachChild(JsonOf(v), name) == (JsonOf(rest), MergeApply.Lookup(MembersOf(v.kids), name))
  {
    KindIs(v);
    KindIs(rest);
    hide JsonOf, MembersOf, Without, FindName;
  }

  lemma DetachNothing(v: D.Value, name: string)
    requires !JsonOf(v).Array? && !JsonOf(v).Object?
    ensures DetachChild(JsonOf(v), name) == (JsonOf(v), None)
  {
  }

  lemma NoNodes()
    ensures NodesOf(None) == {} && Held(null, None) && ValueOf(null, None) == None
  {
  }

  lemma SomeHeld(c: Node, k: D.Shape)
    requires D.Nested(k) && D.Tree(k) && k.root == c
    ensures Held(c, Some(k)) && ValueOf(c, Some(k)) == Some(JsonOf(D.View(k))) && NodesOf(Some(k)) == k.nodes
  {
    hide D.Nested, D.Tree, D.View, JsonOf;
  }

  /** `cJSON_DetachItemFromArray`, or `cJSON_DetachItemFromObject`. */
  method DetachFrom(node: Node, name: string, ghost s: D.Shape) returns (c: Node?, ghost rest: D.Shape,
      ghost kid: Option<D.Shape>)
    requires D.Nested(s) && D.Tree(s) && s.root == node
    modifies node`child, D.Inner(s)`next, D.Inner(s)`prev
    ensures D.Nested(rest) && D.Tree(rest) && rest.root == node
    ensures rest.nodes <= s.nodes && NodesOf(kid) <= D.Inner(s) && rest.nodes !! NodesOf(kid)
    ensures Held(c, kid) && (c != null ==> c.next == null && c.prev == null)
    ensures (JsonOf(D.View(rest)), ValueOf(c, kid)) == DetachChild(old(JsonOf(D.View(s))), name)
  {
    hide *;
    ghost var v := D.View(s);
    ViewIs(s);
    KindIs(v);
    c, rest, kid := null, s, None;
    if node.scalar.kind == TYPE_ARRAY {
      c := ItemAt(node, Atoi(name), s);
      DetachItem(v, name);
      ViewsCount(s);
      if c != null {
        var i := Clamp(Atoi(name));
        rest, kid := Pruned(s, i), Some(s.kids[i]);
        KidNested(s, i);
        PrunedNested(s, i);
        PrunedView(s, i);
        PrunedIs(s, i);
        c := DetachKid(node, i, s);
        PrunedView(s, i);
        SomeHeld(c, s.kids[i]);
        return;
      }
    } else if node.scalar.kind == TYPE_OBJECT {
      c, rest, kid := TakeOut(node, name, s);
      ViewIs(rest);
      DetachMember(v, D.View(rest), name);
      return;
    } else {
      DetachNothing(v, name);
    }
    NoNodes();
  }

  lemma ViewsCount(s: D.Shape)
    requires D.Nested(s)
    ensures |D.View(s).kids| == |s.kids|
  {
    hide *;
    ViewIs(s);
    ViewsEach(s.kids, D.Inner(s));
  }

  // ----- putting a child into a node

  /** A tree with one more child, at an index. */
  ghost function Inserted(s: D.Shape, k: nat, t: D.Shape): D.Shape
    requires k <= |s.kids|
  {
    D.Shape(s.root, s.kids[..k] + [t] + s.kids[k..], s.nodes + t.nodes)
  }

  lemma InsertedAt<T>(xs: seq<T>, k: nat, x: T)
    requires k <= |xs|
    ensures var ys := xs[..k] + [x] + xs[k..];
      |ys| == |xs| + 1 && forall i :: 0 <= i < |ys| ==> ys[i] == if i < k then xs[i] else if i == k then x else xs[i - 1]
  {
  }

  lemma RootsApart(s: D.Shape, t: D.Shape)
    requires D.Nested(s) && D.Nested(t) && s.nodes !! t.nodes
    ensures t.root !in Roots(s.kids) && t.root != s.root && t.root !in D.Inner(t) && t.root !in D.Inner(s)
    ensures s.root !in D.Inner(t) && D.Inner(s) !! D.Inner(t) && s.root !in D.Inner(s)
    ensures forall k :: k in s.kids ==> D.Nested(k) && t.root !in D.Inner(k) && s.root !in D.Inner(k)
  {
    ViewIs(s);
    ViewIs(t);
    RootsInside(s.kids, D.Inner(s));
    hide D.Nested, D.NestedIn;
    forall x | x in Roots(s.kids) ensures x in D.Inner(s) { assert x in Nodes(Roots(s.kids)); }
  }

  lemma InsertedKid(s: D.Shape, k: nat, t: D.Shape, i: nat)
    requires D.Nested(s) && D.Nested(t) && s.nodes !! t.nodes && k <= |s.kids| && i <= |s.kids|
    ensures var x := Inserted(s, k, t).kids[i];
      && D.Nested(x) && x.root in D.Inner(Inserted(s, k, t)) && x.nodes <= D.Inner(Inserted(s, k, t))
      && x == if i < k then s.kids[i] else if i == k then t else s.kids[i - 1]
    ensures i != k ==> Inserted(s, k, t).kids[i].nodes <= s.nodes
  {
    hide *;
    InsertedIs(s, k, t);
    InsertedAt(s.kids, k, t);
    InnerIs(Inserted(s, k, t));
    InnerIs(s);
    RootsApart(s, t);
    ViewIs(t);
    ViewIs(s);
    if i != k { KidNested(s, if i < k then i else i - 1); }
  }

  lemma InsertedNested(s: D.Shape, k: nat, t: D.Shape)
    requires D.Nested(s) && D.Nested(t) && s.nodes !! t.nodes && k <= |s.kids|
    ensures D.Nested(Inserted(s, k, t)) && t.root in t.nodes && s.root in s.nodes
    ensures Roots(Inserted(s, k, t).kids) == Roots(s.kids)[..k] + [t.root] + Roots(s.kids)[k..]
    ensures forall x :: x in Inserted(s, k, t).kids ==> x == t || x in s.kids
  {
    hide *;
    var r := Inserted(s, k, t);
    InsertedIs(s, k, t);
    ViewIs(s);
    ViewIs(t);
    InsertedAt(s.kids, k, t);
    forall i | 0 <= i < |r.kids| ensures D.Nested(r.kids[i]) && r.kids[i].root in D.Inner(r) && r.kids[i].nodes <= D.Inner(r) {
      InsertedKid(s, k, t, i);
    }
    forall i, j | 0 <= i < j < |r.kids| ensures r.kids[i].nodes !! r.kids[j].nodes {
      InsertedKid(s, k, t, i);
      InsertedKid(s, k, t, j);
      if i != k && j != k { KidNested(s, if i < k then i else i - 1); }
    }
    NestedInBy(r.kids, D.Inner(r));
    NestedBy(r);
    InsertedRoots(s.kids, k, t);
  }

  lemma InsertedRoots(ks: seq<D.Shape>, k: nat, t: D.Shape)
    requires k <= |ks|
    ensures Roots(ks[..k] + [t] + ks[k..]) == Roots(ks)[..k] + [t.root] + Roots(ks)[k..]
  {
    InsertedAt(ks, k, t);
    InsertedAt(Roots(ks), k, t.root);
  }

  lemma InsertedView(s: D.Shape, k: nat, t: D.Shape)
    requires D.Nested(s) && D.Nested(t) && k <= |s.kids| && D.Nested(Inserted(s, k, t))
    ensures |D.View(s).kids| == |s.kids|
    ensures D.View(Inserted(s, k, t)) == D.View(s).(kids := D.View(s).kids[..k] + [D.View(t)] + D.View(s).kids[k..])
  {
    hide *;
    var r := Inserted(s, k, t);
    InsertedIs(s, k, t);
    ViewIs(s);
    ViewIs(r);
    ViewsEach(s.kids, D.Inner(s));
    ViewsEach(r.kids, D.Inner(r));
    InsertedAt(s.kids, k, t);
    InsertedAt(D.Views(s.kids, D.Inner(s)), k, D.View(t));
    assert D.Views(r.kids, D.Inner(r)) == D.Views(s.kids, D.Inner(s))[..k] + [D.View(t)] + D.Views(s.kids, D.Inner(s))[k..];
  }

  lemma InsertedIs(s: D.Shape, k: nat, t: D.Shape)
    requires k <= |s.kids|
    ensures var r := Inserted(s, k, t); r.root == s.root && r.kids == s.kids[..k] + [t] + s.kids[k..] && r.nodes == s.nodes + t.nodes
  {
  }

  lemma AddItem(v: D.Value, name: string, w: D.Value)
    requires JsonOf(v).Array?
    ensures var k := if name != "-" && Clamp(Atoi(name)) < |v.kids| then Clamp(Atoi(name)) else |v.kids|;
      AddChild(JsonOf(v), name, JsonOf(w)) == JsonOf(v.(kids := v.kids[..k] + [w] + v.kids[k..]))
  {
    KindIs(v);
    hide JsonOf, Atoi;
    ItemsInserted(v, if name != "-" && Clamp(Atoi(name)) < |v.kids| then Clamp(Atoi(name)) else |v.kids|, w);
    AppendedSeq(JsonOf(v).items, JsonOf(w));
  }

  lemma ItemsInserted(v: D.Value, k: nat, w: D.Value)
    requires JsonOf(v).Array? && k <= |v.kids|
    ensures |JsonOf(v).items| == |v.kids|
    ensures JsonOf(v.(kids := v.kids[..k] + [w] + v.kids[k..])) == Array(JsonOf(v).items[..k] + [JsonOf(w)] + JsonOf(v).items[k..])
  {
    hide *;
    var r := v.(kids := v.kids[..k] + [w] + v.kids[k..]);
    KindIs(v);
    KindIs(r);
    InsertedAt(v.kids, k, w);
    InsertedAt(JsonOf(v).items, k, JsonOf(w));
    assert JsonOf(r).items == JsonOf(v).items[..k] + [JsonOf(w)] + JsonOf(v).items[k..];
  }

  lemma AddMember(v: D.Value, rest: D.Value, name: string, w: Json, r: D.Value)
    requires JsonOf(v).Object? && r.scalar == v.scalar && MembersOf(rest.kids) == MergeApply.DeleteMember(MembersOf(v.kids), name)
    requires MembersOf(r.kids) == MembersOf(rest.kids) + [Entry(name, w)]
    ensures AddChild(JsonOf(v), name, w) == JsonOf(r)
  {
    KindIs(v);
    KindIs(r);
    hide JsonOf, MembersOf, Without, FindName;
  }

  lemma AddNothing(v: D.Value, name: string, w: Json)
    requires !JsonOf(v).Array? && !JsonOf(v).Object?
    ensures AddChild(JsonOf(v), name, w) == JsonOf(v)
  {
  }

  /** `cJSON_AddItemToArray`, or `cJSON_InsertItemInArray`. */
  method InsertKid(node: Node, name: string, item: Node, ghost s: D.Shape, ghost t: D.Shape) returns (ghost r: D.Shape)
    requires D.Nested(s) && D.Tree(s) && s.root == node && D.Nested(t) && D.Tree(t) && t.root == item
    requires item.next == null && item.prev == null && s.nodes !! t.nodes
    modifies node`child, D.Inner(s)`next, D.Inner(s)`prev, item`next, item`prev
    ensures D.Nested(r) && D.Tree(r) && r.root == node && r.nodes == s.nodes + t.nodes
    ensures var k := if name != "-" && Clamp(Atoi(name)) < |s.kids| then Clamp(Atoi(name)) else |s.kids|;
      r == Inserted(s, k, t)
  {
    hide D.Nested, D.NestedIn, D.Tree, D.Kids, D.View, D.Views, D.LinkedAt, Chain, Loose, Distinct, LinkedAt, Atoi,
        Inserted, Roots, D.RootAt;
    ghost var xs := Roots(s.kids);
    ghost var k := if name != "-" && Clamp(Atoi(name)) < |s.kids| then Clamp(Atoi(name)) else |s.kids|;
    r := Inserted(s, k, t);
    InsertedIs(s, k, t);
    InsertedNested(s, k, t);
    ToChain(s);
    RootsInside(s.kids, D.Inner(s));
    ViewIs(s);
    ViewIs(t);
    ChainIs(node, xs);
    RootsApart(s, t);
    AppendedSeq(xs, item);
    if name == "-" {
      AddItemToArray(node, item, xs);
    } else {
      InsertItemInArray(node, Atoi(name), item, xs);
    }
    forall x | x in r.kids ensures D.Nested(x) && D.Tree(x) {
      if x != t { assert old(D.Tree(x)); } else { assert old(D.Tree(t)); }
    }
    FromChain(r);
  }

  lemma AppendedSeq<T>(xs: seq<T>, x: T)
    ensures xs[..|xs|] + [x] + xs[|xs|..] == xs + [x]
  {
  }

  /** The end of `cJSONUtils_ApplyPatch` at the parent found: into an array, under a name of an object, or nowhere. */
  method AddTo(node: Node, name: string, item: Node, ghost s: D.Shape, ghost t: D.Shape) returns (ghost r: D.Shape)
    requires D.Nested(s) && D.Tree(s) && s.root == node && D.Nested(t) && D.Tree(t) && t.root == item
    requires item.next == null && item.prev == null && s.nodes !! t.nodes
    modifies node`child, D.Inner(s)`next, D.Inner(s)`prev, item`next, item`prev, item`name
    ensures D.Nested(r) && D.Tree(r) && r.root == node && r.nodes <= s.nodes + t.nodes
    ensures JsonOf(D.View(r)) == AddChild(old(JsonOf(D.View(s))), name, old(JsonOf(D.View(t))))
  {
    hide *;
    ghost var v, w := D.View(s), D.View(t);
    ViewIs(s);
    ViewIs(t);
    KindIs(v);
    if node.scalar.kind == TYPE_ARRAY {
      r := InsertKid(node, name, item, s, t);
      ghost var k := if name != "-" && Clamp(Atoi(name)) < |s.kids| then Clamp(Atoi(name)) else |s.kids|;
      InsertedView(s, k, t);
      AddItem(v, name, w);
    } else if node.scalar.kind == TYPE_OBJECT {
      ghost var rest, kid;
      var c;
      c, rest, kid := TakeOut(node, name, s);
      ghost var before := D.View(rest);
      ViewIs(rest);
      r := AppendKid(node, item, name, rest, t);
      ViewIs(r);
      MembersAppend(before.kids, w.(name := name));
      Renamed(w, name);
      GrownIs(rest, t);
      AddMember(v, before, name, JsonOf(w), D.View(r));
    } else {
      r := s;
      AddNothing(v, name, JsonOf(w));
    }
  }

  lemma GrownIs(s: D.Shape, t: D.Shape)
    ensures Grown(s, t).root == s.root && Grown(s, t).nodes == s.nodes + t.nodes
  {
  }

  // ----- one operation on a document

  /** A changed subtree in its place. */
  lemma Replaced(s: D.Shape, loc: Loc, u: D.Shape)
    requires Leads(s, loc) && Fits(s, loc, u) && Around(s, loc) && D.Tree(u) && ValidLoc(JsonOf(D.View(s)), loc)
    ensures D.Nested(Put(s, loc, u)) && D.Tree(Put(s, loc, u)) && Put(s, loc, u).root == s.root
    ensures Put(s, loc, u).nodes == s.nodes - ShapeAt(s, loc).nodes + u.nodes
    ensures JsonOf(D.View(Put(s, loc, u))) == SetAt(JsonOf(D.View(s)), loc, JsonOf(D.View(u)))
  {
    hide *;
    TreePut(s, loc, u);
    PutNested(s, loc, u);
    ViewPut(s, loc, u);
  }

  lemma FitsBy(s: D.Shape, loc: Loc, u: D.Shape)
    requires Leads(s, loc) && D.Nested(s) && D.Nested(u) && u.root == ShapeAt(s, loc).root
              && (u.nodes - ShapeAt(s, loc).nodes) !! s.nodes
    ensures Fits(s, loc, u)
  {
    hide D.Nested;
  }

  lemma DetachAtLoc(doc: Json, path: string, loc: Loc)
    requires SplitPath(path).Some? && Resolve(doc, SplitPath(path).value.0) == Some(loc)
    ensures ValidLoc(doc, loc)
    ensures var (node, item) := DetachChild(At(doc, loc), SplitPath(path).value.1);
      Patch.PatchDetach(doc, path) == Detached(SetAt(doc, loc, node), item)
  {
    ResolveIsValid(doc, SplitPath(path).value.0);
    hide Resolve, SplitPath, DetachChild, SetAt, At;
  }

  lemma DetachNowhere(doc: Json, path: string)
    requires SplitPath(path).Some? && Resolve(doc, SplitPath(path).value.0) == None
    ensures Patch.PatchDetach(doc, path) == Detached(doc, None)
  {
    hide Resolve, SplitPath;
  }

  /** `cJSONUtils_PatchDetach`. */
  method Detach(root: Node, path: string, ghost s: D.Shape) returns (c: Node?, ghost rest: D.Shape, ghost kid: Option<D.Shape>)
    requires D.Nested(s) && D.Tree(s) && s.root == root && SplitPath(path).Some?
    modifies s.nodes`child, s.nodes`next, s.nodes`prev
    ensures D.Nested(rest) && D.Tree(rest) && rest.root == root
    ensures rest.nodes <= s.nodes && NodesOf(kid) <= s.nodes && rest.nodes !! NodesOf(kid)
    ensures Held(c, kid) && (c != null ==> c.next == null && c.prev == null)
    ensures Patch.PatchDetach(old(JsonOf(D.View(s))), path) == Detached(JsonOf(D.View(rest)), ValueOf(c, kid))
  {
    hide *;
    ViewIs(s);
    var (parentptr, childptr) := SplitPath(path).value;
    ghost var doc, loc := JsonOf(D.View(s)), [];
    var parent;
    parent, loc := GetPointer(root, parentptr, s);
    if parent == null {
      DetachNowhere(doc, path);
      c, rest, kid := null, s, None;
      NoNodes();
    } else {
      ghost var u := ShapeAt(s, loc);
      DetachAtLoc(doc, path, loc);
      Located(s, loc);
      ShapeInside(s, loc);
      AroundIt(s, loc);
      InnerIs(u);
      OutsideIs(s, loc);
      ghost var w;
      c, w, kid := DetachFrom(parent, childptr, u);
      FitsBy(s, loc, w);
      Replaced(s, loc, w);
      rest := Put(s, loc, w);
    }
  }

  lemma AddAtLoc(doc: Json, path: string, loc: Loc, x: Json)
    requires SplitPath(path).Some? && Resolve(doc, SplitPath(path).value.0) == Some(loc)
    ensures ValidLoc(doc, loc)
    ensures Patch.PatchAdd(doc, path, x) == Applied(0, SetAt(doc, loc, AddChild(At(doc, loc), SplitPath(path).value.1, x)))
  {
    ResolveIsValid(doc, SplitPath(path).value.0);
    hide Resolve, SplitPath, AddChild, SetAt, At;
  }

  lemma AddNowhere(doc: Json, path: string, x: Json)
    requires SplitPath(path).Some? && Resolve(doc, SplitPath(path).value.0) == None
    ensures Patch.PatchAdd(doc, path, x) == Applied(9, doc)
  {
    hide Resolve, SplitPath;
  }

  /** The end of `cJSONUtils_ApplyPatch`: `item` is put where the path says. */
  method Add(root: Node, path: string, item: Node, ghost s: D.Shape, ghost t: D.Shape) returns (code: int, ghost r: D.Shape)
    requires D.Nested(s) && D.Tree(s) && s.root == root && SplitPath(path).Some?
    requires D.Nested(t) && D.Tree(t) && t.root == item && item.next == null && item.prev == null && s.nodes !! t.nodes
    modifies s.nodes`child, s.nodes`next, s.nodes`prev, item`next, item`prev, item`name
    ensures D.Nested(r) && D.Tree(r) && r.root == root && r.nodes <= s.nodes + t.nodes
    ensures Patch.PatchAdd(old(JsonOf(D.View(s))), path, old(JsonOf(D.View(t)))) == Applied(code, JsonOf(D.View(r)))
  {
    hide *;
    ViewIs(s);
    ViewIs(t);
    var (parentptr, childptr) := SplitPath(path).value;
    ghost var doc, x, loc := JsonOf(D.View(s)), JsonOf(D.View(t)), [];
    var parent;
    parent, loc := GetPointer(root, parentptr, s);
    if parent == null {
      AddNowhere(doc, path, x);
      code, r := 9, s;
    } else {
      ghost var u := ShapeAt(s, loc);
      AddAtLoc(doc, path, loc, x);
      Located(s, loc);
      ShapeInside(s, loc);
      AroundIt(s, loc);
      InnerIs(u);
      OutsideIs(s, loc);
      ghost var w := AddTo(parent, childptr, item, u, t);
      FitsBy(s, loc, w);
      Replaced(s, loc, w);
      code, r := 0, Put(s, loc, w);
    }
  }

  lemma ItemIs(v: D.Value, name: string)
    ensures var i := FindName(MembersOf(v.kids), name);
      GetItem(JsonOf(v), name) == if v.scalar.kind == TYPE_OBJECT && i < |v.kids| then Some(JsonOf(v.kids[i])) else None
  {
    KindIs(v);
    hide JsonOf, FindName, MembersOf;
  }

  /** `cJSON_GetObjectItem` on a tree. */
  method GetObjectItem(node: Node, name: string, ghost p: D.Shape) returns (c: Node?, ghost k: D.Shape)
    requires D.Nested(p) && D.Tree(p) && p.root == node
    ensures c == null ==> GetItem(JsonOf(D.View(p)), name) == None
    ensures c != null ==>
      && D.Nested(k) && D.Tree(k) && k.root == c && k.nodes <= p.nodes
      && GetItem(JsonOf(D.View(p)), name) == Some(JsonOf(D.View(k)))
      && (JsonOf(D.View(k)).String? ==> JsonOf(D.View(k)).s == c.scalar.valuestring)
  {
    hide *;
    ViewIs(p);
    ItemIs(D.View(p), name);
    ViewsCount(p);
    c, k := null, p;
    if node.scalar.kind == TYPE_OBJECT {
      var i;
      i, c := FindKid(node, name, p);
      if c != null {
        k := p.kids[i];
        KidTree(p, i);
        ViewIs(k);
        KindIs(D.View(k));
      }
    }
  }

  // ----- the operations

  lemma RemoveRuns(doc: Json, path: Json)
    requires ApplyRemove(doc, path).Applied?
    ensures path.String? && SplitPath(path.s).Some?
    ensures match Patch.PatchDetach(doc, path.s)
      case Lost => false
      case Detached(rest, _) => ApplyRemove(doc, path) == Applied(0, rest)
  {
    hide SplitPath, Resolve, DetachChild;
  }

  method Remove(root: Node, path: string, ghost at: Json, ghost s: D.Shape) returns (ghost r: D.Shape)
    requires D.Nested(s) && D.Tree(s) && s.root == root && ApplyRemove(JsonOf(D.View(s)), at).Applied?
              && (at.String? ==> at.s == path)
    modifies s.nodes`child, s.nodes`next, s.nodes`prev
    ensures D.Nested(r) && D.Tree(r) && r.root == root && r.nodes <= s.nodes
    ensures ApplyRemove(old(JsonOf(D.View(s))), at) == Applied(0, JsonOf(D.View(r)))
  {
    hide *;
    RemoveRuns(JsonOf(D.View(s)), at);
    ghost var kid;
    var c;
    c, r, kid := Detach(root, path, s);
  }

  lemma AddRuns(doc: Json, path: Json, value: Option<Json>)
    requires ApplyAdd(doc, path, value).Applied?
    ensures value.None? ==> ApplyAdd(doc, path, value) == Applied(7, doc)
    ensures value.Some? ==> path.String? && SplitPath(path.s).Some?
    ensures value.Some? ==> ApplyAdd(doc, path, value) == Patch.PatchAdd(doc, path.s, value.value)
  {
    hide SplitPath, Resolve, AddChild;
  }

  /** A copy of the value is added. */
  method AddValue(root: Node, path: string, patch: Node, ghost at: Json, ghost s: D.Shape,
      ghost p: D.Shape) returns (code: int, ghost r: D.Shape)
    requires D.Nested(s) && D.Tree(s) && s.root == root && D.Nested(p) && D.Tree(p) && p.root == patch && s.nodes !! p.nodes
    requires ApplyAdd(JsonOf(D.View(s)), at, GetItem(JsonOf(D.View(p)), "value")).Applied? && (at.String? ==> at.s == path)
    modifies s.nodes`child, s.nodes`next, s.nodes`prev
    ensures D.Nested(r) && D.Tree(r) && r.root == root && fresh(r.nodes - s.nodes)
    ensures ApplyAdd(old(JsonOf(D.View(s))), at, old(GetItem(JsonOf(D.View(p)), "value"))) == Applied(code, JsonOf(D.View(r)))
  {
    hide *;
    ViewIs(s);
    AddRuns(JsonOf(D.View(s)), at, GetItem(JsonOf(D.View(p)), "value"));
    var value;
    ghost var k;
    value, k := GetObjectItem(patch, "value", p);
    if value == null { return 7, s; }
    ghost var t;
    value, t := D.Duplicate(value, true, k);
    ViewIs(t);
    code, r := Add(root, path, value, s, t);
  }

  lemma MoveRuns(doc: Json, path: Json, from: Option<Json>)
    requires ApplyMove(doc, path, from).Applied?
    ensures from.None? ==> ApplyMove(doc, path, from) == Applied(4, doc)
    ensures from.Some? ==> from.value.String? && SplitPath(from.value.s).Some?
    ensures from.Some? ==> match Patch.PatchDetach(doc, from.value.s)
      case Lost => false
      case Detached(rest, None) => ApplyMove(doc, path, from) == Applied(5, rest)
      case Detached(rest, Some(x)) =>
        path.String? && SplitPath(path.s).Some? && ApplyMove(doc, path, from) == Patch.PatchAdd(rest, path.s, x)
  {
    hide SplitPath, Resolve, DetachChild, AddChild;
  }

  /** The node itself is moved. */
  method Move(root: Node, path: string, patch: Node, ghost at: Json, ghost s: D.Shape,
      ghost p: D.Shape) returns (code: int, ghost r: D.Shape)
    requires D.Nested(s) && D.Tree(s) && s.root == root && D.Nested(p) && D.Tree(p) && p.root == patch && s.nodes !! p.nodes
    requires ApplyMove(JsonOf(D.View(s)), at, GetItem(JsonOf(D.View(p)), "from")).Applied? && (at.String? ==> at.s == path)
    modifies s.nodes`child, s.nodes`next, s.nodes`prev, s.nodes`name
    ensures D.Nested(r) && D.Tree(r) && r.root == root && r.nodes <= s.nodes
    ensures ApplyMove(old(JsonOf(D.View(s))), at, old(GetItem(JsonOf(D.View(p)), "from"))) == Applied(code, JsonOf(D.View(r)))
  {
    hide *;
    ViewIs(s);
    MoveRuns(JsonOf(D.View(s)), at, GetItem(JsonOf(D.View(p)), "from"));
    var from, value;
    ghost var k, rest, kid;
    from, k := GetObjectItem(patch, "from", p);
    if from == null { return 4, s; }
    value, rest, kid := Detach(root, from.scalar.valuestring, s);
    HeldIs(value, kid);
    if value == null { return 5, rest; }
    ViewIs(kid.value);
    ViewIs(rest);
    code, r := Add(root, path, value, rest, kid.value);
  }

  lemma HeldIs(c: Node?, kid: Option<D.Shape>)
    requires Held(c, kid)
    ensures c == null ==> ValueOf(c, kid) == None
    ensures c != null ==>
      && kid.Some? && D.Nested(kid.value) && D.Tree(kid.value) && kid.value.root == c && NodesOf(kid) == kid.value.nodes
      && ValueOf(c, kid) == Some(JsonOf(D.View(kid.value)))
  {
    hide D.Nested, D.Tree, D.View, JsonOf;
  }

  lemma CopyRuns(doc: Json, path: Json, from: Option<Json>)
    requires ApplyCopy(doc, path, from).Applied?
    ensures from.None? ==> ApplyCopy(doc, path, from) == Applied(4, doc)
    ensures from.Some? ==> from.value.String?
    ensures from.Some? ==> match Resolve(doc, from.value.s)
      case None => ApplyCopy(doc, path, from) == Applied(5, doc)
      case Some(loc) =>
        && ValidLoc(doc, loc) && path.String? && SplitPath(path.s).Some?
        && ApplyCopy(doc, path, from) == Patch.PatchAdd(doc, path.s, At(doc, loc))
  {
    if from.Some? { ResolveIsValid(doc, from.value.s); }
    hide SplitPath, Resolve, AddChild;
  }

  /** A copy of the node is added. */
  method Copy(root: Node, path: string, patch: Node, ghost at: Json, ghost s: D.Shape,
      ghost p: D.Shape) returns (code: int, ghost r: D.Shape)
    requires D.Nested(s) && D.Tree(s) && s.root == root && D.Nested(p) && D.Tree(p) && p.root == patch && s.nodes !! p.nodes
    requires ApplyCopy(JsonOf(D.View(s)), at, GetItem(JsonOf(D.View(p)), "from")).Applied? && (at.String? ==> at.s == path)
    modifies s.nodes`child, s.nodes`next, s.nodes`prev
    ensures D.Nested(r) && D.Tree(r) && r.root == root && fresh(r.nodes - s.nodes)
    ensures ApplyCopy(old(JsonOf(D.View(s))), at, old(GetItem(JsonOf(D.View(p)), "from"))) == Applied(code, JsonOf(D.View(r)))
  {
    hide *;
    ViewIs(s);
    CopyRuns(JsonOf(D.View(s)), at, GetItem(JsonOf(D.View(p)), "from"));
    var from, value;
    ghost var k, loc, t;
    from, k := GetObjectItem(patch, "from", p);
    if from == null { return 4, s; }
    value, loc := GetPointer(root, from.scalar.valuestring, s);
    if value == null { return 5, s; }
    Located(s, loc);
    AroundIt(s, loc);
    value, t := D.Duplicate(value, true, ShapeAt(s, loc));
    Located(s, loc);
    ViewIs(t);
    code, r := Add(root, path, value, s, t);
  }

  lemma PatchRuns(doc: Json, patch: Json)
    requires Patch.ApplyPatch(doc, patch).Applied? && LinkedPatch.PathOf(patch, "op") != Some("test")
    ensures var op, path := GetItem(patch, "op"), GetItem(patch, "path");
      if op.None? || path.None? then Patch.ApplyPatch(doc, patch) == Applied(2, doc)
      else
        && op.value.String?
        && Patch.ApplyPatch(doc, patch) ==
           if op.value.s == "add" then ApplyAdd(doc, path.value, GetItem(patch, "value"))
           else if op.value.s == "remove" then ApplyRemove(doc, path.value)
           else if op.value.s == "replace" then ApplyReplace(doc, path.value, GetItem(patch, "value"))
           else if op.value.s == "move" then ApplyMove(doc, path.value, GetItem(patch, "from"))
           else if op.value.s == "copy" then ApplyCopy(doc, path.value, GetItem(patch, "from"))
           else Applied(3, doc)
  {
    hide GetItem, ApplyAdd, ApplyRemove, ApplyReplace, ApplyMove, ApplyCopy, ApplyTest;
  }

  lemma ReplaceRuns(doc: Json, path: Json, value: Option<Json>)
    requires ApplyReplace(doc, path, value).Applied?
    ensures ApplyRemove(doc, path).Applied? && ApplyReplace(doc, path, value) == ApplyAdd(ApplyRemove(doc, path).doc, path, value)
  {
    hide ApplyRemove, ApplyAdd;
  }

  /** `cJSONUtils_ApplyPatch` for every operation but "test", where the C code follows no null pointer. */
  method ApplyPatch(root: Node, patch: Node, ghost s: D.Shape, ghost p: D.Shape) returns (code: int, ghost r: D.Shape)
    requires D.Nested(s) && D.Tree(s) && s.root == root && D.Nested(p) && D.Tree(p) && p.root == patch && s.nodes !! p.nodes
    requires LinkedPatch.PathOf(JsonOf(D.View(p)), "op") != Some("test")
    requires Patch.ApplyPatch(JsonOf(D.View(s)), JsonOf(D.View(p))).Applied?
    modifies s.nodes`child, s.nodes`next, s.nodes`prev, s.nodes`name
    ensures D.Nested(r) && D.Tree(r) && r.root == root && fresh(r.nodes - s.nodes)
    ensures Patch.ApplyPatch(old(JsonOf(D.View(s))), old(JsonOf(D.View(p)))) == Applied(code, JsonOf(D.View(r)))
  {
    hide *;
    ViewIs(s);
    ViewIs(p);
    ghost var doc, v := JsonOf(D.View(s)), JsonOf(D.View(p));
    PatchRuns(doc, v);
    var op, path;
    ghost var k, l;
    op, k := GetObjectItem(patch, "op", p);
    path, l := GetObjectItem(patch, "path", p);
    if op == null || path == null { return 2, s; }
    var name, target := op.scalar.valuestring, path.scalar.valuestring;
    ghost var at := JsonOf(D.View(l));
    if name == "add" {
      code, r := AddValue(root, target, patch, at, s, p);
    } else if name == "remove" {
      r := Remove(root, target, at, s);
      code := 0;
    } else if name == "replace" {
      ReplaceRuns(doc, at, GetItem(v, "value"));
      ghost var rest := Remove(root, target, at, s);
      code, r := AddValue(root, target, patch, at, rest, p);
    } else if name == "move" {
      code, r := Move(root, target, patch, at, s, p);
    } else if name == "copy" {
      code, r := Copy(root, target, patch, at, s, p);
    } else {
      code, r := 3, s;
    }
  }

  // ----- a list of operations

  /** No operation is "test". */
  ghost predicate TestFree(ps: seq<Json>) {
    forall i :: 0 <= i < |ps| ==> LinkedPatch.PathOf(ps[i], "op") != Some("test")
  }

  lemma TestFreeAt(ps: seq<Json>, i: nat)
    requires TestFree(ps) && i < |ps|
    ensures LinkedPatch.PathOf(ps[i], "op") != Some("test")
  {
    hide LinkedPatch.PathOf;
  }

  lemma AllStep(doc: Json, ps: seq<Json>, i: nat)
    requires i < |ps|
    ensures ApplyAll(doc, ps[i..]) == match Patch.ApplyPatch(doc, ps[i])
      case Undefined => Undefined
      case Applied(code, rest) => if code != 0 then Applied(code, rest) else ApplyAll(rest, ps[i + 1..])
  {
    assert ps[i..][0] == ps[i] && ps[i..][1..] == ps[i + 1..];
    hide Patch.ApplyPatch;
  }

  lemma AllEnds(doc: Json, ps: seq<Json>)
    ensures ps[0..] == ps && ApplyAll(doc, ps[|ps|..]) == Applied(0, doc)
  {
  }

  lemma PatchesRun(doc: Json, patches: Json)
    ensures Patch.ApplyPatches(doc, patches) == if patches.Array? then ApplyAll(doc, patches.items) else Applied(1, doc)
  {
    hide ApplyAll;
  }

  /** `cJSONUtils_ApplyPatches` for lists without "test", where the C code follows no null pointer: the document is again a
      tree, of its own and of new nodes, with the value the operations give; the patches stay as they are. */
  method ApplyPatches(root: Node, patches: Node, ghost s: D.Shape, ghost p: D.Shape) returns (code: int, ghost r: D.Shape)
    requires D.Nested(s) && D.Tree(s) && s.root == root && D.Nested(p) && D.Tree(p) && p.root == patches && s.nodes !! p.nodes
    requires JsonOf(D.View(p)).Array? ==> TestFree(JsonOf(D.View(p)).items)
    requires Patch.ApplyPatches(JsonOf(D.View(s)), JsonOf(D.View(p))).Applied?
    modifies s.nodes`child, s.nodes`next, s.nodes`prev, s.nodes`name
    ensures D.Nested(r) && D.Tree(r) && r.root == root && fresh(r.nodes - s.nodes)
    ensures D.Tree(p) && D.View(p) == old(D.View(p))
    ensures Patch.ApplyPatches(old(JsonOf(D.View(s))), JsonOf(D.View(p))) == Applied(code, JsonOf(D.View(r)))
  {
    hide *;
    ViewIs(s);
    ViewIs(p);
    KindIs(D.View(p));
    ghost var doc, v := JsonOf(D.View(s)), JsonOf(D.View(p));
    PatchesRun(doc, v);
    code, r := 0, s;
    if patches.scalar.kind != TYPE_ARRAY { return 1, s; }
    ghost var i: nat := 0;
    ViewsCount(p);
    AllEnds(doc, v.items);
    TreeFacts(p);
    var patch := patches.child;
    while patch != null
      invariant i <= |p.kids| && patch == D.RootAt(p.kids, i)
      invariant D.Nested(r) && D.Tree(r) && r.root == root && fresh(r.nodes - s.nodes) && r.nodes !! p.nodes
      invariant D.Nested(p) && D.Tree(p) && D.View(p) == old(D.View(p))
      invariant ApplyAll(JsonOf(D.View(r)), v.items[i..]) == ApplyAll(doc, v.items)
      decreases |p.kids| - i
    {
      RootAtIs(p.kids, i);
      KidTree(p, i);
      KidNested(p, i);
      TestFreeAt(v.items, i);
      AllStep(JsonOf(D.View(r)), v.items, i);
      code, r := ApplyPatch(root, patch, r, p.kids[i]);
      if code != 0 { return; }
      TreeFacts(p);
      NextIs(p.kids, i);
      patch := patch.next;
      i := i + 1;
    }
    RootAtIs(p.kids, i);
    AllEnds(JsonOf(D.View(r)), v.items);
  }

  lemma NextIs(ks: seq<D.Shape>, i: nat)
    requires i < |ks| && D.LinkedAt(ks, i)
    ensures ks[i].root.next == D.RootAt(ks, i + 1)
  {
  }

  /** `cJSONUtils_AtomicApplyPatches` as the header writes it, for the same lists: the patched copy if all
      operations succeed, and else the document as it was. */
  method AtomicApplyPatches(original: Node, patches: Node, ghost s: D.Shape, ghost p: D.Shape) returns (code: int,
      doc: Node, ghost r: D.Shape)
    requires D.Nested(s) && D.Tree(s) && s.root == original && D.Nested(p) && D.Tree(p) && p.root == patches
    requires JsonOf(D.View(p)).Array? ==> TestFree(JsonOf(D.View(p)).items)
    requires Patch.ApplyPatches(JsonOf(D.View(s)), JsonOf(D.View(p))).Applied?
    ensures D.Nested(r) && D.Tree(r) && r.root == doc
    ensures code == 0 ==> fresh(r.nodes) && Patch.ApplyPatches(JsonOf(D.View(s)), JsonOf(D.View(p))) == Applied(0, JsonOf(D.View(r)))
    ensures code != 0 ==> r == s && Patch.ApplyPatches(JsonOf(D.View(s)), JsonOf(D.View(p))).code == code
  {
    hide *;
    ViewIs(s);
    ViewIs(p);
    ghost var t;
    doc, t := D.Duplicate(original, true, s);
    code, r := ApplyPatches(doc, patches, t, p);
    if code != 0 { doc, r := original, s; }
  }
}
