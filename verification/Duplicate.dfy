/** `cJSON_Duplicate` on the heap: a copy of a whole tree out of new nodes. */
module Duplicates {
  import opened ChildList

  /** A node with its children, and the nodes of all of it. */
  datatype Shape = Shape(root: Node, kids: seq<Shape>, nodes: set<Node>)

  /** The value a tree stands for. */
  datatype Value = Value(name: string, scalar: Scalar, kids: seq<Value>)

  ghost function Inner(s: Shape): set<Node> {
    s.nodes - {s.root}
  }

  /** The nodes of a child lie inside its parent's, and no node belongs to two children. */
  ghost predicate Nested(s: Shape)
    decreases s, 1
  {
    s.root in s.nodes && NestedIn(s.kids, Inner(s))
  }

  ghost predicate NestedIn(ks: seq<Shape>, inner: set<Node>)
    decreases ks, 0
  {
    && (forall k | k in ks :: Nested(k) && k.root in inner && k.nodes <= inner)
    && (forall i, j :: 0 <= i < j < |ks| ==> ks[i].nodes !! ks[j].nodes)
  }

  ghost function RootAt(ks: seq<Shape>, i: nat): Node? {
    if i < |ks| then ks[i].root else null
  }

  ghost function LastRoot(ks: seq<Shape>): Node? {
    if ks == [] then null else ks[|ks| - 1].root
  }

  /** The roots are linked to each other in both directions. */
  ghost predicate LinkedAt(ks: seq<Shape>, i: nat)
    requires i < |ks|
    reads ks[i].root`next, ks[i].root`prev
  {
    ks[i].root.next == RootAt(ks, i + 1) && ks[i].root.prev == if i == 0 then null else ks[i - 1].root
  }

  /** The heap holds a tree of this shape. The links of the root itself belong to its own list. */
  ghost predicate Tree(s: Shape)
    requires Nested(s)
    reads s.root`child, Inner(s)
    decreases s, 1
  {
    s.root.child == RootAt(s.kids, 0) && Kids(s.kids, Inner(s))
  }

  ghost predicate Kids(ks: seq<Shape>, inner: set<Node>)
    requires NestedIn(ks, inner)
    reads inner
    decreases ks, 0
  {
    (forall i :: 0 <= i < |ks| ==> ks[i] in ks && LinkedAt(ks, i)) && (forall k | k in ks :: Tree(k))
  }

  ghost function View(s: Shape): Value
    requires Nested(s)
    reads s.nodes`name, s.nodes`scalar
    decreases s, 1
  {
    Value(s.root.name, s.root.scalar, Views(s.kids, Inner(s)))
  }

  ghost function Views(ks: seq<Shape>, inner: set<Node>): (vs: seq<Value>)
    requires NestedIn(ks, inner)
    reads inner`name, inner`scalar
    ensures |vs| == |ks|
    decreases ks, 0
  {
    if ks == [] then [] else [View(ks[0])] + Views(ks[1..], inner)
  }

  lemma NestedMore(ks: seq<Shape>, inner: set<Node>, c: Shape)
    requires NestedIn(ks, inner) && Nested(c) && c.nodes !! inner
    ensures NestedIn(ks + [c], inner + c.nodes)
  {
    assert c.root in c.nodes;
    hide Nested;
    var all := ks + [c];
    forall i, j | 0 <= i < j < |all| ensures all[i].nodes !! all[j].nodes {
      assert all[i] in ks;
      if j < |ks| { assert all[i] == ks[i] && all[j] == ks[j]; }
    }
  }

  /** A list of trees does not depend on nodes outside of it. */
  lemma {:induction false} ViewsWider(ks: seq<Shape>, inner: set<Node>, wider: set<Node>)
    requires NestedIn(ks, inner) && NestedIn(ks, wider)
    ensures Views(ks, inner) == Views(ks, wider)
  {
    if ks != [] { ViewsWider(ks[1..], inner, wider); }
  }

  lemma NestedLess(ks: seq<Shape>, inner: set<Node>, c: Shape)
    requires NestedIn(ks + [c], inner)
    ensures NestedIn(ks, inner) && Nested(c)
    ensures ks != [] ==> NestedIn(ks[1..], inner) && NestedIn(ks[1..] + [c], inner)
  {
    var all := ks + [c];
    assert all[|ks|] == c;
    assert forall i :: 0 <= i < |ks| ==> all[i] == ks[i];
    assert forall k :: k in ks ==> k in all;
    if ks != [] { assert all[1..] == ks[1..] + [c]; }
  }

  lemma {:induction false} ViewsMore(ks: seq<Shape>, inner: set<Node>, c: Shape)
    requires NestedIn(ks + [c], inner)
    ensures NestedIn(ks, inner) && Nested(c) && Views(ks + [c], inner) == Views(ks, inner) + [View(c)]
  {
    NestedLess(ks, inner, c);
    hide NestedIn, Nested, View;
    if ks == [] {
      assert ks + [c] == [c];
    } else {
      assert (ks + [c])[1..] == ks[1..] + [c];
      ViewsMore(ks[1..], inner, c);
    }
  }

  lemma {:induction false} ViewsAt(ks: seq<Shape>, inner: set<Node>, i: nat)
    requires NestedIn(ks, inner) && i < |ks|
    ensures Views(ks, inner)[i] == View(ks[i])
  {
    if i > 0 { ViewsAt(ks[1..], inner, i - 1); }
  }

  /** What the wiring must not touch: the insides of the trees, and the other roots. */
  lemma LastOutside(ks: seq<Shape>, inner: set<Node>, c: Shape)
    requires NestedIn(ks, inner) && ks != [] && Nested(c) && c.nodes !! inner
    ensures c.root !in Inner(c) && LastRoot(ks) !in Inner(c) && LastRoot(ks) != c.root
    ensures forall k :: k in ks ==> Nested(k) && LastRoot(ks) !in Inner(k) && c.root !in Inner(k) && k.root != c.root
    ensures forall i :: 0 <= i < |ks| - 1 ==> ks[i].root != LastRoot(ks)
    ensures forall i :: 0 <= i < |ks| ==> ks[i].root != c.root
  {
    var last := ks[|ks| - 1];
    assert last in ks;
    assert last.root in last.nodes && c.root in c.nodes;
    forall i | 0 <= i < |ks| ensures LastRoot(ks) !in Inner(ks[i]) && (i < |ks| - 1 ==> ks[i].root != LastRoot(ks)) {
      assert ks[i] in ks;
    }
  }

  /** The two link fields. */
  method Wire(nptr: Node, newchild: Node, ghost done: seq<Shape>, ghost c: Shape)
    requires done != [] && nptr == LastRoot(done) && c.root == newchild && newchild.next == null
    requires forall i :: 0 <= i < |done| ==> LinkedAt(done, i)
    requires forall i :: 0 <= i < |done| - 1 ==> done[i].root != nptr
    requires forall i :: 0 <= i < |done| ==> done[i].root != newchild
    modifies nptr`next, newchild`prev
    ensures forall i :: 0 <= i <= |done| ==> LinkedAt(done + [c], i)
  {
    ghost var all, n := done + [c], |done|;
    assert all[n] == c && forall i :: 0 <= i < n ==> all[i] == done[i];
    nptr.next := newchild;
    newchild.prev := nptr;
    forall i | 0 <= i < n - 1 ensures LinkedAt(all, i) {
      assert old(LinkedAt(done, i));
    }
    assert LinkedAt(all, n - 1) by { assert old(LinkedAt(done, n - 1)); }
    assert LinkedAt(all, n);
  }

  /** A copied child is wired behind the last one. */
  method LinkBehind(nptr: Node, newchild: Node, ghost done: seq<Shape>, ghost inner: set<Node>, ghost c: Shape)
    requires NestedIn(done, inner) && Kids(done, inner) && done != [] && nptr == LastRoot(done)
    requires Nested(c) && Tree(c) && c.root == newchild && newchild.next == null && newchild.prev == null
    requires c.nodes !! inner
    modifies nptr`next, newchild`prev
    ensures NestedIn(done + [c], inner + c.nodes) && Kids(done + [c], inner + c.nodes)
  {
    hide Tree, Nested, NestedIn, Kids, LinkedAt, LastRoot, RootAt;
    NestedMore(done, inner, c);
    LastOutside(done, inner, c);
    KidsAre(done, inner);
    Wire(nptr, newchild, done, c);
    forall k | k in done ensures Tree(k) {
      assert old(Tree(k)) && LastRoot(done) !in Inner(k) && newchild !in Inner(k);
    }
    assert Tree(c) by { assert old(Tree(c)) && LastRoot(done) !in Inner(c) && newchild !in Inner(c); }
    KidsBy(done + [c], inner + c.nodes);
  }

  lemma KidsAre(ks: seq<Shape>, inner: set<Node>)
    requires NestedIn(ks, inner) && Kids(ks, inner)
    ensures forall i :: 0 <= i < |ks| ==> LinkedAt(ks, i)
    ensures forall k :: k in ks ==> Nested(k) && Tree(k)
  {
    hide Tree, Nested, LinkedAt;
  }

  lemma KidsBy(ks: seq<Shape>, inner: set<Node>)
    requires NestedIn(ks, inner)
    requires forall i :: 0 <= i < |ks| ==> LinkedAt(ks, i)
    requires forall k :: k in ks ==> Tree(k)
    ensures Kids(ks, inner)
  {
    hide Tree, LinkedAt;
  }

  lemma NoKids()
    ensures NestedIn([], {}) && Kids([], {}) && Views([], {}) == []
  {
  }

  lemma KidAt(ks: seq<Shape>, inner: set<Node>, i: nat)
    requires NestedIn(ks, inner) && Kids(ks, inner) && i < |ks|
    ensures Nested(ks[i]) && Tree(ks[i]) && ks[i].root.next == RootAt(ks, i + 1)
  {
    assert LinkedAt(ks, i) && ks[i] in ks;
  }

  lemma LastInside(ks: seq<Shape>, inner: set<Node>)
    requires NestedIn(ks, inner) && ks != []
    ensures LastRoot(ks) in inner
  {
    assert ks[|ks| - 1] in ks;
  }

  lemma ViewsWithNew(ks: seq<Shape>, inner: set<Node>, c: Shape)
    requires NestedIn(ks, inner) && Nested(c) && c.nodes !! inner
    ensures NestedIn(ks + [c], inner + c.nodes)
    ensures Views(ks + [c], inner + c.nodes) == Views(ks, inner) + [View(c)]
  {
    hide Views, Nested, NestedIn;
    NestedMore(ks, inner, c);
    ViewsMore(ks, inner + c.nodes, c);
    ViewsWider(ks, inner, inner + c.nodes);
  }

  /** A copied child is added to the list of copies. */
  method Attach(newitem: Node, nptr: Node?, newchild: Node, ghost done: seq<Shape>, ghost copies: set<Node>, ghost c: Shape)
    requires NestedIn(done, copies) && Kids(done, copies) && nptr == LastRoot(done) && newitem.child == RootAt(done, 0)
    requires Nested(c) && Tree(c) && c.root == newchild && newchild.next == null && newchild.prev == null
    requires c.nodes !! copies && newitem !in copies && newitem !in c.nodes
    modifies newitem`child, copies`next, newchild`prev
    ensures NestedIn(done + [c], copies + c.nodes) && Kids(done + [c], copies + c.nodes)
    ensures newitem.child == RootAt(done + [c], 0)
  {
    hide *;
    if nptr != null {
      NotEmpty(done, nptr);
      LastInside(done, copies);
      LinkBehind(nptr, newchild, done, copies, c);
      FirstStays(done, c);
    } else {
      IsEmpty(done);
      AttachFirst(newitem, newchild, copies, c);
    }
  }

  lemma NotEmpty(ks: seq<Shape>, nptr: Node)
    requires nptr == LastRoot(ks)
    ensures ks != []
  {
  }

  lemma IsEmpty(ks: seq<Shape>)
    requires LastRoot(ks) == null
    ensures ks == [] && forall c :: ks + [c] == [c]
  {
  }

  lemma FirstStays(ks: seq<Shape>, c: Shape)
    requires ks != []
    ensures RootAt(ks + [c], 0) == RootAt(ks, 0)
  {
  }

  /** The first copied child. */
  method AttachFirst(newitem: Node, newchild: Node, ghost copies: set<Node>, ghost c: Shape)
    requires NestedIn([], copies) && Nested(c) && Tree(c) && c.root == newchild && newchild.next == null && newchild.prev == null
    requires newitem !in c.nodes && c.nodes !! copies
    modifies newitem`child
    ensures NestedIn([c], copies + c.nodes) && Kids([c], copies + c.nodes) && newitem.child == RootAt([c], 0)
  {
    hide Nested, NestedIn, Kids, Tree, LinkedAt;
    FirstNested(newitem, copies, c);
    newitem.child := newchild;
    assert Tree(c) by { assert old(Tree(c)); }
    FirstLinked(c);
    KidsBy([c], copies + c.nodes);
  }

  lemma FirstNested(newitem: Node, copies: set<Node>, c: Shape)
    requires NestedIn([], copies) && Nested(c) && newitem !in c.nodes && c.nodes !! copies
    ensures NestedIn([c], copies + c.nodes) && newitem !in Inner(c) && newitem != c.root && c.root in c.nodes
  {
    RootInside(c);
    hide Nested, NestedIn;
    NestedMore([], copies, c);
    assert [] + [c] == [c];
  }

  lemma FirstLinked(c: Shape)
    requires c.root.next == null && c.root.prev == null
    ensures forall i :: 0 <= i < 1 ==> LinkedAt([c], i)
    ensures RootAt([c], 0) == c.root
  {
  }

  /** The first children are copied and linked, with the values of the originals. */
  ghost predicate Copied(newitem: Node, nptr: Node?, done: seq<Shape>, copies: set<Node>, vs: seq<Value>)
    reads newitem`child, copies
  {
    && NestedIn(done, copies) && Kids(done, copies) && newitem !in copies
    && newitem.child == RootAt(done, 0) && nptr == LastRoot(done)
    && |done| <= |vs| && Views(done, copies) == vs[..|done|]
  }

  lemma CopiedMore(done: seq<Shape>, copies: set<Node>, c: Shape, vs: seq<Value>)
    requires NestedIn(done, copies) && |done| < |vs| && Views(done, copies) == vs[..|done|]
    requires Nested(c) && c.nodes !! copies && View(c) == vs[|done|]
    ensures NestedIn(done + [c], copies + c.nodes) && Views(done + [c], copies + c.nodes) == vs[..|done| + 1]
  {
    hide Views, View, NestedIn, Nested;
    ViewsWithNew(done, copies, c);
    assert vs[..|done| + 1] == vs[..|done|] + [vs[|done|]];
  }

  /** A copy is added to the copies. */
  method AttachCopy(newitem: Node, nptr: Node?, newchild: Node, ghost done: seq<Shape>, ghost copies: set<Node>, ghost c: Shape,
                    ghost vs: seq<Value>)
    requires Copied(newitem, nptr, done, copies, vs) && |done| < |vs|
    requires Nested(c) && Tree(c) && c.root == newchild && newchild.next == null && newchild.prev == null
    requires c.nodes !! copies && newitem !in c.nodes && View(c) == vs[|done|]
    modifies newitem`child, copies`next, newchild`prev
    ensures Copied(newitem, newchild, done + [c], copies + c.nodes, vs)
  {
    hide *;
    CopiedParts(newitem, nptr, done, copies, vs);
    CopiedMore(done, copies, c, vs);
    Attach(newitem, nptr, newchild, done, copies, c);
    CopiedBy(newitem, newchild, done, copies, c, vs);
  }

  lemma CopiedParts(newitem: Node, nptr: Node?, done: seq<Shape>, copies: set<Node>, vs: seq<Value>)
    requires Copied(newitem, nptr, done, copies, vs)
    ensures NestedIn(done, copies) && Kids(done, copies) && newitem !in copies
    ensures newitem.child == RootAt(done, 0) && nptr == LastRoot(done)
    ensures |done| <= |vs| && Views(done, copies) == vs[..|done|]
  {
    hide Views, NestedIn, Kids, LastRoot, RootAt;
  }

  lemma CopiedBy(newitem: Node, newchild: Node, done: seq<Shape>, copies: set<Node>, c: Shape, vs: seq<Value>)
    requires var all, wider := done + [c], copies + c.nodes;
      && NestedIn(all, wider) && Kids(all, wider) && newitem !in wider
      && newitem.child == RootAt(all, 0) && newchild == c.root
      && |done| < |vs| && Views(all, wider) == vs[..|done| + 1]
    ensures Copied(newitem, newchild, done + [c], copies + c.nodes, vs)
  {
    hide Views, NestedIn, Kids, RootAt;
    assert (done + [c])[|done|] == c;
  }

  lemma RootInside(c: Shape)
    requires Nested(c)
    ensures c.root in c.nodes
  {
  }

  /** The next child is copied. */
  method CopyChild(newitem: Node, nptr: Node?, cptr: Node, ghost s: Shape, ghost done: seq<Shape>, ghost copies: set<Node>,
                   ghost vs: seq<Value>) returns (newchild: Node, ghost c: Shape)
    requires Copied(newitem, nptr, done, copies, vs)
    requires Nested(s) && Tree(s) && s.root == cptr && |done| < |vs| && View(s) == vs[|done|]
    modifies newitem`child, copies`next
    ensures fresh(c.nodes) && c.root == newchild
    ensures Copied(newitem, newchild, done + [c], copies + c.nodes, vs)
    decreases s, 1
  {
    hide *;
    newchild, c := Duplicate(cptr, true, s);
    RootInside(c);
    AttachCopy(newitem, nptr, newchild, done, copies, c, vs);
  }

  lemma CopiedNone(newitem: Node, vs: seq<Value>)
    requires newitem.child == null
    ensures Copied(newitem, null, [], {}, vs)
  {
    NoKids();
    hide Kids, Views, NestedIn;
    assert vs[..0] == [];
  }

  /** The walk along the children. */
  method CopyChildren(newitem: Node, first: Node?, ghost kids: seq<Shape>, ghost inner: set<Node>)
    returns (ghost nptr: Node?, ghost done: seq<Shape>, ghost copies: set<Node>)
    requires NestedIn(kids, inner) && Kids(kids, inner) && first == RootAt(kids, 0)
    requires newitem !in inner && newitem.child == null
    modifies newitem`child
    ensures fresh(copies) && |done| == |kids| && Copied(newitem, nptr, done, copies, Views(kids, inner))
    decreases kids, 1
  {
    var cptr, last: Node? := first, null;
    done, copies := [], {};
    hide Kids, Views, NestedIn, Copied, Nested, Tree, View;
    CopiedNone(newitem, Views(kids, inner));
    while cptr != null
      invariant Kids(kids, inner) && |done| <= |kids| && cptr == RootAt(kids, |done|)
      invariant fresh(copies) && Copied(newitem, last, done, copies, Views(kids, inner))
      decreases |kids| - |done|
    {
      KidAt(kids, inner, |done|);
      ViewsAt(kids, inner, |done|);
      ghost var c;
      last, c := CopyChild(newitem, last, cptr, kids[|done|], done, copies, Views(kids, inner));
      done, copies := done + [c], copies + c.nodes;
      cptr := cptr.next;
    }
    nptr := last;
  }

  /** `cJSON_Duplicate`: every node of the copy is new, the copy is a tree and has the value of the
      original, which stays as it is. */
  method Duplicate(item: Node, recurse: bool, ghost s: Shape) returns (newitem: Node, ghost t: Shape)
    requires Nested(s) && Tree(s) && s.root == item
    ensures Nested(t) && Tree(t) && t.root == newitem && fresh(t.nodes)
    ensures newitem.next == null && newitem.prev == null
    ensures if recurse then View(t) == View(s) else t.kids == [] && newitem.name == item.name && newitem.scalar == item.scalar
    decreases s, 0
  {
    hide *;
    TreeParts(s);
    newitem := new Node(item.name, item.scalar);
    t := Shape(newitem, [], {newitem});
    if !recurse {
      Leaf(t);
      return;
    }
    ghost var nptr, done, copies;
    ghost var inner := Inner(s);
    nptr, done, copies := CopyChildren(newitem, item.child, s.kids, inner);
    CopiedAll(newitem, nptr, done, copies, Views(s.kids, inner));
    t := Shape(newitem, done, {newitem} + copies);
  }

  lemma TreeParts(s: Shape)
    requires Nested(s) && Tree(s)
    ensures NestedIn(s.kids, Inner(s)) && Kids(s.kids, Inner(s)) && s.root.child == RootAt(s.kids, 0)
    ensures Inner(s) <= s.nodes && View(s) == Value(s.root.name, s.root.scalar, Views(s.kids, Inner(s)))
  {
    hide NestedIn, Kids, Views;
  }

  lemma Leaf(t: Shape)
    requires t.kids == [] && t.nodes == {t.root} && t.root.child == null
    ensures Nested(t) && Tree(t)
  {
  }

  lemma CopiedAll(newitem: Node, nptr: Node?, done: seq<Shape>, copies: set<Node>, vs: seq<Value>)
    requires Copied(newitem, nptr, done, copies, vs) && |done| == |vs|
    ensures var t := Shape(newitem, done, {newitem} + copies);
      Nested(t) && Tree(t) && View(t) == Value(newitem.name, newitem.scalar, vs)
  {
    var t := Shape(newitem, done, {newitem} + copies);
    assert Inner(t) == copies;
    assert vs[..|vs|] == vs;
  }
}
