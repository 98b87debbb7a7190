/** The chain of children below an array or object: nodes linked by `next` and `prev`, and
    the edits of `cJSON.c` on it. */
module ChildList {
  import opened Json
  import opened Sorting

  /** What a node carries besides its name and its links. */
  datatype Scalar = Scalar(kind: nat, valueint: int, valuestring: string)

  class Node {
    var next: Node?
    var prev: Node?
    var child: Node?
    var name: string
    var scalar: Scalar

    constructor (name: string, scalar: Scalar)
      ensures next == null && prev == null && child == null && this.name == name && this.scalar == scalar
    {
      next, prev, child := null, null, null;
      this.name, this.scalar := name, scalar;
    }
  }

  ghost predicate Distinct(xs: seq<Node>) {
    forall i, j :: 0 <= i < j < |xs| ==> xs[i] != xs[j]
  }

  /** Node `i` points to the one after it, and back to the one before it if there is one. */
  ghost predicate LinkedAt(xs: seq<Node>, i: nat)
    requires i < |xs|
    reads xs
  {
    && xs[i].next == (if i + 1 == |xs| then null else xs[i + 1])
    && (i > 0 ==> xs[i].prev == xs[i - 1])
  }

  ghost function HeadOf(xs: seq<Node>): Node? {
    if xs == [] then null else xs[0]
  }

  /** A chain whose first node may still hold an old back link. */
  ghost predicate Loose(first: Node?, xs: seq<Node>)
    reads xs
  {
    first == HeadOf(xs) && Distinct(xs) && forall i :: 0 <= i < |xs| ==> LinkedAt(xs, i)
  }

  /** `xs` are the children of `owner`, and the first one has no back link. */
  ghost predicate Chain(owner: Node, xs: seq<Node>)
    reads owner, xs
  {
    Loose(owner.child, xs) && owner !in xs && (xs != [] ==> xs[0].prev == null)
  }

  /** The same, except that the first node may hold a back link to a later one: what the
      sort of a member list can leave behind. */
  ghost predicate Children(owner: Node, xs: seq<Node>)
    reads owner, xs
  {
    && Loose(owner.child, xs) && owner !in xs
    && (xs != [] && xs[0].prev != null ==> xs[0].prev in xs && xs[0].prev != xs[0])
  }

  /** The loop that steps to an index; null behind the end. */
  method Seek(owner: Node, which: int, ghost xs: seq<Node>) returns (c: Node?)
    requires Loose(owner.child, xs)
    ensures c == if Clamp(which) < |xs| then xs[Clamp(which)] else null
  {
    c := owner.child;
    var w := which;
    ghost var k: nat := 0;
    while c != null && w > 0
      invariant k <= |xs| && c == (if k < |xs| then xs[k] else null)
      invariant Clamp(which) == k + Clamp(w)
      decreases |xs| - k
    {
      assert LinkedAt(xs, k);
      c := c.next;
      w := w - 1;
      k := k + 1;
    }
  }

  /** The first node still points back to another one. */
  ghost predicate OldLinked(xs: seq<Node>)
    reads xs
  {
    xs != [] && xs[0].prev != null
  }

  /** Appending walks forward only, so an old link in front does no harm and stays. */
  method AddItemToArray(owner: Node, item: Node, ghost xs: seq<Node>)
    requires Loose(owner.child, xs) && owner !in xs && item !in xs && item != owner
    requires item.next == null && item.prev == null
    modifies owner`child, Nodes(xs)`next, item`prev
    ensures Loose(owner.child, xs + [item]) && owner !in xs + [item]
    ensures OldLinked(xs + [item]) <==> old(OldLinked(xs))
    ensures old(Chain(owner, xs)) ==> Chain(owner, xs + [item])
  {
    ghost var ys := xs + [item];
    var c := owner.child;
    if c == null {
      owner.child := item;
      assert LinkedAt(ys, 0);
    } else {
      ghost var k: nat := 0;
      while c.next != null
        invariant k < |xs| && c == xs[k]
        decreases |xs| - k
      {
        assert LinkedAt(xs, k);
        c := c.next;
        k := k + 1;
      }
      assert LinkedAt(xs, k);
      Append(c, item, xs);
    }
  }

  /** The links to an appended node. */
  method Append(c: Node, item: Node, ghost xs: seq<Node>)
    requires xs != [] && Loose(xs[0], xs) && c == xs[|xs| - 1] && item !in xs && item.next == null
    modifies c`next, item`prev
    ensures Loose(xs[0], xs + [item])
  {
    ghost var ys := xs + [item];
    DistinctAppend(xs, [item]);
    c.next := item;
    item.prev := c;
    forall i | 0 <= i < |ys|
      ensures LinkedAt(ys, i)
    {
      if i < |xs| {
        assert old(LinkedAt(xs, i)) && xs[i] in xs;
        assert i < |xs| - 1 ==> xs[i] != c;
      }
    }
  }

  /** What the first node points back to. */
  ghost function OldLink(xs: seq<Node>): set<Node>
    reads xs
  {
    if xs != [] && xs[0].prev != null then {xs[0].prev} else {}
  }

  ghost function Opt(x: Node?): set<Node> {
    if x == null then {} else {x}
  }

  /** The pointer writes of a detachment. */
  method Unlink(owner: Node, c: Node)
    requires c.prev != c && c.next != c
    modifies owner`child, c`next, c`prev, Opt(c.prev)`next, Opt(c.next)`prev
    ensures c.next == null && c.prev == null
    ensures old(c.prev) != null ==> old(c.prev).next == old(c.next)
    ensures old(c.next) != null ==> old(c.next).prev == old(c.prev)
    ensures owner.child == if c == old(owner.child) then old(c.next) else old(owner.child)
  {
    if c.prev != null { c.prev.next := c.next; }
    if c.next != null { c.next.prev := c.prev; }
    if c == owner.child { owner.child := c.next; }
    c.prev := null;
    c.next := null;
  }

  /** Detaching trusts the back link. The nodes left are again a chain exactly if the node is not
      the first, or the first points back to nothing or to a node that is on the chain no more; and
      whatever it points back to gets its `next` field overwritten. */
  method DetachItemFromArray(owner: Node, which: int, ghost xs: seq<Node>) returns (c: Node?)
    requires Loose(owner.child, xs) && owner !in xs
    requires xs != [] ==> xs[0].prev != xs[0]
    modifies owner`child, Nodes(xs)`next, Nodes(xs)`prev, OldLink(xs)`next
    ensures c == if Clamp(which) < |xs| then xs[Clamp(which)] else null
    ensures c != null ==> c.next == null && c.prev == null
    ensures c == null ==> owner.child == old(owner.child) && forall x :: x in xs ==> x.next == old(x.next) && x.prev == old(x.prev)
    ensures c != null && old(Chain(owner, xs)) ==> Chain(owner, Without(xs, Clamp(which)))
    ensures c == null && old(Chain(owner, xs)) ==> Chain(owner, xs)
    ensures c != null ==>
      (Loose(owner.child, Without(xs, Clamp(which))) <==> Clamp(which) > 0 || old(c.prev) == null || old(c.prev) !in xs)
    ensures c != null && old(c.prev) != null ==> old(c.prev).next == old(c.next)
    ensures c != null && (0 < Clamp(which) || !old(OldLinked(xs))) ==>
              (OldLinked(Without(xs, Clamp(which))) <==> old(OldLinked(xs)))
  {
    c := Seek(owner, which, xs);
    if c == null {
      forall i | 0 <= i < |xs| ensures LinkedAt(xs, i) { assert old(LinkedAt(xs, i)); }
      return;
    }
    ghost var k := Clamp(which);
    DetachAt(owner, c, xs, k);
  }

  /** What is left once node `k` has been unlinked. */
  twostate lemma Unlinked(new first: Node?, xs: seq<Node>, new k: nat)
    requires k < |xs| && old(Loose(HeadOf(xs), xs)) && old(xs[k].prev) != xs[k]
    requires first == if k == 0 then old(xs[0].next) else xs[0]
    requires forall x :: x in xs && x != xs[k] && x != old(xs[k].prev) ==> x.next == old(x.next)
    requires forall x :: x in xs && x != xs[k] && x != old(xs[k].next) ==> x.prev == old(x.prev)
    requires old(xs[k].next) != null ==> old(xs[k].next).prev == old(xs[k].prev)
    requires old(xs[k].prev) != null ==> old(xs[k].prev).next == old(xs[k].next)
    ensures Loose(first, Without(xs, k)) <==> k > 0 || old(xs[k].prev) == null || old(xs[k].prev) !in xs
    ensures k + 1 < |xs| && k == 0 ==> Without(xs, k)[0].prev == old(xs[0].prev)
    ensures k > 0 ==> Without(xs, k)[0].prev == old(xs[0].prev)
  {
    var ys := Without(xs, k);
    WithoutIndex(xs, k);
    WithoutDistinct(xs, k);
    assert old(LinkedAt(xs, k));
    if k + 1 < |xs| { assert old(LinkedAt(xs, k + 1)) && xs[k + 1] in xs; }
    if k > 0 { assert old(LinkedAt(xs, k - 1)) && xs[k - 1] in xs; DistinctFrom(xs, 0, k); }
    hide Distinct, Without;
    if k > 0 || old(xs[k].prev) == null || old(xs[k].prev) !in xs {
      forall i | 0 <= i < |ys|
        ensures LinkedAt(ys, i)
      {
        var j := if i < k then i else i + 1;
        assert old(LinkedAt(xs, j)) && xs[j] in xs;
        DistinctFrom(xs, j, k);
      }
    } else {
      var q := IndexOf(xs, old(xs[k].prev));
      assert q > 0 && ys[q - 1].next == if |xs| == 1 then null else xs[1];
      assert !LinkedAt(ys, q - 1) by { DistinctFrom(xs, 1, q + 1); }
    }
  }

  /** The node at index `k` is unlinked. */
  method DetachAt(owner: Node, c: Node, ghost xs: seq<Node>, ghost k: nat)
    requires Loose(owner.child, xs) && owner !in xs && k < |xs| && c == xs[k]
    requires xs[0].prev != xs[0]
    modifies owner`child, Nodes(xs)`next, Nodes(xs)`prev, OldLink(xs)`next
    ensures c.next == null && c.prev == null
    ensures old(Chain(owner, xs)) ==> Chain(owner, Without(xs, k))
    ensures Loose(owner.child, Without(xs, k)) <==> k > 0 || old(c.prev) == null || old(c.prev) !in xs
    ensures old(c.prev) != null ==> old(c.prev).next == old(c.next)
    ensures 0 < k || !old(OldLinked(xs)) ==> (OldLinked(Without(xs, k)) <==> old(OldLinked(xs)))
  {
    assert LinkedAt(xs, k);
    if k + 1 < |xs| { assert LinkedAt(xs, k + 1) && xs[k + 1] in xs; }
    if k > 0 { assert LinkedAt(xs, k - 1) && xs[k - 1] in xs; }
    DistinctFrom(xs, 0, k);
    ChainBy(owner, xs);
    WithoutIndex(xs, k);
    WithoutDistinct(xs, k);
    hide Distinct, Without, Loose, Chain, Children, LinkedAt;
    Unlink(owner, c);
    Unlinked(owner.child, xs, k);
    if Loose(owner.child, Without(xs, k)) { ChainBy(owner, Without(xs, k)); }
  }

  lemma WithoutDistinct(xs: seq<Node>, k: nat)
    requires Distinct(xs) && k < |xs|
    ensures Distinct(Without(xs, k)) && xs[k] !in Without(xs, k)
    ensures forall x :: x in Without(xs, k) ==> x in xs
  {
  }

  /** Node `j` is neither node `k` nor one of its neighbours, unless the indices say so. */
  lemma DistinctFrom(xs: seq<Node>, j: nat, k: nat)
    requires Distinct(xs) && j < |xs|
    ensures k < |xs| && j != k ==> xs[j] != xs[k]
    ensures k + 1 < |xs| && j != k + 1 ==> xs[j] != xs[k + 1]
    ensures 0 < k <= |xs| && j != k - 1 ==> xs[j] != xs[k - 1]
  {
  }

  method InsertItemInArray(owner: Node, which: int, item: Node, ghost xs: seq<Node>)
    requires Chain(owner, xs) && item !in xs && item != owner
    requires item.next == null && item.prev == null
    modifies owner`child, Nodes(xs)`next, Nodes(xs)`prev, item`next, item`prev
    ensures var k := if Clamp(which) < |xs| then Clamp(which) else |xs|;
            Chain(owner, xs[..k] + [item] + xs[k..])
  {
    var c := Seek(owner, which, xs);
    if c == null {
      AddItemToArray(owner, item, xs);
      assert xs[..|xs|] + [item] + xs[|xs|..] == xs + [item];
      return;
    }
    InsertAt(owner, c, item, xs, Clamp(which));
  }

  lemma InsertedIndex(xs: seq<Node>, k: nat, item: Node)
    requires k <= |xs| && Distinct(xs) && item !in xs
    ensures var ys := xs[..k] + [item] + xs[k..];
      && |ys| == |xs| + 1 && Distinct(ys)
      && forall i :: 0 <= i < |ys| ==> ys[i] == if i < k then xs[i] else if i == k then item else xs[i - 1]
  {
  }

  lemma LinkedChain(owner: Node, xs: seq<Node>)
    requires owner.child == HeadOf(xs) && Distinct(xs) && owner !in xs && (xs != [] ==> xs[0].prev == null)
    requires forall i :: 0 <= i < |xs| ==> LinkedAt(xs, i)
    ensures Chain(owner, xs)
  {
  }

  /** The pointer writes of an insertion. */
  method LinkBefore(owner: Node, c: Node, item: Node)
    requires c != item && c.prev != item && (c != owner.child ==> c.prev != null)
    modifies owner`child, c`prev, Opt(c.prev)`next, item`next, item`prev
    ensures item.next == c && item.prev == old(c.prev) && c.prev == item
    ensures owner.child == if c == old(owner.child) then item else old(owner.child)
    ensures if c == old(owner.child) then old(c.prev) == null || old(c.prev).next == old(c.prev.next)
            else old(c.prev).next == item
  {
    item.next := c;
    item.prev := c.prev;
    c.prev := item;
    if c == owner.child {
      owner.child := item;
    } else {
      item.prev.next := item;
    }
  }

  /** In front of the node at index `k`. */
  method InsertAt(owner: Node, c: Node, item: Node, ghost xs: seq<Node>, ghost k: nat)
    requires Chain(owner, xs) && item !in xs && item != owner && k < |xs| && c == xs[k]
    modifies owner`child, Nodes(xs)`next, Nodes(xs)`prev, item`next, item`prev
    ensures Chain(owner, xs[..k] + [item] + xs[k..])
  {
    ghost var ys := xs[..k] + [item] + xs[k..];
    InsertedIndex(xs, k, item);
    assert LinkedAt(xs, k);
    if k > 0 { assert LinkedAt(xs, k - 1) && xs[k - 1] in xs; }
    hide Distinct, Loose, Chain;
    LinkBefore(owner, c, item);
    forall i | 0 <= i < |ys|
      ensures LinkedAt(ys, i)
    {
      if i != k {
        ghost var j := if i < k then i else i - 1;
        assert old(LinkedAt(xs, j)) && xs[j] in xs;
        DistinctFrom(xs, j, k);
      }
    }
    LinkedChain(owner, ys);
  }

  /** The replaced node is deleted; before that its links are cleared. */
  method ReplaceItemInArray(owner: Node, which: int, item: Node, ghost xs: seq<Node>)
    requires Chain(owner, xs) && item !in xs && item != owner
    modifies owner`child, Nodes(xs)`next, Nodes(xs)`prev, item`next, item`prev
    ensures var k := Clamp(which);
            if k < |xs| then Chain(owner, xs[k := item]) && xs[k].next == null && xs[k].prev == null
            else Chain(owner, xs)
  {
    var c := Seek(owner, which, xs);
    if c == null { return; }
    ReplaceAt(owner, c, item, xs, Clamp(which));
  }

  lemma ReplacedDistinct(xs: seq<Node>, k: nat, item: Node)
    requires k < |xs| && Distinct(xs) && item !in xs
    ensures Distinct(xs[k := item])
  {
  }

  /** In place of the node at index `k`. */
  method ReplaceAt(owner: Node, c: Node, item: Node, ghost xs: seq<Node>, ghost k: nat)
    requires Chain(owner, xs) && item !in xs && item != owner && k < |xs| && c == xs[k]
    modifies owner`child, Nodes(xs)`next, Nodes(xs)`prev, item`next, item`prev
    ensures Chain(owner, xs[k := item]) && c.next == null && c.prev == null
  {
    ghost var ys := xs[k := item];
    ReplacedDistinct(xs, k, item);
    assert LinkedAt(xs, k);
    if k + 1 < |xs| { assert LinkedAt(xs, k + 1) && xs[k + 1] in xs; }
    if k > 0 { assert LinkedAt(xs, k - 1) && xs[k - 1] in xs; }
    DistinctFrom(xs, 0, k);
    hide Distinct;
    item.next := c.next;
    item.prev := c.prev;
    if item.next != null { item.next.prev := item; }
    if c == owner.child {
      owner.child := item;
    } else {
      item.prev.next := item;
    }
    c.next := null;
    c.prev := null;
    forall i | 0 <= i < |ys|
      ensures LinkedAt(ys, i)
    {
      assert old(LinkedAt(xs, i)) && xs[i] in xs;
      DistinctFrom(xs, i, k);
    }
  }

  lemma ChainIs(owner: Node, xs: seq<Node>)
    requires Chain(owner, xs)
    ensures Loose(owner.child, xs) && Distinct(xs) && owner !in xs && (xs != [] ==> xs[0].prev == null)
  {
  }

  lemma Restored(xs: seq<Node>, k: nat)
    requires k < |xs|
    ensures var ys := Without(xs, k);
      && |ys| == |xs| - 1 && k <= |ys| && xs == ys[..k] + [xs[k]] + ys[k..]
      && Nodes(ys) <= Nodes(xs) && xs[k] in Nodes(xs) && (k < |xs| ==> xs[k] in xs)
  {
    WithoutIndex(xs, k);
    hide Without;
    var ys := Without(xs, k);
    forall x | x in ys ensures x in xs {
      var i :| 0 <= i < |ys| && ys[i] == x;
      assert xs[if i < k then i else i + 1] == x;
    }
  }

  /** Taking a child out and putting it back at the same index restores the chain. */
  method DetachThenInsert(owner: Node, which: int, ghost xs: seq<Node>)
    requires Chain(owner, xs) && Clamp(which) < |xs|
    modifies owner`child, Nodes(xs)`next, Nodes(xs)`prev
    ensures Chain(owner, xs)
  {
    ghost var k := Clamp(which);
    ghost var ys := Without(xs, k);
    ChainIs(owner, xs);
    Restored(xs, k);
    WithoutDistinct(xs, k);
    assert OldLink(xs) == {};
    hide Chain, Loose, Distinct, Without, LinkedAt, Nodes;
    var c := DetachItemFromArray(owner, which, xs);
    InsertItemInArray(owner, which, c, ys);
  }

  // ----- sorting a chain in place

  /** The chain as the sequence that the sort of sequences works on. */
  ghost function View(xs: seq<Node>): (r: seq<Entry<Node>>)
    reads Nodes(xs)`name
    ensures |r| == |xs|
    ensures forall i :: 0 <= i < |xs| ==> r[i] == Entry(xs[i].name, xs[i])
  {
    if xs == [] then []
    else
      assert forall x :: x in xs[1..] ==> x in xs;
      [Entry(xs[0].name, xs[0])] + View(xs[1..])
  }

  /** The first loop: are all neighbours strictly ordered? */
  method IsSorted(list: Node?, ghost xs: seq<Node>) returns (sorted: bool)
    requires Loose(list, xs)
    ensures sorted <==> AlreadySorted(View(xs))
  {
    var ptr := list;
    ghost var k: nat := 0;
    while ptr != null && ptr.next != null && CaseOrder(ptr.name, ptr.next.name) < 0
      invariant k <= |xs| && ptr == (if k < |xs| then xs[k] else null)
      invariant forall i :: 0 <= i < k && i + 1 < |xs| ==> Before(View(xs)[i], View(xs)[i + 1])
      decreases |xs| - k
    {
      assert LinkedAt(xs, k);
      ptr := ptr.next;
      k := k + 1;
    }
    if ptr != null { assert LinkedAt(xs, k); }
    sorted := ptr == null || ptr.next == null;
    if !sorted { assert !Before(View(xs)[k], View(xs)[k + 1]); }
  }

  /** Two pointers walk at different speeds to the middle. */
  method FindMiddle(list: Node, ghost xs: seq<Node>) returns (second: Node?)
    requires Loose(list, xs) && |xs| >= 2
    ensures second == xs[Middle(|xs|)] && 0 < Middle(|xs|) < |xs|
  {
    var ptr: Node? := list;
    second := list;
    ghost var j: nat := 0;
    while ptr != null
      invariant j <= Middle(|xs|)
      invariant second == xs[j]
      invariant ptr == if 2 * j < |xs| then xs[2 * j] else null
      invariant ptr == null ==> j == Middle(|xs|)
      decreases |xs| - 2 * j
    {
      assert LinkedAt(xs, j) && LinkedAt(xs, 2 * j);
      second := second.next;
      ptr := ptr.next;
      if ptr != null {
        assert LinkedAt(xs, 2 * j + 1);
        ptr := ptr.next;
      }
      j := j + 1;
    }
  }

  /** Cutting the chain in front of `second`. */
  method Split(second: Node, ghost list: Node, ghost xs: seq<Node>, ghost m: nat)
    requires Loose(list, xs) && 0 < m < |xs| && second == xs[m]
    modifies Nodes(xs)`next
    ensures Loose(list, xs[..m]) && Loose(second, xs[m..])
  {
    assert LinkedAt(xs, m);
    assert xs[m - 1] in xs;
    if second.prev != null { second.prev.next := null; }
    ghost var a, b := xs[..m], xs[m..];
    forall i | 0 <= i < |a|
      ensures LinkedAt(a, i)
    {
      assert old(LinkedAt(xs, i));
    }
    forall i | 0 <= i < |b|
      ensures LinkedAt(b, i)
    {
      assert old(LinkedAt(xs, m + i));
    }
  }

  ghost function Nodes(xs: seq<Node>): set<Node> {
    set x | x in xs
  }

  ghost predicate Apart(a: seq<Node>, b: seq<Node>) {
    forall x :: x in a ==> x !in b
  }

  /** The merged part: joined nodes, the last of which still points anywhere. */
  ghost predicate Open(list: Node?, ptr: Node?, done: seq<Node>)
    reads done
  {
    && list == HeadOf(done) && ptr == (if done == [] then null else done[|done| - 1])
    && Distinct(done)
    && forall i :: 0 <= i < |done| - 1 ==> Joined(done[i], done[i + 1])
  }

  ghost predicate Joined(x: Node, y: Node)
    reads x, y
  {
    x.next == y && y.prev == x
  }

  /** One node is taken over into the merged part. */
  method Take(list: Node?, ptr: Node?, x: Node, ghost done: seq<Node>) returns (list': Node, ptr': Node)
    requires Open(list, ptr, done) && x !in done
    modifies Nodes(done)`next, x`prev
    ensures Open(list', ptr', done + [x])
    ensures forall n :: n in done && n != ptr ==> n.next == old(n.next)
    ensures done == [] ==> x.prev == old(x.prev)
  {
    ghost var r := done + [x];
    if list == null {
      list', ptr' := x, x;
    } else {
      list', ptr' := list, x;
      ptr.next := x;
      x.prev := ptr;
    }
    forall i | 0 <= i < |r| - 1
      ensures Joined(r[i], r[i + 1])
    {
      if i < |done| - 1 { assert old(Joined(done[i], done[i + 1])); }
    }
  }

  /** The rest of a chain is appended whole. */
  method TakeAll(list: Node?, ptr: Node?, x: Node, ghost done: seq<Node>, ghost rest: seq<Node>) returns (list': Node)
    requires Open(list, ptr, done) && Loose(x, rest) && Apart(done, rest)
    modifies Nodes(done)`next, x`prev
    ensures Loose(list', done + rest)
    ensures done == [] ==> x.prev == old(x.prev)
  {
    ghost var r := done + rest;
    DistinctAppend(done, rest);
    if list == null { assert r == rest; return x; }
    list' := list;
    ptr.next := x;
    x.prev := ptr;
    forall i | 0 <= i < |r|
      ensures LinkedAt(r, i)
    {
      if i < |done| - 1 { assert old(Joined(done[i], done[i + 1])); }
      if 0 < i <= |done| - 1 { assert old(Joined(done[i - 1], done[i])); }
      if i >= |done| {
        var k := i - |done|;
        assert old(LinkedAt(rest, k));
        assert rest[k] in rest;
        assert k > 0 ==> rest[k] != rest[0];
      } else {
        assert done[i] in done && x in rest;
      }
    }
  }

  lemma DistinctAppend(a: seq<Node>, b: seq<Node>)
    requires Distinct(a) && Distinct(b) && Apart(a, b)
    ensures Distinct(a + b)
  {
    var c := a + b;
    forall i, j | 0 <= i < j < |c|
      ensures c[i] != c[j]
    {
      if i < |a| <= j { assert a[i] in a && b[j - |a|] in b; }
    }
  }

  lemma ViewAppend(a: seq<Node>, b: seq<Node>)
    ensures View(a + b) == View(a) + View(b)
  {
  }

  lemma LooseTail(first: Node?, xs: seq<Node>)
    requires Loose(first, xs) && xs != []
    ensures first == xs[0] && Loose(xs[0].next, xs[1..]) && xs[0] !in xs[1..]
  {
    var t := xs[1..];
    assert LinkedAt(xs, 0);
    forall i | 0 <= i < |t| ensures LinkedAt(t, i) { assert LinkedAt(xs, i + 1); }
    forall i | 0 <= i < |t| ensures t[i] != xs[0] { assert t[i] == xs[i + 1]; }
  }

  /** Invariant of the merging loop: the merged part and the two chains left. */
  ghost predicate Merging(list: Node?, ptr: Node?, done: seq<Node>,
                          first: Node?, a: seq<Node>, second: Node?, b: seq<Node>)
    reads done, a, b
  {
    && Open(list, ptr, done) && Loose(first, a) && Loose(second, b)
    && Apart(done, a) && Apart(done, b) && Apart(a, b)
  }

  lemma MergingSwapped(list: Node?, ptr: Node?, done: seq<Node>,
                       first: Node?, a: seq<Node>, second: Node?, b: seq<Node>)
    requires Merging(list, ptr, done, first, a, second, b)
    ensures Merging(list, ptr, done, second, b, first, a)
  {
  }

  twostate lemma LooseStays(new first: Node?, xs: seq<Node>)
    requires old(Loose(HeadOf(xs), xs)) && first == HeadOf(xs)
    requires forall x :: x in xs ==> x.next == old(x.next) && x.prev == old(x.prev)
    ensures Loose(first, xs)
  {
    forall i | 0 <= i < |xs| ensures LinkedAt(xs, i) { assert old(LinkedAt(xs, i)); }
  }

  twostate lemma ViewStays(xs: seq<Node>)
    requires forall x :: x in xs ==> x.name == old(x.name)
    ensures View(xs) == old(View(xs))
  {
    SameView(View(xs), old(View(xs)));
  }

  lemma OneOver(done: seq<Node>, first: Node, a: seq<Node>, b: seq<Node>)
    requires a != [] && first == a[0] && first !in a[1..] && Apart(done, a) && Apart(done, b) && Apart(a, b)
    ensures Apart(done + [first], a[1..]) && Apart(done + [first], b) && Apart(a[1..], b)
    ensures first !in done && first !in b && first in a
    ensures forall x :: x in a[1..] ==> x !in done && x != first
    ensures forall x :: x in b ==> x !in done && x != first
  {
    assert forall x :: x in a[1..] ==> x in a;
  }

  /** The first node of one chain goes to the merged part. */
  method Advance(list: Node?, ptr: Node?, first: Node, ghost done: seq<Node>, ghost a: seq<Node>,
                 ghost second: Node?, ghost b: seq<Node>)
    returns (list': Node, ptr': Node, first': Node?)
    requires Merging(list, ptr, done, first, a, second, b)
    modifies Nodes(done)`next, first`prev
    ensures Merging(list', ptr', done + [first], first', a[1..], second, b)
    ensures if done == [] then list' == first && first.prev == old(first.prev) else list' == list
    ensures View(done + [first]) == old(View(done + [first])) && View(a[1..]) == old(View(a[1..])) && View(b) == old(View(b))
  {
    LooseTail(first, a);
    SameChain(first, a);
    SameChain(second, b);
    OneOver(done, first, a, b);
    hide Loose, LinkedAt, Open, View, Distinct;
    list', ptr' := Take(list, ptr, first, done);
    first' := first.next;
    LooseStays(first', a[1..]);
    LooseStays(second, b);
    ViewStays(done + [first]);
    ViewStays(a[1..]);
    ViewStays(b);
    hide Apart;
  }

  /** Views with the same nodes and names. */
  lemma SameView(v: seq<Entry<Node>>, w: seq<Entry<Node>>)
    requires |v| == |w| && forall i :: 0 <= i < |v| ==> v[i] == w[i]
    ensures v == w
  {
  }

  lemma NodesMoved(done: seq<Node>, a: seq<Node>, b: seq<Node>)
    requires a != []
    ensures Nodes(done + [a[0]]) + Nodes(a[1..]) + Nodes(b) <= Nodes(done) + Nodes(a) + Nodes(b)
    ensures Nodes(done + [a[0]]) + Nodes(b) + Nodes(a[1..]) <= Nodes(done) + Nodes(b) + Nodes(a)
  {
  }

  /** One turn of the loop: the smaller head is taken, the second one on a tie. */
  method TakeSmaller(list: Node?, ptr: Node?, first: Node, second: Node,
                     ghost done: seq<Node>, ghost a: seq<Node>, ghost b: seq<Node>)
    returns (list': Node, ptr': Node, first': Node?, second': Node?,
             ghost done': seq<Node>, ghost a': seq<Node>, ghost b': seq<Node>)
    requires Merging(list, ptr, done, first, a, second, b)
    modifies Nodes(done)`next, first`prev, second`prev
    ensures Merging(list', ptr', done', first', a', second', b')
    ensures View(done') + Merge(View(a'), View(b')) == old(View(done) + Merge(View(a), View(b)))
    ensures |a'| + |b'| < |a| + |b|
    ensures Nodes(done') + Nodes(a') + Nodes(b') <= Nodes(done) + Nodes(a) + Nodes(b)
    ensures if done == [] then list' in {first, second} && list'.prev == old(list'.prev) else list' == list
    ensures done' != [] && (first' != null || second' != null)
  {
    assert first == a[0] && second == b[0];
    TakeView(done, a, b);
    NodesMoved(done, a, b);
    NodesMoved(done, b, a);
    assert first in a && second in b;
    hide View, Merge, Merging, Open, Loose, CaseOrder, Nodes;
    second', first' := second, first;
    if CaseOrder(first.name, second.name) < 0 {
      done', a', b' := done + [first], a[1..], b;
      list', ptr', first' := Advance(list, ptr, first, done, a, second, b);
    } else {
      done', a', b' := done + [second], a, b[1..];
      MergingSwapped(list, ptr, done, first, a, second, b);
      list', ptr', second' := Advance(list, ptr, second, done, b, first, a);
      MergingSwapped(list', ptr', done', second', b', first', a');
    }
  }

  lemma ViewHead(xs: seq<Node>)
    requires xs != []
    ensures View(xs) != [] && View(xs)[0] == Entry(xs[0].name, xs[0]) && View(xs)[1..] == View(xs[1..])
    ensures View([xs[0]]) == [View(xs)[0]]
  {
  }

  lemma MergeStep<T>(done: seq<Entry<T>>, a: seq<Entry<T>>, b: seq<Entry<T>>)
    requires a != [] && b != []
    ensures done + Merge(a, b) ==
            if Before(a[0], b[0]) then (done + [a[0]]) + Merge(a[1..], b) else (done + [b[0]]) + Merge(a, b[1..])
  {
    var m := if Before(a[0], b[0]) then Merge(a[1..], b) else Merge(a, b[1..]);
    var x := if Before(a[0], b[0]) then a[0] else b[0];
    assert Merge(a, b) == [x] + m;
    hide Merge, Before;
    OneMore(done, x, m);
  }

  lemma OneMore<T>(done: seq<T>, x: T, rest: seq<T>)
    ensures done + ([x] + rest) == (done + [x]) + rest
  {
  }

  lemma TakeView(done: seq<Node>, a: seq<Node>, b: seq<Node>)
    requires a != [] && b != []
    ensures View(done) + Merge(View(a), View(b)) ==
            if CaseOrder(a[0].name, b[0].name) < 0
            then View(done + [a[0]]) + Merge(View(a[1..]), View(b))
            else View(done + [b[0]]) + Merge(View(a), View(b[1..]))
  {
    ViewHead(a);
    ViewHead(b);
    ViewAppend(done, [a[0]]);
    ViewAppend(done, [b[0]]);
    hide View, Merge;
    MergeStep(View(done), View(a), View(b));
  }

  /** One chain behind the merged nodes. */
  method AppendAll(list: Node?, ptr: Node?, x: Node, ghost done: seq<Node>, ghost rest: seq<Node>) returns (list': Node)
    requires Open(list, ptr, done) && Loose(x, rest) && Apart(done, rest)
    modifies Nodes(done)`next, x`prev
    ensures Loose(list', done + rest) && View(done + rest) == old(View(done) + View(rest))
    ensures if done == [] then list' == x && x.prev == old(x.prev) else list' == list && list.prev == old(list.prev)
  {
    ghost var out := done + rest;
    ViewAppend(done, rest);
    assert x in rest && (done != [] ==> done[0] in done && out[0] == list);
    assert done == [] ==> out == rest;
    hide View;
    list' := TakeAll(list, ptr, x, done, rest);
  }

  lemma MergeWithNothing(a: seq<Node>, b: seq<Node>)
    requires a == [] || b == []
    ensures Merge(View(a), View(b)) == View(a) + View(b)
  {
  }

  /** When one chain is used up the other is appended. */
  method Finish(list: Node?, ptr: Node?, first: Node?, second: Node?,
                ghost done: seq<Node>, ghost a: seq<Node>, ghost b: seq<Node>)
    returns (list': Node, ghost out: seq<Node>)
    requires Merging(list, ptr, done, first, a, second, b) && (first == null) != (second == null)
    modifies Nodes(done)`next, Nodes(a + b)`prev
    ensures Loose(list', out) && View(out) == old(View(done) + Merge(View(a), View(b)))
    ensures if done == [] then list' in {first, second} && list'.prev == old(list'.prev)
            else list' == list && list.prev == old(list.prev)
  {
    MergeWithNothing(a, b);
    assert first != null ==> first in a && View(a) + [] == View(a);
    assert second != null ==> second in b && [] + View(b) == View(b);
    hide View, Merge, Open, LinkedAt;
    if first != null {
      out := done + a;
      list' := AppendAll(list, ptr, first, done, a);
    } else {
      out := done + b;
      list' := AppendAll(list, ptr, second, done, b);
    }
  }

  /** The first node of the result, once there is one, is one of the two first nodes and still points
      back to what it pointed back to. */
  ghost predicate FirstKept(head: Node?, done: seq<Node>, first: Node?, second: Node?,
                            first0: Node, second0: Node, p: Node?, q: Node?)
    reads first0`prev, second0`prev
  {
    if done == [] then first == first0 && second == second0 && first0.prev == p && second0.prev == q
    else (head == first0 && first0.prev == p) || (head == second0 && second0.prev == q)
  }

  /** Invariant of the merging loop. */
  ghost predicate MergeState(head: Node?, ptr: Node?, done: seq<Node>, first: Node?, a: seq<Node>, second: Node?, b: seq<Node>,
                             total: seq<Entry<Node>>, all: set<Node>)
    reads done, a, b
  {
    && Merging(head, ptr, done, first, a, second, b) && View(done) + Merge(View(a), View(b)) == total
    && Nodes(done) + Nodes(a) + Nodes(b) <= all && (first != null || second != null)
  }

  lemma MergeBegins(first: Node, a: seq<Node>, second: Node, b: seq<Node>)
    requires Loose(first, a) && Loose(second, b) && Apart(a, b)
    ensures MergeState(null, null, [], first, a, second, b, Merge(View(a), View(b)), Nodes(a + b))
    ensures FirstKept(null, [], first, second, first, second, first.prev, second.prev)
  {
    NodesJoined(a, b);
    assert View([]) + Merge(View(a), View(b)) == Merge(View(a), View(b));
    hide View, Merge, Loose;
  }

  lemma MergeStateIs(head: Node?, ptr: Node?, done: seq<Node>, first: Node?, a: seq<Node>, second: Node?, b: seq<Node>,
                     total: seq<Entry<Node>>, all: set<Node>)
    requires MergeState(head, ptr, done, first, a, second, b, total, all)
    ensures Merging(head, ptr, done, first, a, second, b) && View(done) + Merge(View(a), View(b)) == total
    ensures Nodes(done) + Nodes(a) + Nodes(b) <= all && (first != null || second != null)
    ensures Nodes(done) <= all && Nodes(a + b) <= all
    ensures first != null ==> first in all
    ensures second != null ==> second in all
    ensures done != [] ==> head != null && head != first && head != second
  {
    NodesJoined(a, b);
    assert first != null ==> first in a;
    assert second != null ==> second in b;
    assert done != [] ==> head in done;
    hide View, Merge, Open, LinkedAt;
  }

  lemma MergeStateBy(head: Node?, ptr: Node?, done: seq<Node>, first: Node?, a: seq<Node>, second: Node?, b: seq<Node>,
                     total: seq<Entry<Node>>, all: set<Node>)
    requires Merging(head, ptr, done, first, a, second, b) && View(done) + Merge(View(a), View(b)) == total
    requires Nodes(done) + Nodes(a) + Nodes(b) <= all && (first != null || second != null)
    ensures MergeState(head, ptr, done, first, a, second, b, total, all)
  {
    hide View, Merge, Merging;
  }

  /** One turn keeps it. */
  method MergeTurn(head: Node?, ptr: Node?, first: Node, second: Node, ghost done: seq<Node>, ghost a: seq<Node>, ghost b: seq<Node>,
                   ghost first0: Node, ghost second0: Node, ghost p: Node?, ghost q: Node?,
                   ghost total: seq<Entry<Node>>, ghost all: set<Node>)
    returns (head': Node, ptr': Node, first': Node?, second': Node?,
             ghost done': seq<Node>, ghost a': seq<Node>, ghost b': seq<Node>)
    requires MergeState(head, ptr, done, first, a, second, b, total, all)
    requires FirstKept(head, done, first, second, first0, second0, p, q)
    modifies all`next, all`prev
    ensures MergeState(head', ptr', done', first', a', second', b', total, all)
    ensures FirstKept(head', done', first', second', first0, second0, p, q)
    ensures |a'| + |b'| < |a| + |b|
  {
    hide *;
    MergeStateIs(head, ptr, done, first, a, second, b, total, all);
    KeptIs(head, done, first, second, first0, second0, p, q);
    head', ptr', first', second', done', a', b' := TakeSmaller(head, ptr, first, second, done, a, b);
    MergeStateBy(head', ptr', done', first', a', second', b', total, all);
    KeptBy(head', done', first', second', first0, second0, p, q);
  }

  lemma KeptIs(head: Node?, done: seq<Node>, first: Node?, second: Node?, first0: Node, second0: Node, p: Node?, q: Node?)
    requires FirstKept(head, done, first, second, first0, second0, p, q)
    ensures if done == [] then first == first0 && second == second0 && first0.prev == p && second0.prev == q
            else (head == first0 && first0.prev == p) || (head == second0 && second0.prev == q)
  {
  }

  lemma KeptBy(head: Node?, done: seq<Node>, first: Node?, second: Node?, first0: Node, second0: Node, p: Node?, q: Node?)
    requires done != [] && ((head == first0 && first0.prev == p) || (head == second0 && second0.prev == q))
    ensures FirstKept(head, done, first, second, first0, second0, p, q)
  {
  }

  /** The merging loop, and the appended tails. */
  method MergeLists(first0: Node, second0: Node, ghost a: seq<Node>, ghost b: seq<Node>)
    returns (list: Node, ghost out: seq<Node>)
    requires Loose(first0, a) && Loose(second0, b) && Apart(a, b)
    modifies Nodes(a + b)`next, Nodes(a + b)`prev
    ensures Loose(list, out) && View(out) == Merge(old(View(a)), old(View(b)))
    ensures list in {first0, second0} && list.prev == old(list.prev)
  {
    hide *;
    var first: Node?, second: Node? := first0, second0;
    var head: Node?, ptr: Node? := null, null;
    ghost var done: seq<Node>, ra, rb := [], a, b;
    ghost var total, all := Merge(View(a), View(b)), Nodes(a + b);
    ghost var p, q := first0.prev, second0.prev;
    MergeBegins(first0, a, second0, b);
    while first != null && second != null
      invariant MergeState(head, ptr, done, first, ra, second, rb, total, all)
      invariant FirstKept(head, done, first, second, first0, second0, p, q)
      decreases |ra| + |rb|
    {
      head, ptr, first, second, done, ra, rb := MergeTurn(head, ptr, first, second, done, ra, rb, first0, second0, p, q, total, all);
    }
    list, out := MergeEnds(head, ptr, first, second, done, ra, rb, first0, second0, p, q, total, all);
  }

  method MergeEnds(head: Node?, ptr: Node?, first: Node?, second: Node?, ghost done: seq<Node>, ghost a: seq<Node>, ghost b: seq<Node>,
                   ghost first0: Node, ghost second0: Node, ghost p: Node?, ghost q: Node?,
                   ghost total: seq<Entry<Node>>, ghost all: set<Node>)
    returns (list: Node, ghost out: seq<Node>)
    requires MergeState(head, ptr, done, first, a, second, b, total, all) && (first == null || second == null)
    requires FirstKept(head, done, first, second, first0, second0, p, q)
    modifies all`next, all`prev
    ensures Loose(list, out) && View(out) == total
    ensures (list == first0 && list.prev == p) || (list == second0 && list.prev == q)
  {
    MergeStateIs(head, ptr, done, first, a, second, b, total, all);
    hide View, Merge, Merging, MergeState, Nodes;
    list, out := Finish(head, ptr, first, second, done, a, b);
  }

  lemma ViewParts(xs: seq<Node>, m: nat)
    requires m <= |xs|
    ensures View(xs)[..m] == View(xs[..m]) && View(xs)[m..] == View(xs[m..])
  {
    ViewAppend(xs[..m], xs[m..]);
    assert xs == xs[..m] + xs[m..];
  }

  /** The nodes of a sorted view are the nodes that were sorted. */
  lemma SortedNodes(out: seq<Node>, v: seq<Entry<Node>>, xs: seq<Node>)
    requires View(out) == Sort(v) && forall e :: e in v ==> e.item in xs
    ensures forall n :: n in out ==> n in xs
  {
    SortKeepsMembers(v);
    hide Sort, View;
    forall i | 0 <= i < |out|
      ensures out[i] in xs
    {
      assert View(out)[i] in Sort(v);
      assert View(out)[i] in v;
    }
  }

  lemma ViewItems(xs: seq<Node>)
    ensures forall e :: e in View(xs) ==> e.item in xs
  {
    forall e | e in View(xs)
      ensures e.item in xs
    {
      var i :| 0 <= i < |xs| && View(xs)[i] == e;
      assert e.item == xs[i];
    }
  }

  /** `cJSONUtils_SortList` on a chain in the heap: it ends, the nodes are relinked into the
      order that the sort of sequences gives, every node but the first points back to the
      one before it, and the first keeps whatever back link it had. */
  method SortList(list: Node?, ghost xs: seq<Node>) returns (r: Node?, ghost out: seq<Node>)
    requires Loose(list, xs)
    modifies Nodes(xs)`next, Nodes(xs)`prev
    ensures Loose(r, out) && View(out) == Sort(old(View(xs)))
    ensures forall n :: n in out ==> n in xs
    ensures r != null ==> r in xs && r.prev == old(r.prev)
    decreases |xs|, 3
  {
    r, out := list, xs;
    if list == null { return; }
    assert LinkedAt(xs, 0);
    if list.next == null { return; }
    var sorted := IsSorted(list, xs);
    if sorted { return; }
    ghost var v := View(xs);
    ViewItems(xs);
    var second := FindMiddle(list, xs);
    hide View, Sort, AlreadySorted, Loose, LinkedAt;
    r, out := SortHalves(list, second, xs, Middle(|xs|));
    SortedNodes(out, v, xs);
  }

  method SortHalves(list: Node, second: Node, ghost xs: seq<Node>, ghost m: nat) returns (r: Node, ghost out: seq<Node>)
    requires Loose(list, xs) && |xs| >= 2 && m == Middle(|xs|) && 0 < m < |xs| && second == xs[m]
    requires !AlreadySorted(View(xs))
    modifies Nodes(xs)`next, Nodes(xs)`prev
    ensures Loose(r, out) && View(out) == Sort(old(View(xs)))
    ensures r in xs && r.prev == old(r.prev)
    decreases |xs|, 2
  {
    ghost var a, b := xs[..m], xs[m..];
    SplitSort(View(xs));
    CutInTwo(list, second, xs, m);
    NodesHalved(xs, m);
    hide *;
    var first, second';
    ghost var sa, sb;
    first, second', sa, sb := SortBoth(list, second, a, b);
    NodesJoined(sa, sb);
    r, out := MergeLists(first, second', sa, sb);
  }

  /** The split, as two chains with the two halves of the view. */
  method CutInTwo(list: Node, second: Node, ghost xs: seq<Node>, ghost m: nat)
    requires Loose(list, xs) && 0 < m < |xs| && second == xs[m]
    modifies Nodes(xs)`next
    ensures Loose(list, xs[..m]) && Loose(second, xs[m..]) && Apart(xs[..m], xs[m..])
    ensures View(xs[..m]) == old(View(xs))[..m] && View(xs[m..]) == old(View(xs))[m..]
  {
    ghost var v := View(xs);
    ViewParts(xs, m);
    HalvesApart(xs, m);
    Split(second, list, xs, m);
    SameView(View(xs[..m]), v[..m]);
    SameView(View(xs[m..]), v[m..]);
  }

  lemma NodesJoined(a: seq<Node>, b: seq<Node>)
    ensures Nodes(a + b) == Nodes(a) + Nodes(b)
  {
  }

  lemma NodesHalved(xs: seq<Node>, m: nat)
    requires m <= |xs|
    ensures Nodes(xs) == Nodes(xs[..m]) + Nodes(xs[m..])
    ensures forall x :: x in xs[..m] || x in xs[m..] ==> x in xs
  {
    assert xs == xs[..m] + xs[m..];
    NodesJoined(xs[..m], xs[m..]);
  }

  lemma SplitSort<T>(v: seq<Entry<T>>)
    requires |v| >= 2 && !AlreadySorted(v)
    ensures Sort(v) == Merge(Sort(v[..Middle(|v|)]), Sort(v[Middle(|v|)..]))
  {
  }

  method SortBoth(list: Node, second: Node, ghost a: seq<Node>, ghost b: seq<Node>)
    returns (r1: Node, r2: Node, ghost sa: seq<Node>, ghost sb: seq<Node>)
    requires Loose(list, a) && Loose(second, b) && Apart(a, b)
    modifies Nodes(a)`next, Nodes(a)`prev, Nodes(b)`next, Nodes(b)`prev
    ensures Loose(r1, sa) && Loose(r2, sb) && Apart(sa, sb)
    ensures View(sa) == Sort(old(View(a))) && View(sb) == Sort(old(View(b)))
    ensures Nodes(sa) <= Nodes(a) && Nodes(sb) <= Nodes(b)
    ensures r1 in a && r1.prev == old(r1.prev) && r2 in b && r2.prev == old(r2.prev)
    decreases |a| + |b|, 1
  {
    assert b != [] && forall x :: x in b ==> x !in Nodes(a);
    hide *;
    var first, rest := SortFirst(list, a, second, b);
    r1, sa := first, rest;
    ApartInside(a, b, b, sa);
    var last, other := SortFirst(second, b, first, sa);
    r2, sb := last, other;
    ApartInside(a, b, sb, sa);
  }

  lemma ApartInside(a: seq<Node>, b: seq<Node>, b1: seq<Node>, a1: seq<Node>)
    requires Apart(a, b) && Nodes(b1) <= Nodes(b) && Nodes(a1) <= Nodes(a)
    ensures Apart(b1, a1) && Apart(a1, b1)
  {
    forall x | x in b1 ensures x !in a1 {
      assert x in Nodes(b1) && x !in Nodes(a1);
    }
  }

  /** Sorting one chain leaves a chain of other nodes as it is. */
  method SortFirst(list: Node, ghost a: seq<Node>, ghost second: Node, ghost b: seq<Node>)
    returns (r: Node, ghost out: seq<Node>)
    requires Loose(list, a) && Loose(second, b) && Apart(a, b)
    modifies Nodes(a)`next, Nodes(a)`prev
    ensures Loose(r, out) && View(out) == Sort(old(View(a))) && Nodes(out) <= Nodes(a)
    ensures Loose(second, b) && View(b) == old(View(b)) && second.prev == old(second.prev)
    ensures r in a && r.prev == old(r.prev)
    decreases |a|, 4
  {
    ghost var vb := View(b);
    assert a[0] == list && b[0] == second;
    var head: Node?;
    head, out := SortList(list, a);
    forall i | 0 <= i < |b|
      ensures LinkedAt(b, i)
    {
      assert old(LinkedAt(b, i));
      assert b[i] in b;
    }
    SameView(View(b), vb);
    assert |View(out)| == |a| by { SortKeepsMembers(old(View(a))); }
    r := head;
  }

  lemma HalvesApart(xs: seq<Node>, m: nat)
    requires Distinct(xs) && m <= |xs|
    ensures Apart(xs[..m], xs[m..])
  {
  }

  /** `cJSONUtils_SortObject`. The first node keeps what it points back to, so the result is a chain
      without a back link in front exactly if the first name was the least one already. */
  method SortObject(owner: Node, ghost xs: seq<Node>) returns (ghost out: seq<Node>)
    requires Loose(owner.child, xs) && owner !in xs
    modifies owner`child, Nodes(xs)`next, Nodes(xs)`prev
    ensures Loose(owner.child, out) && owner !in out && View(out) == Sort(old(View(xs)))
    ensures HeadOf(out) == HeadOf(xs) <==> FirstIsLeast(old(View(xs)))
    ensures out != [] ==> out[0] in xs && out[0].prev == old(out[0].prev)
    ensures HeadOf(out) != HeadOf(xs) ==> out != [] && out[0].prev in out && out[0].prev != out[0]
    ensures OldLinked(out) <==> old(OldLinked(xs)) || !FirstIsLeast(old(View(xs)))
    ensures old(Chain(owner, xs)) ==> Children(owner, out) && (Chain(owner, out) <==> FirstIsLeast(old(View(xs))))
  {
    hide *;
    ghost var v := View(xs);
    ghost var first := HeadOf(xs);
    BeforeSort(owner, xs);
    var r;
    r, out := SortList(owner.child, xs);
    owner.child := r;
    AfterSort(r, out, v, first, xs);
    if out != [] && out[0] != xs[0] {
      SortedHas(out, v, xs, IndexOf(xs, out[0]) - 1);
    }
    ChainBy(owner, out);
  }

  /** What the sort keeps: the first node, and where the other nodes point back to. */
  lemma BeforeSort(owner: Node, xs: seq<Node>)
    requires Loose(owner.child, xs) && owner !in xs
    ensures HeadOf(xs) == (if xs == [] then null else xs[0]) && |View(xs)| == |xs|
    ensures forall x :: x in Nodes(xs) <==> x in xs
    ensures forall i :: 0 < i < |xs| ==> xs[i].prev == xs[i - 1] && xs[i] != xs[i - 1] && xs[i] != xs[0]
    ensures xs != [] ==> View(xs) != [] && View(xs)[0].item == xs[0]
    ensures forall i, j :: 0 <= i < j < |xs| ==> View(xs)[i].item != View(xs)[j].item
    ensures forall i :: 0 <= i < |xs| ==> View(xs)[i].item == xs[i]
    ensures OldLinked(xs) <==> xs != [] && xs[0].prev != null
    ensures Chain(owner, xs) ==> !OldLinked(xs)
  {
    FrontLinks(owner.child, xs);
    ViewHeads(xs);
    hide View, LinkedAt;
  }

  lemma AfterSort(r: Node?, out: seq<Node>, v: seq<Entry<Node>>, first: Node?, xs: seq<Node>)
    requires Loose(r, out) && View(out) == Sort(v) && |v| == |xs| && (forall i :: 0 <= i < |xs| ==> v[i].item == xs[i])
    requires forall i, j :: 0 <= i < j < |v| ==> v[i].item != v[j].item
    ensures |out| == |v| && r == HeadOf(out) && (out != [] ==> r == out[0])
    ensures v != [] ==> (out[0] == v[0].item <==> FirstIsLeast(v))
    ensures v == [] ==> FirstIsLeast(v)
    ensures OldLinked(out) <==> out != [] && out[0].prev != null
  {
    SameChain(r, out);
    SortedLength(out, v);
    SortedHead(out, v);
    hide View, LinkedAt, Sort, FirstIsLeast, Loose;
  }

  lemma ChainBy(owner: Node, xs: seq<Node>)
    requires Loose(owner.child, xs) && owner !in xs
    ensures Chain(owner, xs) <==> xs == [] || xs[0].prev == null
    ensures Children(owner, xs) <==> (xs == [] || xs[0].prev == null || (xs[0].prev in xs && xs[0].prev != xs[0]))
  {
    hide Loose;
  }

  lemma ViewHeads(xs: seq<Node>)
    requires Distinct(xs)
    ensures xs != [] ==> View(xs) != [] && View(xs)[0].item == xs[0]
    ensures forall i, j :: 0 <= i < j < |xs| ==> View(xs)[i].item != View(xs)[j].item
  {
  }

  lemma SortedHead(out: seq<Node>, v: seq<Entry<Node>>)
    requires View(out) == Sort(v) && forall i, j :: 0 <= i < j < |v| ==> v[i].item != v[j].item
    ensures v != [] ==> out != [] && (out[0] == v[0].item <==> FirstIsLeast(v))
    ensures v == [] ==> FirstIsLeast(v)
  {
    if v != [] {
      FirstStays(v);
      hide Sort, FirstIsLeast;
      assert View(out)[0].item == out[0];
    }
  }

  ghost function IndexOf(xs: seq<Node>, x: Node): (i: nat)
    requires x in xs
    ensures i < |xs| && xs[i] == x
  {
    if xs[0] == x then 0 else 1 + IndexOf(xs[1..], x)
  }

  lemma FrontLinks(first: Node?, xs: seq<Node>)
    requires Loose(first, xs)
    ensures forall i :: 0 < i < |xs| ==> xs[i].prev == xs[i - 1] && xs[i] != xs[i - 1] && xs[i] != xs[0]
  {
    forall i | 0 < i < |xs| ensures xs[i].prev == xs[i - 1] { assert LinkedAt(xs, i); }
  }

  lemma SameChain(first: Node?, xs: seq<Node>)
    requires Loose(first, xs)
    ensures first == HeadOf(xs)
  {
  }

  lemma SortedLength(out: seq<Node>, v: seq<Entry<Node>>)
    requires View(out) == Sort(v)
    ensures |out| == |v|
  {
    SortKeepsMembers(v);
  }

  lemma SortedHas(out: seq<Node>, v: seq<Entry<Node>>, xs: seq<Node>, i: nat)
    requires View(out) == Sort(v) && |v| == |xs| && i < |xs| && v[i].item == xs[i]
    ensures xs[i] in out
  {
    SortKeepsMembers(v);
    assert v[i] in v;
    assert v[i] in Sort(v);
    ViewItems(out);
  }

  /** After sorting "b", "a" the first node points back to the second; detaching it then
      makes the second point to itself. */
  method SortThenDetachLoops(owner: Node, b: Node, a: Node)
    requires Chain(owner, [b, a]) && b.name == "b" && a.name == "a"
    modifies owner, a, b
    ensures b.next == b
  {
    ghost var xs := [b, a];
    assert LinkedAt(xs, 0) && LinkedAt(xs, 1);
    assert View(xs) == [Entry("b", b), Entry("a", a)];
    SortTwo(View(xs));
    ghost var out := SortObject(owner, xs);
    ViewNodes(out, a, b);
    assert LinkedAt(out, 0);
    var c := DetachItemFromArray(owner, 0, out);
  }

  lemma ViewNodes(out: seq<Node>, a: Node, b: Node)
    requires View(out) == [Entry("a", a), Entry("b", b)]
    ensures out == [a, b]
  {
    assert View(out)[0].item == out[0] && View(out)[1].item == out[1];
  }
}
