/** Lists with a single head pointer and back links to the pointing field (`ll_llist.h`). */
module HashList {

  /** What `pprev` points to: nothing, the `first` field of a head, the `next` field of a
      node, or the poison address. */
  datatype Slot = Unhashed | First(h: HlistHead) | Next(n: HlistNode) | Poison

  class HlistHead {
    var first: HlistNode?

    constructor ()
      ensures first == null
    {
      first := null;
    }
  }

  class HlistNode {
    var next: HlistNode?
    var pprev: Slot

    constructor ()
      ensures next == null && pprev == Unhashed
    {
      next, pprev := null, Unhashed;
    }
  }

  ghost predicate Distinct(xs: seq<HlistNode>) {
    forall i, j :: 0 <= i < j < |xs| ==> xs[i] != xs[j]
  }

  /** The field that leads to entry `i`, or to the end. */
  ghost function SlotAt(h: HlistHead, xs: seq<HlistNode>, i: nat): Slot
    requires i <= |xs|
  {
    if i == 0 then First(h) else Next(xs[i - 1])
  }

  ghost function Contents(s: Slot): HlistNode?
    reads match s case First(h) => {h as object} case Next(n) => {n as object} case _ => {}
  {
    match s
    case First(h) => h.first
    case Next(n) => n.next
    case _ => null
  }

  /** Entry `i` is what the field before it holds, and points back to that field. */
  ghost predicate Placed(h: HlistHead, xs: seq<HlistNode>, i: nat)
    requires i <= |xs|
    reads h, xs
  {
    if i == |xs| then Contents(SlotAt(h, xs, i)) == null
    else Contents(SlotAt(h, xs, i)) == xs[i] && xs[i].pprev == SlotAt(h, xs, i)
  }

  /** `h` heads the list `xs`. */
  ghost predicate IsList(h: HlistHead, xs: seq<HlistNode>)
    reads h, xs
  {
    Distinct(xs) && forall i :: 0 <= i <= |xs| ==> Placed(h, xs, i)
  }

  /** Writes a node into the slot, be it a head's or another node's. */
  method Store(s: Slot, node: HlistNode?)
    modifies match s case First(h) => {h as object} case Next(n) => {n as object} case _ => {}
    ensures s.First? ==> s.h.first == node
    ensures s.Next? ==> s.n.next == node && s.n.pprev == old(s.n.pprev)
  {
    match s
    case First(h) => h.first := node;
    case Next(n) => n.next := node;
    case _ =>
  }

  method AddHead(n: HlistNode, h: HlistHead, ghost xs: seq<HlistNode>)
    requires IsList(h, xs) && n !in xs
    modifies n, h, xs
    ensures IsList(h, [n] + xs)
  {
    ghost var ys := [n] + xs;
    assert Placed(h, xs, 0);
    var first := h.first;
    n.next := first;
    if first != null { first.pprev := Next(n); }
    h.first := n;
    n.pprev := First(h);
    forall i | 0 <= i <= |ys|
      ensures Placed(h, ys, i)
    {
      if i > 1 { assert old(Placed(h, xs, i - 1)); }
    }
  }

  method AddBefore(n: HlistNode, next: HlistNode, ghost h: HlistHead, ghost xs: seq<HlistNode>, ghost k: nat)
    requires IsList(h, xs) && n !in xs && k < |xs| && xs[k] == next
    modifies n, h, xs
    ensures IsList(h, xs[..k] + [n] + xs[k..])
  {
    ghost var ys := xs[..k] + [n] + xs[k..];
    assert Placed(h, xs, k);
    n.pprev := next.pprev;
    n.next := next;
    next.pprev := Next(n);
    Store(n.pprev, n);
    forall i | 0 <= i <= |ys|
      ensures Placed(h, ys, i)
    {
      if i < k { assert old(Placed(h, xs, i)); }
      if i > k + 1 { assert old(Placed(h, xs, i - 1)); }
    }
  }

  /** The second node goes behind the first. */
  method AddAfter(n: HlistNode, next: HlistNode, ghost h: HlistHead, ghost xs: seq<HlistNode>, ghost k: nat)
    requires IsList(h, xs) && next !in xs && k < |xs| && xs[k] == n
    modifies next, h, xs
    ensures IsList(h, xs[..k + 1] + [next] + xs[k + 1..])
  {
    ghost var ys := xs[..k + 1] + [next] + xs[k + 1..];
    assert Placed(h, xs, k + 1);
    next.next := n.next;
    n.next := next;
    next.pprev := Next(n);
    if next.next != null { next.next.pprev := Next(next); }
    forall i | 0 <= i <= |ys|
      ensures Placed(h, ys, i)
    {
      if i <= k { assert old(Placed(h, xs, i)); }
      if i > k + 2 { assert old(Placed(h, xs, i - 1)); }
    }
  }

  method Unlink(n: HlistNode, ghost h: HlistHead, ghost xs: seq<HlistNode>, ghost k: nat)
    requires IsList(h, xs) && k < |xs| && xs[k] == n
    modifies h, xs
    ensures IsList(h, xs[..k] + xs[k + 1..])
    ensures n !in xs[..k] + xs[k + 1..]
  {
    ghost var ys := xs[..k] + xs[k + 1..];
    assert Placed(h, xs, k) && Placed(h, xs, k + 1);
    var next := n.next;
    var pprev := n.pprev;
    Store(pprev, next);
    if next != null { next.pprev := pprev; }
    forall i | 0 <= i <= |ys|
      ensures Placed(h, ys, i)
    {
      if i < k { assert old(Placed(h, xs, i)); }
      if i > k { assert old(Placed(h, xs, i + 1)); }
    }
  }

  /** Links written in a node outside a list do not touch the list. */
  method SetLinks(n: HlistNode, next: HlistNode?, pprev: Slot, ghost h: HlistHead, ghost xs: seq<HlistNode>)
    requires IsList(h, xs) && n !in xs
    modifies n
    ensures n.next == next && n.pprev == pprev
    ensures IsList(h, xs)
  {
    n.next := next;
    n.pprev := pprev;
    forall i | 0 <= i <= |xs|
      ensures Placed(h, xs, i)
    {
      assert old(Placed(h, xs, i));
    }
  }

  method Del(n: HlistNode, ghost h: HlistHead, ghost xs: seq<HlistNode>, ghost k: nat)
    requires IsList(h, xs) && k < |xs| && xs[k] == n
    modifies h, xs
    ensures IsList(h, xs[..k] + xs[k + 1..])
    ensures n.next == null && n.pprev == Poison
  {
    Unlink(n, h, xs, k);
    SetLinks(n, null, Poison, h, xs[..k] + xs[k + 1..]);
  }

  /** Deleting a node that is on no list does nothing; otherwise it ends up unhashed. */
  method DelInit(n: HlistNode, ghost h: HlistHead, ghost xs: seq<HlistNode>, ghost k: nat)
    requires IsList(h, xs)
    requires if n.pprev == Unhashed then n !in xs else k < |xs| && xs[k] == n
    modifies n, h, xs
    ensures n.pprev == Unhashed
    ensures IsList(h, if old(n.pprev) == Unhashed then xs else xs[..k] + xs[k + 1..])
    ensures old(n.pprev) == Unhashed ==> n.next == old(n.next)
  {
    if n.pprev != Unhashed {
      Unlink(n, h, xs, k);
      SetLinks(n, null, Unhashed, h, xs[..k] + xs[k + 1..]);
    }
  }

  /** The whole list moves to another head. */
  method MoveList(from: HlistHead, to: HlistHead, ghost xs: seq<HlistNode>)
    requires IsList(from, xs) && from != to
    modifies from, to, xs
    ensures IsList(to, xs) && IsList(from, [])
  {
    assert Placed(from, xs, 0);
    to.first := from.first;
    if to.first != null { to.first.pprev := First(to); }
    from.first := null;
    forall i | 0 <= i <= |xs|
      ensures Placed(to, xs, i)
    {
      if i > 0 { assert old(Placed(from, xs, i)); }
    }
  }

  /** Adding a node in front and deleting it restores the list. */
  method AddThenDelete(n: HlistNode, h: HlistHead, ghost xs: seq<HlistNode>)
    requires IsList(h, xs) && n !in xs
    modifies n, h, xs
    ensures IsList(h, xs) && n.pprev == Unhashed
  {
    AddHead(n, h, xs);
    assert Placed(h, [n] + xs, 0);
    DelInit(n, h, [n] + xs, 0);
    assert ([n] + xs)[..0] + ([n] + xs)[1..] == xs;
  }
}
