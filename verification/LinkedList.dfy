/** Circular doubly linked lists with the links inside the entries (`ll_llist.h`). */
module LinkedList {

  /** A null link stands for the poison values left in deleted entries. */
  class ListHead {
    var next: ListHead?
    var prev: ListHead?

    constructor ()
      ensures IsList(this, [])
    {
      next, prev := this, this;
      new;
      assert JoinedAt([this] + [], 0);
    }
  }

  // ----- rings

  ghost predicate Distinct(c: seq<ListHead>) {
    forall i, j :: 0 <= i < j < |c| ==> c[i] != c[j]
  }

  ghost predicate Joined(a: ListHead, b: ListHead)
    reads a, b
  {
    a.next == b && b.prev == a
  }

  /** Entry `i` of the ring and the one after it point to each other. */
  ghost predicate JoinedAt(c: seq<ListHead>, i: nat)
    requires i < |c|
    reads c
  {
    Joined(c[i], c[if i + 1 == |c| then 0 else i + 1])
  }

  /** The entries of `c` form one ring, in this order. */
  ghost predicate Circular(c: seq<ListHead>)
    reads c
  {
    c != [] && Distinct(c) && forall i :: 0 <= i < |c| ==> JoinedAt(c, i)
  }

  /** `head` heads a list with the entries `xs`. */
  ghost predicate IsList(head: ListHead, xs: seq<ListHead>)
    reads head, xs
  {
    Circular([head] + xs)
  }

  lemma DistinctTail(x: ListHead, c: seq<ListHead>)
    requires Distinct([x] + c)
    ensures x !in c && Distinct(c)
  {
    var d := [x] + c;
    forall i | 0 <= i < |c| ensures c[i] != x { assert d[0] != d[i + 1]; }
    forall i, j | 0 <= i < j < |c| ensures c[i] != c[j] { assert d[i + 1] != d[j + 1]; }
  }

  ghost predicate Apart(a: seq<ListHead>, b: seq<ListHead>) {
    forall x :: x in a ==> x !in b
  }

  lemma DistinctAppend(a: seq<ListHead>, b: seq<ListHead>)
    requires Distinct(a) && Distinct(b) && Apart(a, b)
    ensures Distinct(a + b)
  {
    var c := a + b;
    forall i, j | 0 <= i < j < |c|
      ensures c[i] != c[j]
    {
      if i < |a| <= j { assert a[i] in a && b[j - |a|] in b; }
    }
  }

  lemma DistinctTurned(a: seq<ListHead>, b: seq<ListHead>)
    requires Distinct(a + b)
    ensures Distinct(b + a)
  {
    var c, d := a + b, b + a;
    forall i, j | 0 <= i < j < |d|
      ensures d[i] != d[j]
    {
      assert d[i] == c[if i < |b| then |a| + i else i - |b|];
      assert d[j] == c[if j < |b| then |a| + j else j - |b|];
    }
  }

  /** A ring has no first entry. */
  lemma Turned(a: seq<ListHead>, b: seq<ListHead>)
    requires Circular(a + b)
    ensures Circular(b + a)
  {
    var c, d := a + b, b + a;
    DistinctTurned(a, b);
    forall i | 0 <= i < |d|
      ensures JoinedAt(d, i)
    {
      assert JoinedAt(c, if i < |b| then |a| + i else i - |b|);
    }
  }

  /** First entry, last entry, and how they are joined. */
  lemma Ends(c: seq<ListHead>)
    requires Circular(c)
    ensures c[0].prev == c[|c| - 1] && c[|c| - 1].next == c[0]
    ensures |c| > 1 ==> c[0].next == c[1]
  {
    assert JoinedAt(c, |c| - 1);
    assert JoinedAt(c, 0);
  }

  lemma AwayFromEnds(c: seq<ListHead>)
    requires Distinct(c)
    ensures forall k :: 0 <= k < |c| - 1 ==> c[k] != c[|c| - 1]
    ensures forall k :: 0 < k < |c| ==> c[k] != c[0]
  {
  }

  // ----- the internal operations, on rings turned so that the place is at the end

  /** `__list_add`. */
  method InsertBetween(entry: ListHead, prev: ListHead, next: ListHead, ghost c: seq<ListHead>)
    requires Circular(c) && c[0] == next && c[|c| - 1] == prev && entry !in c
    modifies entry, prev, next
    ensures Circular(c + [entry])
  {
    ghost var d := c + [entry];
    next.prev := entry;
    entry.next := next;
    entry.prev := prev;
    prev.next := entry;
    forall i | 0 <= i < |d|
      ensures JoinedAt(d, i)
    {
      if i < |c| - 1 { assert old(JoinedAt(c, i)); }
    }
  }

  ghost predicate InnerAt(c: seq<ListHead>, i: nat)
    requires i + 1 < |c|
    reads c
  {
    c[i].next == c[i + 1] && c[i + 1].prev == c[i] && c[i] != c[|c| - 1] && c[i + 1] != c[0]
  }

  /** The links between the entries of a ring other than one, which those two leave alone. */
  lemma InnerLinks(entry: ListHead, c: seq<ListHead>)
    requires Circular([entry] + c)
    ensures Distinct(c) && entry !in c
    ensures forall i :: 0 <= i < |c| - 1 ==> InnerAt(c, i)
  {
    var d := [entry] + c;
    DistinctTail(entry, c);
    AwayFromEnds(c);
    forall i | 0 <= i < |c| - 1 ensures InnerAt(c, i) {
      assert JoinedAt(d, i + 1) && d[i + 1] == c[i] && d[i + 2] == c[i + 1];
    }
  }

  lemma RingLinks(c: seq<ListHead>)
    requires Circular(c)
    ensures forall i :: 0 <= i < |c| - 1 ==> InnerAt(c, i)
  {
    AwayFromEnds(c);
    forall i | 0 <= i < |c| - 1 ensures InnerAt(c, i) { assert JoinedAt(c, i); }
  }

  lemma CircularBy(c: seq<ListHead>)
    requires c != [] && Distinct(c) && forall i :: 0 <= i < |c| ==> JoinedAt(c, i)
    ensures Circular(c)
  {
  }

  /** `__list_del`. */
  method Unlink(prev: ListHead, next: ListHead, ghost entry: ListHead, ghost c: seq<ListHead>)
    requires Circular([entry] + c)
    requires if c == [] then prev == next == entry else c[0] == next && c[|c| - 1] == prev
    modifies prev, next
    ensures c != [] ==> Circular(c)
    ensures entry !in c
  {
    InnerLinks(entry, c);
    hide Circular, Distinct;
    next.prev := prev;
    prev.next := next;
    if c != [] {
      forall i | 0 <= i < |c| ensures JoinedAt(c, i) {
        if i < |c| - 1 { assert old(InnerAt(c, i)); }
      }
      CircularBy(c);
    }
  }

  /** What a ring says of its head and of the two parts of the rest. */
  lemma CutParts(head: ListHead, a: seq<ListHead>, b: seq<ListHead>)
    requires Circular([head] + a + b) && a != []
    ensures Distinct(a) && Distinct(b) && head !in a && head !in b && Apart(a, b)
    ensures forall i :: 0 <= i < |a| - 1 ==> InnerAt(a, i)
    ensures forall i :: 0 <= i < |b| - 1 ==> InnerAt(b, i)
    ensures head.next == a[0] && a[|a| - 1].next == if b == [] then head else b[0]
    ensures b != [] ==> b[|b| - 1].next == head && head.prev == b[|b| - 1]
  {
    var c := [head] + a + b;
    assert [head] + (a + b) == c;
    InnerLinks(head, a + b);
    DistinctParts(a, b);
    AwayFromEnds(a);
    AwayFromEnds(b);
    assert JoinedAt(c, 0) && JoinedAt(c, |a|) && JoinedAt(c, |c| - 1);
    hide Distinct, Circular;
    forall i | 0 <= i < |a| - 1 ensures InnerAt(a, i) { assert InnerAt(a + b, i); }
    forall i | 0 <= i < |b| - 1 ensures InnerAt(b, i) { assert InnerAt(a + b, |a| + i); }
  }

  lemma DistinctParts(a: seq<ListHead>, b: seq<ListHead>)
    requires Distinct(a + b)
    ensures Distinct(a) && Distinct(b) && Apart(a, b)
  {
    var c := a + b;
    forall i, j | 0 <= i < |a| && 0 <= j < |b| ensures a[i] != b[j] { assert c[i] != c[|a| + j]; }
    forall i, j | 0 <= i < j < |b| ensures b[i] != b[j] { assert c[|a| + i] != c[|a| + j]; }
    forall i, j | 0 <= i < j < |a| ensures a[i] != a[j] { assert c[i] != c[j]; }
  }

  lemma Alone(x: ListHead)
    requires Joined(x, x)
    ensures Circular([x])
  {
    assert JoinedAt([x], 0);
  }

  /** The pointer writes of a cut. */
  method CutLinks(list: ListHead, head: ListHead, entry: ListHead)
    requires head.next != null && entry.next != null && head.next != entry.next && head != entry
    requires list !in {head, entry, head.next, entry.next}
    modifies list, head`next, entry`next, head.next`prev, entry.next`prev
    ensures list.next == old(head.next) && list.next.prev == list && list.prev == entry && entry.next == list
    ensures head.next == old(entry.next) && head.next.prev == head
  {
    var newFirst := entry.next;
    list.next := head.next;
    list.next.prev := list;
    list.prev := entry;
    entry.next := list;
    head.next := newFirst;
    newFirst.prev := head;
  }

  /** `__list_cut_position`: the entries `a` go from `head` to `list`. */
  method Cut(list: ListHead, head: ListHead, entry: ListHead, ghost a: seq<ListHead>, ghost b: seq<ListHead>)
    requires Circular([head] + a + b) && list !in [head] + a + b
    requires a != [] && entry == a[|a| - 1]
    modifies list, head, a, b
    ensures Circular([list] + a) && Circular([head] + b)
  {
    CutParts(head, a, b);
    assert list != head && list !in a && list !in b;
    assert a[0] in a && entry in a && (b != [] ==> b[0] in b && b[|b| - 1] in b);
    assert Distinct([list]) && Distinct([head]);
    DistinctAppend([list], a);
    DistinctAppend([head], b);
    hide Distinct, Circular;
    CutLinks(list, head, entry);
    forall k | 0 <= k < |a| - 1 ensures Joined(a[k], a[k + 1]) { assert old(InnerAt(a, k)) && a[k] in a && a[k + 1] in a; }
    forall k | 0 <= k < |b| - 1 ensures Joined(b[k], b[k + 1]) { assert old(InnerAt(b, k)) && b[k] in b && b[k + 1] in b; }
    AppendCircular([list], a);
    if b == [] {
      assert [head] + b == [head];
      Alone(head);
    } else {
      AppendCircular([head], b);
    }
  }

  /** `__list_splice`: the entries `a` of `list` go behind `prev`, the last entry of `c`. */
  method Join(list: ListHead, prev: ListHead, next: ListHead, ghost a: seq<ListHead>, ghost c: seq<ListHead>)
    requires Circular([list] + a) && a != []
    requires Circular(c) && c[0] == next && c[|c| - 1] == prev
    requires Apart(c, [list] + a)
    modifies a, prev, next
    ensures Circular(c + a)
    ensures list.next == a[0] && list.prev == a[|a| - 1]
  {
    ghost var l := [list] + a;
    assert old(JoinedAt(l, 0)) && old(JoinedAt(l, |a|));
    InnerLinks(list, a);
    RingLinks(c);
    forall x | x in c ensures x !in a { assert x !in l; }
    DistinctAppend(c, a);
    assert next in c && prev in c && a[0] in a && a[|a| - 1] in a;
    hide Distinct, Circular;
    var first := list.next;
    var last := list.prev;
    first.prev := prev;
    prev.next := first;
    last.next := next;
    next.prev := last;
    forall i | 0 <= i < |c| - 1
      ensures Joined(c[i], c[i + 1])
    {
      assert old(InnerAt(c, i)) && c[i] in c && c[i + 1] in c;
    }
    forall k | 0 <= k < |a| - 1
      ensures Joined(a[k], a[k + 1])
    {
      assert old(InnerAt(a, k)) && a[k] in a && a[k + 1] in a;
    }
    AppendCircular(c, a);
  }

  /** Two runs of joined entries, joined at both ends, are one ring. */
  lemma AppendCircular(c: seq<ListHead>, a: seq<ListHead>)
    requires c != [] && a != [] && Distinct(c + a)
    requires forall i :: 0 <= i < |c| - 1 ==> Joined(c[i], c[i + 1])
    requires forall k :: 0 <= k < |a| - 1 ==> Joined(a[k], a[k + 1])
    requires Joined(c[|c| - 1], a[0]) && Joined(a[|a| - 1], c[0])
    ensures Circular(c + a)
  {
    var d := c + a;
    forall i | 0 <= i < |d|
      ensures JoinedAt(d, i)
    {
      if i < |c| - 1 {
        assert Joined(c[i], c[i + 1]);
      } else if |c| <= i < |d| - 1 {
        assert Joined(a[i - |c|], a[i - |c| + 1]);
      }
    }
  }

  // ----- the public operations

  method InitListHead(list: ListHead)
    modifies list
    ensures IsList(list, [])
  {
    list.next := list;
    list.prev := list;
    assert JoinedAt([list] + [], 0);
  }

  predicate ListEmpty(head: ListHead)
    reads head
  {
    head.next == head
  }

  predicate ListIsSingular(head: ListHead)
    reads head
  {
    !ListEmpty(head) && head.next == head.prev
  }

  lemma EmptyMeans(head: ListHead, xs: seq<ListHead>)
    requires IsList(head, xs)
    ensures ListEmpty(head) <==> xs == []
    ensures ListIsSingular(head) <==> |xs| == 1
    ensures xs != [] ==> head.next == xs[0] && head.prev == xs[|xs| - 1]
  {
    var c := [head] + xs;
    Ends(c);
    if xs != [] { assert c[0] != c[1]; }
    if |xs| > 1 { assert c[1] != c[|c| - 1]; }
  }

  method ListAdd(entry: ListHead, head: ListHead, ghost xs: seq<ListHead>)
    requires IsList(head, xs) && entry !in [head] + xs
    modifies entry, head, xs
    ensures IsList(head, [entry] + xs)
  {
    ghost var c := xs + [head];
    Turned([head], xs);
    Ends(c);
    assert c[0] in [head] + xs;
    InsertBetween(entry, head, head.next, c);
    assert xs + [head] + [entry] == xs + ([head] + [entry]);
    Turned(xs, [head] + [entry]);
    assert [head] + [entry] + xs == [head] + ([entry] + xs);
  }

  method ListAddTail(entry: ListHead, head: ListHead, ghost xs: seq<ListHead>)
    requires IsList(head, xs) && entry !in [head] + xs
    modifies entry, head, xs
    ensures IsList(head, xs + [entry])
  {
    ghost var c := [head] + xs;
    Ends(c);
    assert c[|c| - 1] in [head] + xs;
    InsertBetween(entry, head.prev, head, c);
    assert [head] + xs + [entry] == [head] + (xs + [entry]);
  }

  /** Both deleting operations first take the entry out of its ring. */
  method Detach(entry: ListHead, ghost head: ListHead, ghost xs: seq<ListHead>, ghost i: nat)
    requires IsList(head, xs) && i < |xs| && xs[i] == entry
    modifies head, xs
    ensures IsList(head, xs[..i] + xs[i + 1..])
    ensures entry !in [head] + (xs[..i] + xs[i + 1..])
  {
    ghost var a, b := [head] + xs[..i], xs[i + 1..];
    assert [head] + xs == a + ([entry] + b);
    Turned(a, [entry] + b);
    ghost var c := b + a;
    assert [entry] + b + a == [entry] + c;
    ghost var r := [entry] + c;
    Ends(r);
    assert JoinedAt(r, 0) && JoinedAt(r, |r| - 1);
    assert entry.next == c[0] && entry.prev == c[|c| - 1];
    assert forall x :: x in c ==> x in [head] + xs;
    assert c[0] in c && c[|c| - 1] in c;
    Unlink(entry.prev, entry.next, entry, c);
    Turned(b, a);
    assert a + b == [head] + (xs[..i] + xs[i + 1..]);
    assert forall x :: x in a + b ==> x in c;
  }

  /** A ring is not touched by writes to an entry outside it. */
  twostate lemma RingUntouched(c: seq<ListHead>)
    requires old(Circular(c))
    requires forall x :: x in c ==> unchanged(x)
    ensures Circular(c)
  {
    forall i | 0 <= i < |c|
      ensures JoinedAt(c, i)
    {
      assert old(JoinedAt(c, i));
      assert c[i] in c && c[if i + 1 == |c| then 0 else i + 1] in c;
    }
  }

  /** The entry is left with poison links. */
  method ListDel(entry: ListHead, ghost head: ListHead, ghost xs: seq<ListHead>, ghost i: nat)
    requires IsList(head, xs) && i < |xs| && xs[i] == entry
    modifies head, xs
    ensures IsList(head, xs[..i] + xs[i + 1..])
    ensures entry.next == null && entry.prev == null
  {
    Detach(entry, head, xs, i);
    label detached:
    entry.next := null;
    entry.prev := null;
    RingUntouched@detached([head] + (xs[..i] + xs[i + 1..]));
  }

  method ListDelInit(entry: ListHead, ghost head: ListHead, ghost xs: seq<ListHead>, ghost i: nat)
    requires IsList(head, xs) && i < |xs| && xs[i] == entry
    modifies head, xs
    ensures IsList(head, xs[..i] + xs[i + 1..]) && IsList(entry, [])
  {
    Detach(entry, head, xs, i);
    label detached:
    InitListHead(entry);
    RingUntouched@detached([head] + (xs[..i] + xs[i + 1..]));
  }

  /** `list_replace`: the new entry takes the place of the old one, whose links stay; a
      head of an empty list is replaced by a head of an empty list. */
  method ListReplace(prior: ListHead, entry: ListHead, ghost c: seq<ListHead>)
    requires Circular([prior] + c) && entry !in [prior] + c
    modifies entry, prior, c
    ensures Circular([entry] + c)
  {
    ghost var d, e := [prior] + c, [entry] + c;
    DistinctTail(prior, c);
    assert forall k :: 0 < k < |d| ==> d[k] == e[k];
    assert old(JoinedAt(d, 0)) && old(JoinedAt(d, |d| - 1));
    entry.next := prior.next;
    entry.next.prev := entry;
    entry.prev := prior.prev;
    entry.prev.next := entry;
    forall k | 0 <= k < |e|
      ensures JoinedAt(e, k)
    {
      if 0 < k < |e| - 1 { assert old(JoinedAt(d, k)); }
    }
  }

  /** `list_move`, within one list (then `ys` are the other entries) or to another. */
  method ListMove(entry: ListHead, head: ListHead, ghost from: ListHead, ghost xs: seq<ListHead>, ghost i: nat,
                  ghost ys: seq<ListHead>)
    requires IsList(from, xs) && i < |xs| && xs[i] == entry
    requires if from == head then ys == xs[..i] + xs[i + 1..]
             else IsList(head, ys) && Apart([from] + xs, [head] + ys)
    modifies from, xs, head, ys
    ensures IsList(head, [entry] + ys)
    ensures from != head ==> IsList(from, xs[..i] + xs[i + 1..])
  {
    assert entry in [from] + xs;
    Detach(entry, from, xs, i);
    if from != head { RingUntouched([head] + ys); }
    label detached:
    ListAdd(entry, head, ys);
    if from != head {
      ghost var rest := [from] + (xs[..i] + xs[i + 1..]);
      assert forall x :: x in rest ==> x in [from] + xs;
      RingUntouched@detached(rest);
    }
  }

  method ListMoveTail(entry: ListHead, head: ListHead, ghost from: ListHead, ghost xs: seq<ListHead>, ghost i: nat,
                      ghost ys: seq<ListHead>)
    requires IsList(from, xs) && i < |xs| && xs[i] == entry
    requires if from == head then ys == xs[..i] + xs[i + 1..]
             else IsList(head, ys) && Apart([from] + xs, [head] + ys)
    modifies from, xs, head, ys
    ensures IsList(head, ys + [entry])
    ensures from != head ==> IsList(from, xs[..i] + xs[i + 1..])
  {
    assert entry in [from] + xs;
    Detach(entry, from, xs, i);
    if from != head { RingUntouched([head] + ys); }
    label detached:
    ListAddTail(entry, head, ys);
    if from != head {
      ghost var rest := [from] + (xs[..i] + xs[i + 1..]);
      assert forall x :: x in rest ==> x in [from] + xs;
      RingUntouched@detached(rest);
    }
  }

  // ----- cutting and splicing

  /** `list_cut_position`: the first `k` entries, up to `entry`, move to `list`; an entry equal to the
      head cuts nothing, and one that is not on a list of at most one entry leaves everything as it is. */
  method ListCutPosition(list: ListHead, head: ListHead, entry: ListHead, ghost xs: seq<ListHead>, ghost k: nat)
    requires IsList(head, xs) && list !in [head] + xs
    requires if entry in [head] + xs then k <= |xs| && entry == if k == 0 then head else xs[k - 1]
             else |xs| <= 1
    modifies list, head, xs
    ensures entry in [head] + xs ==> IsList(head, xs[k..]) && (xs != [] ==> IsList(list, xs[..k]))
    ensures entry !in [head] + xs ==> IsList(head, xs)
    ensures xs == [] || entry !in [head] + xs ==> list.next == old(list.next) && list.prev == old(list.prev)
  {
    EmptyMeans(head, xs);
    assert xs[..0] == [] && xs[0..] == xs;
    if ListEmpty(head) { return; }
    DistinctTail(head, xs);
    HeadNext(head, xs);
    if ListIsSingular(head) && head.next != entry && head != entry { return; }
    if entry == head {
      assert k == 0;
      InitListHead(list);
      RingUntouched([head] + xs);
    } else {
      assert k > 0;
      assert [head] + xs[..k] + xs[k..] == [head] + xs;
      Cut(list, head, entry, xs[..k], xs[k..]);
    }
  }

  lemma HeadNext(head: ListHead, xs: seq<ListHead>)
    requires IsList(head, xs) && xs != []
    ensures head.next == xs[0] && (|xs| == 1 ==> ListIsSingular(head))
    ensures |xs| == 1 ==> forall x :: x in [head] + xs <==> x == head || x == head.next
    ensures ListIsSingular(head) ==> |xs| == 1
  {
    assert JoinedAt([head] + xs, 0) && JoinedAt([head] + xs, |xs|);
    assert [head] + xs != [];
  }

  /** `list_splice`: the entries of `list` go in front; `list` itself is left behind. */
  method ListSplice(list: ListHead, head: ListHead, ghost ys: seq<ListHead>, ghost xs: seq<ListHead>)
    requires IsList(list, ys) && IsList(head, xs) && Apart([head] + xs, [list] + ys)
    modifies ys, head, xs
    ensures IsList(head, ys + xs)
    ensures list.next == old(list.next) && list.prev == old(list.prev)
  {
    EmptyMeans(list, ys);
    if !ListEmpty(list) {
      ghost var c := xs + [head];
      Turned([head], xs);
      Ends(c);
      forall x | x in c ensures x !in [list] + ys { assert x in [head] + xs; }
      assert head in c;
      DistinctTail(list, ys);
      Join(list, head, head.next, ys, c);
      assert xs + [head] + ys == xs + ([head] + ys);
      Turned(xs, [head] + ys);
      assert [head] + ys + xs == [head] + (ys + xs);
    } else {
      assert ys + xs == xs;
    }
  }

  method ListSpliceTail(list: ListHead, head: ListHead, ghost ys: seq<ListHead>, ghost xs: seq<ListHead>)
    requires IsList(list, ys) && IsList(head, xs) && Apart([head] + xs, [list] + ys)
    modifies ys, head, xs
    ensures IsList(head, xs + ys)
    ensures list.next == old(list.next) && list.prev == old(list.prev)
  {
    EmptyMeans(list, ys);
    if !ListEmpty(list) {
      ghost var c := [head] + xs;
      Ends(c);
      DistinctTail(list, ys);
      Join(list, head.prev, head, ys, c);
      assert [head] + xs + ys == [head] + (xs + ys);
    } else {
      assert xs + ys == xs;
    }
  }

  method ListSpliceInit(list: ListHead, head: ListHead, ghost ys: seq<ListHead>, ghost xs: seq<ListHead>)
    requires IsList(list, ys) && IsList(head, xs) && Apart([head] + xs, [list] + ys)
    modifies list, ys, head, xs
    ensures IsList(head, ys + xs) && IsList(list, [])
  {
    EmptyMeans(list, ys);
    if !ListEmpty(list) {
      ListSplice(list, head, ys, xs);
      label spliced:
      InitListHead(list);
      DistinctTail(list, ys);
      assert list in [list] + ys;
      assert list !in [head] + xs;
      RingUntouched@spliced([head] + (ys + xs));
    } else {
      assert ys + xs == xs;
    }
  }

  method ListSpliceTailInit(list: ListHead, head: ListHead, ghost ys: seq<ListHead>, ghost xs: seq<ListHead>)
    requires IsList(list, ys) && IsList(head, xs) && Apart([head] + xs, [list] + ys)
    modifies list, ys, head, xs
    ensures IsList(head, xs + ys) && IsList(list, [])
  {
    EmptyMeans(list, ys);
    if !ListEmpty(list) {
      ListSpliceTail(list, head, ys, xs);
      label spliced:
      InitListHead(list);
      DistinctTail(list, ys);
      assert list in [list] + ys;
      assert list !in [head] + xs;
      RingUntouched@spliced([head] + (xs + ys));
    } else {
      assert xs + ys == xs;
    }
  }

  /** Cutting a list and splicing the cut part back to the front restores it. */
  method CutThenSplice(list: ListHead, head: ListHead, entry: ListHead, ghost xs: seq<ListHead>, ghost k: nat)
    requires xs != [] && IsList(head, xs) && list !in [head] + xs
    requires k <= |xs| && entry == if k == 0 then head else xs[k - 1]
    modifies list, head, xs
    ensures IsList(head, xs) && IsList(list, [])
  {
    ListCutPosition(list, head, entry, xs, k);
    ghost var c := [head] + xs;
    forall x | x in [head] + xs[k..]
      ensures x !in [list] + xs[..k]
    {
      PartsApart(head, xs, k);
      assert x in c;
    }
    ListSpliceInit(list, head, xs[..k], xs[k..]);
    assert xs[..k] + xs[k..] == xs;
  }

  lemma PartsApart(head: ListHead, xs: seq<ListHead>, k: nat)
    requires Distinct([head] + xs) && k <= |xs|
    ensures Apart([head] + xs[k..], xs[..k])
  {
    var c := [head] + xs;
    forall x | x in [head] + xs[k..]
      ensures x !in xs[..k]
    {
      var i :| 0 <= i < |[head] + xs[k..]| && ([head] + xs[k..])[i] == x;
      var p := if i == 0 then 0 else k + i;
      assert c[p] == x;
      forall j | 0 <= j < k ensures xs[j] != x { assert c[j + 1] == xs[j]; }
    }
  }
}
