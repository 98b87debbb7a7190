/** The merge sort that orders the members of an object (`cJSONUtils_SortList`), on sequences. */
module Sorting {
  import opened Json

  predicate Before<T>(a: Entry<T>, b: Entry<T>) {
    CaseOrder(a.name, b.name) < 0
  }

  /** The test that leaves a list untouched: every neighbour pair strictly ordered. */
  predicate AlreadySorted<T>(s: seq<Entry<T>>) {
    forall i :: 0 <= i < |s| - 1 ==> Before(s[i], s[i + 1])
  }

  /** On a tie the entry of the second list goes first, as in the C loop. */
  function Merge<T>(a: seq<Entry<T>>, b: seq<Entry<T>>): seq<Entry<T>>
    decreases |a| + |b|
  {
    if a == [] then b
    else if b == [] then a
    else if Before(a[0], b[0]) then [a[0]] + Merge(a[1..], b)
    else [b[0]] + Merge(a, b[1..])
  }

  function Middle(n: nat): nat {
    (n + 1) / 2
  }

  function Sort<T>(s: seq<Entry<T>>): seq<Entry<T>>
    decreases |s|
  {
    if |s| <= 1 || AlreadySorted(s) then s
    else Merge(Sort(s[..Middle(|s|)]), Sort(s[Middle(|s|)..]))
  }

  /** Two entries in the wrong order are exchanged. */
  lemma SortTwo<T>(es: seq<Entry<T>>)
    requires |es| == 2 && CaseOrder(es[0].name, es[1].name) > 0
    ensures Sort(es) == [es[1], es[0]]
  {
    var x, y := es[0], es[1];
    assert !AlreadySorted(es) by { assert !Before(es[0], es[1]); }
    assert es[..1] == [x] && es[1..] == [y];
    assert Merge([x], [y]) == [y] + Merge([x], []);
  }

  // ----- permutation

  lemma MultisetHead<T>(s: seq<T>)
    requires s != []
    ensures multiset(s) == multiset{s[0]} + multiset(s[1..])
  {
    assert s == [s[0]] + s[1..];
  }

  lemma {:induction false} MergePermutes<T>(a: seq<Entry<T>>, b: seq<Entry<T>>)
    ensures multiset(Merge(a, b)) == multiset(a) + multiset(b)
    decreases |a| + |b|
  {
    if a != [] && b != [] {
      hide Before;
      var r := Merge(a, b);
      MultisetHead(r);
      if Before(a[0], b[0]) {
        MergePermutes(a[1..], b);
        MultisetHead(a);
        assert r[1..] == Merge(a[1..], b);
      } else {
        MergePermutes(a, b[1..]);
        MultisetHead(b);
        assert r[1..] == Merge(a, b[1..]);
      }
    }
  }

  lemma MultisetHalves<T>(s: seq<T>, m: nat)
    requires m <= |s|
    ensures multiset(s) == multiset(s[..m]) + multiset(s[m..])
  {
    assert s == s[..m] + s[m..];
  }

  lemma {:induction false} SortPermutes<T>(s: seq<Entry<T>>)
    ensures multiset(Sort(s)) == multiset(s)
    decreases |s|
  {
    if |s| > 1 && !AlreadySorted(s) {
      var m := Middle(|s|);
      assert Sort(s) == Merge(Sort(s[..m]), Sort(s[m..]));
      hide Sort, Merge, Middle, AlreadySorted;
      SortPermutes(s[..m]);
      SortPermutes(s[m..]);
      MergePermutes(Sort(s[..m]), Sort(s[m..]));
      MultisetHalves(s, m);
    }
  }

  lemma SortKeepsMembers<T>(s: seq<Entry<T>>)
    ensures |Sort(s)| == |s|
    ensures forall e :: e in Sort(s) <==> e in s
  {
    SortPermutes(s);
    assert |multiset(Sort(s))| == |multiset(s)|;
    forall e
      ensures e in Sort(s) <==> e in s
    {
      assert e in Sort(s) <==> e in multiset(Sort(s));
      assert e in s <==> e in multiset(s);
    }
  }

  // ----- order

  ghost predicate Ordered<T>(s: seq<Entry<T>>) {
    forall i, j :: 0 <= i < j < |s| ==> CaseOrder(s[i].name, s[j].name) <= 0
  }

  ghost predicate StrictlyOrdered<T>(s: seq<Entry<T>>) {
    forall i, j :: 0 <= i < j < |s| ==> Before(s[i], s[j])
  }

  lemma {:induction false} NeighboursSuffice<T>(s: seq<Entry<T>>)
    requires AlreadySorted(s)
    ensures StrictlyOrdered(s)
  {
    if |s| > 1 {
      forall i | 0 <= i < |s[1..]| - 1
        ensures Before(s[1..][i], s[1..][i + 1])
      {
        assert Before(s[i + 1], s[i + 2]);
      }
      NeighboursSuffice(s[1..]);
      forall i, j | 0 <= i < j < |s|
        ensures Before(s[i], s[j])
      {
        if i > 0 {
          assert s[i] == s[1..][i - 1] && s[j] == s[1..][j - 1];
        } else if j > 1 {
          assert Before(s[0], s[1]);
          assert s[1] == s[1..][0] && s[j] == s[1..][j - 1];
          CaseOrderTransitive(s[0].name, s[1].name, s[j].name);
        }
      }
    }
  }

  /** No entry of `s` orders before `e`. */
  ghost predicate LowerBound<T>(e: Entry<T>, s: seq<Entry<T>>) {
    forall x :: x in s ==> CaseOrder(e.name, x.name) <= 0
  }

  lemma LeastFirst<T>(e: Entry<T>, s: seq<Entry<T>>)
    requires s != [] && Ordered(s) && CaseOrder(e.name, s[0].name) <= 0
    ensures LowerBound(e, s)
  {
    forall x | x in s
      ensures CaseOrder(e.name, x.name) <= 0
    {
      var i :| 0 <= i < |s| && s[i] == x;
      if i > 0 {
        CaseOrderTransitive(e.name, s[0].name, x.name);
      }
    }
  }

  lemma OrderedCons<T>(e: Entry<T>, s: seq<Entry<T>>)
    requires Ordered(s) && LowerBound(e, s)
    ensures Ordered([e] + s)
  {
  }

  lemma {:induction false} MergeLowerBound<T>(e: Entry<T>, a: seq<Entry<T>>, b: seq<Entry<T>>)
    requires LowerBound(e, a) && LowerBound(e, b)
    ensures LowerBound(e, Merge(a, b))
    decreases |a| + |b|
  {
    if a != [] && b != [] {
      if Before(a[0], b[0]) {
        MergeLowerBound(e, a[1..], b);
      } else {
        MergeLowerBound(e, a, b[1..]);
      }
    }
  }

  lemma MergeHead<T>(e: Entry<T>, s: seq<Entry<T>>, t: seq<Entry<T>>)
    requires s != [] && s[0] == e && Ordered(s) && Ordered(t)
    requires t != [] ==> CaseOrder(e.name, t[0].name) <= 0
    ensures Ordered(s[1..]) && LowerBound(e, s[1..]) && LowerBound(e, t)
  {
    if t != [] { LeastFirst(e, t); }
  }

  lemma {:induction false} MergeOrders<T>(a: seq<Entry<T>>, b: seq<Entry<T>>)
    requires Ordered(a) && Ordered(b)
    ensures Ordered(Merge(a, b))
    decreases |a| + |b|
  {
    if a != [] && b != [] {
      CaseOrderReversed(a[0].name, b[0].name);
      if Before(a[0], b[0]) {
        MergeHead(a[0], a, b);
        MergeOrders(a[1..], b);
        MergeLowerBound(a[0], a[1..], b);
        OrderedCons(a[0], Merge(a[1..], b));
      } else {
        MergeHead(b[0], b, a);
        MergeOrders(a, b[1..]);
        MergeLowerBound(b[0], a, b[1..]);
        OrderedCons(b[0], Merge(a, b[1..]));
      }
    }
  }

  /** The result is in non-decreasing order of the names, ignoring case. */
  lemma {:induction false} SortOrders<T>(s: seq<Entry<T>>)
    ensures Ordered(Sort(s))
    decreases |s|
  {
    if |s| > 1 {
      if AlreadySorted(s) {
        NeighboursSuffice(s);
      } else {
        var m := Middle(|s|);
        SortOrders(s[..m]);
        SortOrders(s[m..]);
        MergeOrders(Sort(s[..m]), Sort(s[m..]));
      }
    }
  }

  /** The first name orders strictly before every other one. */
  predicate FirstIsLeast<T>(s: seq<Entry<T>>) {
    forall i :: 0 < i < |s| ==> Before(s[0], s[i])
  }

  /** Entry `j` is the last of the least ones. */
  ghost predicate LastLeast<T>(s: seq<Entry<T>>, j: nat) {
    && j < |s|
    && (forall i :: 0 <= i < |s| ==> CaseOrder(s[j].name, s[i].name) <= 0)
    && (forall i :: j < i < |s| ==> Before(s[j], s[i]))
  }

  lemma LastLeastOfHalves<T>(a: seq<Entry<T>>, b: seq<Entry<T>>, j: nat, k: nat)
    requires LastLeast(a, j) && LastLeast(b, k)
    ensures LastLeast(a + b, if Before(a[j], b[k]) then j else |a| + k)
  {
    var s := a + b;
    CaseOrderReversed(a[j].name, b[k].name);
    var l := if Before(a[j], b[k]) then j else |a| + k;
    forall i | 0 <= i < |s|
      ensures CaseOrder(s[l].name, s[i].name) <= 0 && (l < i ==> Before(s[l], s[i]))
    {
      if i < |a| {
        assert s[i] == a[i];
        if l != j { CaseOrderTransitive(b[k].name, a[j].name, a[i].name); }
      } else {
        assert s[i] == b[i - |a|];
        if l == j { CaseOrderTransitive(a[j].name, b[k].name, s[i].name); }
      }
    }
  }

  lemma MergeFirst<T>(a: seq<Entry<T>>, b: seq<Entry<T>>)
    requires a != [] && b != []
    ensures Merge(a, b) != [] && Merge(a, b)[0] == if Before(a[0], b[0]) then a[0] else b[0]
  {
    hide Before;
  }

  /** Sorting puts a least entry first, and of several least ones the last. */
  lemma {:induction false} SortHead<T>(s: seq<Entry<T>>) returns (j: nat)
    requires s != []
    ensures LastLeast(s, j) && j < |s| && Sort(s) != [] && Sort(s)[0] == s[j]
    decreases |s|
  {
    hide *;
    if |s| == 1 || AlreadySorted(s) {
      j := 0;
      HeadOfSorted(s);
    } else {
      MiddleSplits(|s|);
      var m := Middle(|s|);
      var a, b := s[..m], s[m..];
      var ja := SortHead(a);
      var jb := SortHead(b);
      LastLeastOfHalves(a, b, ja, jb);
      HeadOfHalves(s, m);
      j := if Before(a[ja], b[jb]) then ja else m + jb;
    }
  }

  lemma HeadOfSorted<T>(s: seq<Entry<T>>)
    requires |s| == 1 || (s != [] && AlreadySorted(s))
    ensures LastLeast(s, 0) && Sort(s) == s
  {
    if |s| > 1 { NeighboursSuffice(s); }
    hide AlreadySorted;
    CaseOrderReversed(s[0].name, s[0].name);
  }

  lemma SortStep<T>(s: seq<Entry<T>>, m: nat)
    requires |s| > 1 && !AlreadySorted(s) && m == Middle(|s|) && 0 < m < |s|
    ensures Sort(s) == Merge(Sort(s[..m]), Sort(s[m..]))
  {
    hide AlreadySorted, Merge;
  }

  lemma HeadOfHalves<T>(s: seq<Entry<T>>, m: nat)
    requires |s| > 1 && !AlreadySorted(s) && m == Middle(|s|) && 0 < m < |s|
    requires Sort(s[..m]) != [] && Sort(s[m..]) != []
    ensures s == s[..m] + s[m..] && Sort(s) != []
    ensures Sort(s)[0] == if Before(Sort(s[..m])[0], Sort(s[m..])[0]) then Sort(s[..m])[0] else Sort(s[m..])[0]
  {
    hide *;
    assert s == s[..m] + s[m..];
    SortStep(s, m);
    MergeFirst(Sort(s[..m]), Sort(s[m..]));
  }

  /** Where all items differ, the first entry stays the first exactly if its name is the least one. */
  lemma FirstStays<T>(s: seq<Entry<T>>)
    requires s != [] && forall i, j :: 0 <= i < j < |s| ==> s[i].item != s[j].item
    ensures Sort(s) != [] && (Sort(s)[0].item == s[0].item <==> FirstIsLeast(s))
  {
    var j := SortHead(s);
    if j == 0 {
    } else {
      assert s[0].item != s[j].item;
      assert !Before(s[0], s[j]) by { CaseOrderReversed(s[0].name, s[j].name); }
    }
  }

  // ----- distinct names

  lemma TwiceInSeq<T>(s: seq<T>, i: nat, j: nat)
    requires i < j < |s| && s[i] == s[j]
    ensures multiset(s)[s[i]] >= 2
  {
    assert s == s[..j] + [s[j]] + s[j + 1..];
    assert s[i] in s[..j];
  }

  lemma TwoPositions<T>(s: seq<T>, x: T)
    requires multiset(s)[x] >= 2
    ensures exists i, j :: 0 <= i < j < |s| && s[i] == x && s[j] == x
  {
    assert x in multiset(s);
    var i :| 0 <= i < |s| && s[i] == x;
    assert s == s[..i] + [s[i]] + s[i + 1..];
    assert x in multiset(s[..i]) || x in multiset(s[i + 1..]);
    if x in s[..i] {
      var k :| 0 <= k < i && s[..i][k] == x;
      assert s[k] == x;
    } else {
      assert x in s[i + 1..];
      var k :| 0 <= k < |s[i + 1..]| && s[i + 1..][k] == x;
      assert s[i + 1 + k] == x;
    }
  }

  lemma DistinctPermutation<T>(s: seq<Entry<T>>, r: seq<Entry<T>>)
    requires DistinctNames(s) && multiset(r) == multiset(s)
    ensures DistinctNames(r)
  {
    forall i, j | 0 <= i < j < |r|
      ensures LowerName(r[i].name) != LowerName(r[j].name)
    {
      assert r[i] in multiset(r) && r[j] in multiset(r);
      assert r[i] in s && r[j] in s;
      if r[i] == r[j] {
        TwiceInSeq(r, i, j);
        TwoPositions(s, r[i]);
        assert false;
      }
      var i' :| 0 <= i' < |s| && s[i'] == r[i];
      var j' :| 0 <= j' < |s| && s[j'] == r[j];
    }
  }

  /** Sorting changes neither what an object means nor which names it has. */
  lemma SortKeepsFields(ms: seq<Entry<Json>>)
    requires DistinctNames(ms)
    ensures DistinctNames(Sort(ms))
    ensures Fields(Sort(ms)) == Fields(ms)
    ensures StrictlyOrdered(Sort(ms))
  {
    var r := Sort(ms);
    SortPermutes(ms);
    SortOrders(ms);
    SortKeepsMembers(ms);
    DistinctPermutation(ms, r);
    FieldsOfDistinct(ms);
    forall i | 0 <= i < |r|
      ensures Holds(Fields(ms), r[i])
    {
      assert r[i] in multiset(r);
      assert r[i] in ms;
      var j :| 0 <= j < |ms| && ms[j] == r[i];
      assert Holds(Fields(ms), ms[j]);
    }
    forall k | k in Fields(ms)
      ensures HasName(r, k)
    {
      assert HasName(ms, k);
      var j :| 0 <= j < |ms| && LowerName(ms[j].name) == k;
      assert ms[j] in multiset(ms);
      assert ms[j] in r;
    }
    FieldsUnique(r, Fields(ms));
    forall i, j | 0 <= i < j < |r|
      ensures Before(r[i], r[j])
    {
      CaseOrderZero(r[i].name, r[j].name);
    }
  }

  /** A name that orders before the first entry of an ordered list does not occur in it. */
  lemma AbsentBefore(name: string, s: seq<Entry<Json>>)
    requires Ordered(s) && (s != [] ==> CaseOrder(name, s[0].name) < 0)
    ensures LowerName(name) !in Fields(s)
  {
    FieldsLookup(s, name);
    var i := FindName(s, name);
    if i < |s| {
      CaseOrderZero(name, s[i].name);
      if i > 0 {
        CaseOrderTransitive(name, s[0].name, s[i].name);
      }
      assert false;
    }
  }

  lemma StrictlyOrderedTail<T>(s: seq<Entry<T>>)
    requires s != [] && StrictlyOrdered(s)
    ensures StrictlyOrdered(s[1..]) && Ordered(s[1..]) && Ordered(s)
    ensures s[1..] != [] ==> CaseOrder(s[0].name, s[1..][0].name) < 0
  {
  }

  /** The midpoint found by the two walking pointers cuts a list of two or more into
      two non-empty, strictly shorter lists. */
  lemma MiddleSplits(n: nat)
    requires n >= 2
    ensures 0 < Middle(n) < n && n - Middle(n) < n && Middle(n) - (n - Middle(n)) in {0, 1}
  {
  }

  // ----- sorting and finding do not look at the items

  function Mapped<T, U>(f: T -> U, s: seq<Entry<T>>): (r: seq<Entry<U>>)
    ensures |r| == |s| && forall i :: 0 <= i < |s| ==> r[i] == Entry(s[i].name, f(s[i].item))
  {
    seq(|s|, i requires 0 <= i < |s| => Entry(s[i].name, f(s[i].item)))
  }

  lemma MappedCons<T, U>(f: T -> U, e: Entry<T>, s: seq<Entry<T>>)
    ensures Mapped(f, [e] + s) == [Entry(e.name, f(e.item))] + Mapped(f, s)
  {
  }

  lemma MappedTail<T, U>(f: T -> U, s: seq<Entry<T>>)
    requires s != []
    ensures Mapped(f, s) != [] && Mapped(f, s)[1..] == Mapped(f, s[1..]) && Mapped(f, s)[0] == Entry(s[0].name, f(s[0].item))
  {
  }

  lemma MappedHalves<T, U>(f: T -> U, s: seq<Entry<T>>, m: nat)
    requires m <= |s|
    ensures Mapped(f, s)[..m] == Mapped(f, s[..m]) && Mapped(f, s)[m..] == Mapped(f, s[m..])
  {
  }

  lemma MergeUnfolds<T>(a: seq<Entry<T>>, b: seq<Entry<T>>)
    ensures Merge(a, b) ==
      if a == [] then b else if b == [] then a
      else if CaseOrder(a[0].name, b[0].name) < 0 then [a[0]] + Merge(a[1..], b)
      else [b[0]] + Merge(a, b[1..])
  {
    hide CaseOrder;
  }

  lemma {:induction false} MappedMerge<T, U>(f: T -> U, a: seq<Entry<T>>, b: seq<Entry<T>>)
    ensures Mapped(f, Merge(a, b)) == Merge(Mapped(f, a), Mapped(f, b))
    decreases |a| + |b|
  {
    hide *;
    MergeUnfolds(a, b);
    MergeUnfolds(Mapped(f, a), Mapped(f, b));
    if a != [] && b != [] {
      MappedTail(f, a);
      MappedTail(f, b);
      if CaseOrder(a[0].name, b[0].name) < 0 {
        MappedMerge(f, a[1..], b);
        MappedCons(f, a[0], Merge(a[1..], b));
      } else {
        MappedMerge(f, a, b[1..]);
        MappedCons(f, b[0], Merge(a, b[1..]));
      }
    }
  }

  lemma MappedOrder<T, U>(f: T -> U, s: seq<Entry<T>>)
    ensures AlreadySorted(Mapped(f, s)) <==> AlreadySorted(s)
    ensures FirstIsLeast(Mapped(f, s)) <==> FirstIsLeast(s)
  {
    hide CaseOrder;
    var r := Mapped(f, s);
    if AlreadySorted(r) {
      forall i | 0 <= i < |s| - 1 ensures Before(s[i], s[i + 1]) { assert Before(r[i], r[i + 1]); }
    }
    if FirstIsLeast(r) {
      forall i | 0 < i < |s| ensures Before(s[0], s[i]) { assert Before(r[0], r[i]); }
    }
  }

  /** Mapping the items commutes with sorting. */
  lemma {:induction false} MappedSort<T, U>(f: T -> U, s: seq<Entry<T>>)
    ensures Mapped(f, Sort(s)) == Sort(Mapped(f, s))
    decreases |s|
  {
    hide *;
    MappedOrder(f, s);
    if |s| > 1 && !AlreadySorted(s) {
      var m := Middle(|s|);
      MiddleSplits(|s|);
      SortStep(s, m);
      SortStep(Mapped(f, s), m);
      MappedHalves(f, s, m);
      MappedSort(f, s[..m]);
      MappedSort(f, s[m..]);
      MappedMerge(f, Sort(s[..m]), Sort(s[m..]));
    } else {
      SortedAlready(s);
      SortedAlready(Mapped(f, s));
    }
  }

  lemma SortedAlready<T>(s: seq<Entry<T>>)
    requires |s| <= 1 || AlreadySorted(s)
    ensures Sort(s) == s
  {
    hide AlreadySorted;
  }

  lemma {:induction false} MappedFind<T, U>(f: T -> U, s: seq<Entry<T>>, name: string)
    ensures FindName(Mapped(f, s), name) == FindName(s, name)
  {
    if s != [] {
      MappedTail(f, s);
      MappedFind(f, s[1..], name);
    }
  }

  lemma MappedWithout<T, U>(f: T -> U, s: seq<Entry<T>>, i: nat)
    requires i < |s|
    ensures Mapped(f, Without(s, i)) == Without(Mapped(f, s), i)
  {
    WithoutIndex(s, i);
    WithoutIndex(Mapped(f, s), i);
    hide Without;
  }

  // ----- entries with one name

  /** The entries whose name is `key` in lower case, in their order. */
  ghost function EntriesOf<T>(s: seq<Entry<T>>, key: string): seq<Entry<T>> {
    if s == [] then [] else (if LowerName(s[0].name) == key then [s[0]] else []) + EntriesOf(s[1..], key)
  }

  ghost function Reversed<T>(s: seq<T>): seq<T> {
    if s == [] then [] else Reversed(s[1..]) + [s[0]]
  }

  lemma {:induction false} EntriesAppend<T>(a: seq<Entry<T>>, b: seq<Entry<T>>, key: string)
    ensures EntriesOf(a + b, key) == EntriesOf(a, key) + EntriesOf(b, key)
  {
    hide *;
    if a == [] {
      assert a + b == b;
      EntriesOfNone<T>(key);
    } else {
      EntriesAppend(a[1..], b, key);
      ConsAppend(a, b);
      EntriesOfIs(a, key);
      EntriesOfIs(a + b, key);
      Regroup(if LowerName(a[0].name) == key then [a[0]] else [], EntriesOf(a[1..], key), EntriesOf(b, key));
    }
  }

  lemma ConsAppend<T>(a: seq<T>, b: seq<T>)
    requires a != []
    ensures (a + b)[0] == a[0] && (a + b)[1..] == a[1..] + b
  {
  }

  lemma Regroup<T>(a: seq<T>, b: seq<T>, c: seq<T>)
    ensures a + (b + c) == (a + b) + c
  {
  }

  lemma EntriesOfIs<T>(s: seq<Entry<T>>, key: string)
    requires s != []
    ensures EntriesOf(s, key) == (if LowerName(s[0].name) == key then [s[0]] else []) + EntriesOf(s[1..], key)
  {
    hide LowerName;
  }

  lemma {:induction false} ReversedAppend<T>(a: seq<T>, b: seq<T>)
    ensures Reversed(a + b) == Reversed(b) + Reversed(a)
  {
    if a == [] {
      assert a + b == b;
    } else {
      ReversedAppend(a[1..], b);
      assert (a + b)[1..] == a[1..] + b;
    }
  }

  /** Every name in the list is another one. */
  lemma {:induction false} NoneNamed<T>(s: seq<Entry<T>>, key: string)
    requires forall e | e in s :: LowerName(e.name) != key
    ensures EntriesOf(s, key) == []
  {
    hide LowerName;
    if s != [] { NoneNamed(s[1..], key); }
  }

  lemma BehindHead<T>(s: seq<Entry<T>>, e: Entry<T>)
    requires LowerBound(e, s) && forall x | x in s :: CaseOrder(e.name, x.name) != 0
    ensures EntriesOf(s, LowerName(e.name)) == []
  {
    forall x | x in s ensures LowerName(x.name) != LowerName(e.name) { CaseOrderZero(e.name, x.name); }
    NoneNamed(s, LowerName(e.name));
  }

  /** In front of both lists: the entries of the second list with its name are there first. */
  lemma {:induction false} MergeTies<T>(a: seq<Entry<T>>, b: seq<Entry<T>>, key: string)
    requires Ordered(a) && Ordered(b)
    ensures EntriesOf(Merge(a, b), key) == EntriesOf(b, key) + EntriesOf(a, key)
    decreases |a| + |b|
  {
    hide *;
    MergeIs(a, b);
    EntriesOfNone<T>(key);
    if a != [] && b != [] {
      CaseOrderReversed(a[0].name, b[0].name);
      EntriesOfIs(Merge(a, b), key);
      if Before(a[0], b[0]) {
        OrderedTails(a, a);
        MergeTies(a[1..], b, key);
        NoneBelowHead(a[0], b);
        EntriesOfIs(a, key);
      } else {
        OrderedTails(b, b);
        MergeTies(a, b[1..], key);
        EntriesOfIs(b, key);
      }
    }
  }

  lemma MergeIs<T>(a: seq<Entry<T>>, b: seq<Entry<T>>)
    ensures a == [] ==> Merge(a, b) == b
    ensures b == [] ==> Merge(a, b) == a
    ensures a != [] && b != [] ==> var m := Merge(a, b);
      m != [] && if Before(a[0], b[0]) then m[0] == a[0] && m[1..] == Merge(a[1..], b) && CaseOrder(a[0].name, b[0].name) < 0
                 else m[0] == b[0] && m[1..] == Merge(a, b[1..])
  {
    hide CaseOrder;
  }

  lemma EntriesOfNone<T>(key: string)
    ensures EntriesOf<T>([], key) == []
  {
  }

  lemma NoneBelowHead<T>(e: Entry<T>, b: seq<Entry<T>>)
    requires b != [] && Ordered(b) && CaseOrder(e.name, b[0].name) < 0
    ensures EntriesOf(b, LowerName(e.name)) == []
  {
    forall x | x in b ensures CaseOrder(e.name, x.name) < 0 {
      var i :| 0 <= i < |b| && b[i] == x;
      if i > 0 { CaseOrderTransitive(e.name, b[0].name, x.name); }
    }
    BehindHead(b, e);
  }

  lemma {:induction false} StrictTies<T>(s: seq<Entry<T>>, key: string)
    requires StrictlyOrdered(s)
    ensures |EntriesOf(s, key)| <= 1
  {
    if s != [] {
      StrictlyOrderedTail(s);
      StrictTies(s[1..], key);
      if s[1..] != [] { NoneBelowHead(s[0], s[1..]); }
      hide StrictlyOrdered, LowerName;
    }
  }

  lemma ReversedOne<T>(s: seq<T>)
    requires |s| <= 1
    ensures Reversed(s) == s
  {
  }

  lemma OneSorted<T>(s: seq<Entry<T>>)
    requires |s| <= 1 || AlreadySorted(s)
    ensures Sort(s) == s && StrictlyOrdered(s)
  {
    if |s| > 1 { NeighboursSuffice(s); }
    hide AlreadySorted;
  }

  /** Sorting turns entries with one name around. */
  lemma {:induction false} SortTies<T>(s: seq<Entry<T>>, key: string)
    ensures EntriesOf(Sort(s), key) == Reversed(EntriesOf(s, key))
    decreases |s|
  {
    hide *;
    if |s| <= 1 || AlreadySorted(s) {
      OneSorted(s);
      StrictTies(s, key);
      ReversedOne(EntriesOf(s, key));
    } else {
      MiddleSplits(|s|);
      var m := Middle(|s|);
      var a, b := s[..m], s[m..];
      SortStep(s, m);
      SortTies(a, key);
      SortTies(b, key);
      SortOrders(a);
      SortOrders(b);
      MergeTies(Sort(a), Sort(b), key);
      assert s == a + b;
      EntriesAppend(a, b, key);
      ReversedAppend(EntriesOf(a, key), EntriesOf(b, key));
    }
  }

  lemma EntriesOfHead<T>(s: seq<Entry<T>>, key: string)
    requires s != []
    ensures LowerName(s[0].name) != key ==> EntriesOf(s, key) == EntriesOf(s[1..], key)
    ensures LowerName(s[0].name) == key ==>
      EntriesOf(s, key) != [] && EntriesOf(s, key)[0] == s[0] && EntriesOf(s, key)[1..] == EntriesOf(s[1..], key)
  {
    hide LowerName;
  }

  lemma {:induction false} EntryFound<T>(s: seq<Entry<T>>, key: string) returns (i: nat)
    requires EntriesOf(s, key) != []
    ensures i < |s| && LowerName(s[i].name) == key
  {
    hide LowerName;
    if LowerName(s[0].name) == key {
      i := 0;
    } else {
      var k := EntryFound(s[1..], key);
      i := k + 1;
    }
  }

  /** The first name of an ordered list is at most that of any entry in it. */
  lemma HeadAtMost<T>(s: seq<Entry<T>>, t: seq<Entry<T>>)
    requires s != [] && Ordered(t) && EntriesOf(t, LowerName(s[0].name)) != []
    ensures t != [] && CaseOrder(t[0].name, s[0].name) <= 0
  {
    var i := EntryFound(t, LowerName(s[0].name));
    CaseOrderZero(t[i].name, s[0].name);
    hide LowerName, EntriesOf;
    if i > 0 { CaseOrderTransitive(t[0].name, t[i].name, s[0].name); }
  }

  /** An ordered list is determined by the entries it has under each name. */
  lemma {:induction false} OrderedUnique<T>(s: seq<Entry<T>>, t: seq<Entry<T>>)
    requires Ordered(s) && Ordered(t) && forall key: string :: EntriesOf(s, key) == EntriesOf(t, key)
    ensures s == t
    decreases |s|
  {
    hide *;
    if s == [] {
      EntriesNone(s, t);
    } else {
      HeadsEqual(s, t);
      OrderedTails(s, t);
      forall key: string ensures EntriesOf(s[1..], key) == EntriesOf(t[1..], key) {
        EntriesOfHead(s, key);
        EntriesOfHead(t, key);
      }
      OrderedUnique(s[1..], t[1..]);
      assert s == [s[0]] + s[1..] && t == [t[0]] + t[1..];
    }
  }

  lemma EntriesNone<T>(s: seq<Entry<T>>, t: seq<Entry<T>>)
    requires s == [] && forall key: string :: EntriesOf(s, key) == EntriesOf(t, key)
    ensures t == []
  {
    hide LowerName;
    if t != [] { EntriesOfHead(t, LowerName(t[0].name)); }
  }

  lemma OrderedTails<T>(s: seq<Entry<T>>, t: seq<Entry<T>>)
    requires s != [] && t != [] && Ordered(s) && Ordered(t)
    ensures Ordered(s[1..]) && Ordered(t[1..])
  {
  }

  lemma HeadsEqual<T>(s: seq<Entry<T>>, t: seq<Entry<T>>)
    requires s != [] && Ordered(s) && Ordered(t) && forall key: string :: EntriesOf(s, key) == EntriesOf(t, key)
    ensures t != [] && s[0] == t[0]
  {
    hide *;
    var k := LowerName(s[0].name);
    EntriesOfHead(s, k);
    HeadAtMost(s, t);
    EntriesOfHead(t, LowerName(t[0].name));
    HeadAtMost(t, s);
    CaseOrderReversed(s[0].name, t[0].name);
    CaseOrderZero(s[0].name, t[0].name);
    EntriesOfHead(t, k);
  }

  /** Under every name `r` has the entries of `s` in the opposite order. */
  ghost predicate TurnedAround<T>(s: seq<Entry<T>>, r: seq<Entry<T>>) {
    forall key: string :: EntriesOf(r, key) == Reversed(EntriesOf(s, key))
  }

  /** All that sorting does: the names in order, and the entries with one name turned around. */
  lemma SortIs<T>(s: seq<Entry<T>>, r: seq<Entry<T>>)
    ensures r == Sort(s) <==> Ordered(r) && TurnedAround(s, r)
  {
    hide *;
    SortOrders(s);
    SortTurns(s);
    if Ordered(r) && TurnedAround(s, r) {
      SameEntries(s, r, Sort(s));
      OrderedUnique(r, Sort(s));
    }
  }

  lemma SortTurns<T>(s: seq<Entry<T>>)
    ensures TurnedAround(s, Sort(s))
  {
    forall key: string ensures EntriesOf(Sort(s), key) == Reversed(EntriesOf(s, key)) { SortTies(s, key); }
    hide EntriesOf, Reversed, Sort;
  }

  lemma SameEntries<T>(s: seq<Entry<T>>, r: seq<Entry<T>>, t: seq<Entry<T>>)
    requires TurnedAround(s, r) && TurnedAround(s, t)
    ensures forall key: string :: EntriesOf(r, key) == EntriesOf(t, key)
  {
    hide EntriesOf, Reversed;
    forall key: string ensures EntriesOf(r, key) == EntriesOf(t, key) {
      assert EntriesOf(r, key) == Reversed(EntriesOf(s, key)) == EntriesOf(t, key);
    }
  }
}
