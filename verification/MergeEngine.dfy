/** Comparing, merging and generating merge patches as they run: loops over the members. */
module MergeEngine {
  import opened Json
  import opened Text
  import opened Sorting
  import opened Compare
  import opened PointerLoops
  import opened PatchEngine
  import opened MergeApply
  import opened MergeGenerate
  import opened CTrees

  // ----- comparing

  /** What was compared already, in front of what a comparison of the rest gives. */
  function After<T>(done: Compared<seq<T>>, r: Compared<seq<T>>): Compared<seq<T>> {
    Compared(r.code, done.a + r.a, done.b + r.b)
  }

  /** `cJSONUtils_Compare`, with both trees as the call leaves them. */
  method CompareTrees(a: Json, b: Json) returns (code: int, a1: Json, b1: Json)
    requires Printable(a) && Printable(b)
    ensures Comparison(a, b) == Compared(code, a1, b1)
    decreases a, 2
  {
    code, a1, b1 := 0, a, b;
    if !SameKind(a, b) { return -1, a, b; }
    match a {
      case Number(n) => if n != b.n { code := -2; }
      case String(s) => if s != b.s { code := -3; }
      case Array(xs) =>
        var xs1, ys1;
        code, xs1, ys1 := CompareArrays(xs, b.items);
        a1, b1 := Array(xs1), Array(ys1);
      case Object(ms) =>
        var fs1, ts1;
        code, fs1, ts1 := CompareObjects(ms, b.members, a);
        a1, b1 := Object(fs1), Object(ts1);
      case _ =>
    }
  }

  lemma CompareItemsStep(xs: seq<Json>, ys: seq<Json>, i: nat, done: Compared<seq<Json>>)
    requires i < |xs| && i < |ys|
    ensures var r := Comparison(xs[i], ys[i]);
      After(done, CompareItems(xs[i..], ys[i..])) ==
      if r.code != 0 then Compared(r.code, done.a + [r.a] + xs[i + 1..], done.b + [r.b] + ys[i + 1..])
      else After(Compared(0, done.a + [r.a], done.b + [r.b]), CompareItems(xs[i + 1..], ys[i + 1..]))
  {
    var r := Comparison(xs[i], ys[i]);
    assert xs[i..][1..] == xs[i + 1..] && ys[i..][1..] == ys[i + 1..];
    AfterOne(done, r.a, r.b, xs[i + 1..], ys[i + 1..]);
    var rest := CompareItems(xs[i + 1..], ys[i + 1..]);
    AfterOne(done, r.a, r.b, rest.a, rest.b);
  }

  lemma AfterOne<T>(done: Compared<seq<T>>, x: T, y: T, xs: seq<T>, ys: seq<T>)
    ensures done.a + ([x] + xs) == done.a + [x] + xs
    ensures done.b + ([y] + ys) == done.b + [y] + ys
  {
  }

  lemma CompareItemsEnd(xs: seq<Json>, ys: seq<Json>, i: nat, done: Compared<seq<Json>>)
    requires i <= |xs| && i <= |ys| && (i == |xs| || i == |ys|)
    ensures After(done, CompareItems(xs[i..], ys[i..]))
         == Compared(if i < |xs| || i < |ys| then -4 else 0, done.a + xs[i..], done.b + ys[i..])
  {
  }

  /** The loop over two arrays. */
  method CompareArrays(xs: seq<Json>, ys: seq<Json>) returns (code: int, xs1: seq<Json>, ys1: seq<Json>)
    requires Printable(Array(xs)) && Printable(Array(ys))
    ensures CompareItems(xs, ys) == Compared(code, xs1, ys1)
    decreases xs, 0
  {
    xs1, ys1 := [], [];
    assert xs[0..] == xs && ys[0..] == ys;
    AfterNothing(CompareItems(xs, ys));
    hide CompareItems, Comparison, After, Printable;
    var i := 0;
    while i < |xs| && i < |ys|
      invariant i <= |xs| && i <= |ys|
      invariant After(Compared(0, xs1, ys1), CompareItems(xs[i..], ys[i..])) == CompareItems(xs, ys)
    {
      CompareItemsStep(xs, ys, i, Compared(0, xs1, ys1));
      PatchArray.ItemHolds(xs, ys, i);
      var err, x, y := CompareTrees(xs[i], ys[i]);
      xs1, ys1 := xs1 + [x], ys1 + [y];
      i := i + 1;
      if err != 0 { return err, xs1 + xs[i..], ys1 + ys[i..]; }
    }
    CompareItemsEnd(xs, ys, i, Compared(0, xs1, ys1));
    code := if i < |xs| || i < |ys| then -4 else 0;
    xs1, ys1 := xs1 + xs[i..], ys1 + ys[i..];
  }

  lemma AfterNothing<T>(r: Compared<seq<T>>)
    ensures After(Compared(0, [], []), r) == r
  {
    assert [] + r.a == r.a && [] + r.b == r.b;
  }

  /** Two members compared: names first, then values. */
  ghost predicate PairCompared(f: Entry<Json>, t: Entry<Json>, code: int, f1: Entry<Json>, t1: Entry<Json>) {
    if CaseOrder(f.name, t.name) != 0 then code == -6 && f1 == f && t1 == t
    else
      var r := Comparison(f.item, t.item);
      code == r.code && f1 == f.(item := r.a) && t1 == t.(item := r.b)
  }

  /** Members of an object made of C strings, and their values inside it. */
  ghost predicate MembersOf(fs: seq<Entry<Json>>, ts: seq<Entry<Json>>, owner: Json) {
    && (forall e | e in fs :: NoNul(e.name) && Printable(e.item) && e.item < owner)
    && (forall e | e in ts :: NoNul(e.name) && Printable(e.item))
  }

  lemma PairOf(fs: seq<Entry<Json>>, ts: seq<Entry<Json>>, owner: Json, i: nat)
    requires MembersOf(fs, ts, owner) && i < |fs| && i < |ts|
    ensures NoNul(fs[i].name) && Printable(fs[i].item) && fs[i].item < owner && NoNul(ts[i].name) && Printable(ts[i].item)
  {
  }

  method ComparePair(f: Entry<Json>, t: Entry<Json>) returns (code: int, f1: Entry<Json>, t1: Entry<Json>)
    requires NoNul(f.name) && Printable(f.item) && NoNul(t.name) && Printable(t.item)
    ensures PairCompared(f, t, code, f1, t1)
    decreases f.item, 3
  {
    f1, t1 := f, t;
    var order := Strcasecmp(f.name, t.name);
    if order != 0 { return -6, f, t; }
    var x, y;
    code, x, y := CompareTrees(f.item, t.item);
    f1, t1 := f.(item := x), t.(item := y);
  }

  lemma CompareMembersStep(fs: seq<Entry<Json>>, ts: seq<Entry<Json>>, i: nat, owner: Json, done: Compared<seq<Entry<Json>>>,
                           code: int, f: Entry<Json>, t: Entry<Json>)
    requires forall e | e in fs :: e.item < owner
    requires i < |fs| && i < |ts| && PairCompared(fs[i], ts[i], code, f, t)
    ensures After(done, CompareMembers(fs[i..], ts[i..], owner)) ==
      if code != 0 then Compared(code, done.a + [f] + fs[i + 1..], done.b + [t] + ts[i + 1..])
      else After(Compared(0, done.a + [f], done.b + [t]), CompareMembers(fs[i + 1..], ts[i + 1..], owner))
  {
    assert fs[i..][0] == fs[i] && fs[i..][1..] == fs[i + 1..] && [fs[i]] + fs[i + 1..] == fs[i..];
    assert ts[i..][0] == ts[i] && ts[i..][1..] == ts[i + 1..] && [ts[i]] + ts[i + 1..] == ts[i..];
    hide CaseOrder, Comparison;
    AfterOne(done, f, t, fs[i + 1..], ts[i + 1..]);
    var rest := CompareMembers(fs[i + 1..], ts[i + 1..], owner);
    AfterOne(done, f, t, rest.a, rest.b);
  }

  lemma CompareMembersEnd(fs: seq<Entry<Json>>, ts: seq<Entry<Json>>, i: nat, owner: Json, done: Compared<seq<Entry<Json>>>)
    requires forall e | e in fs :: e.item < owner
    requires i <= |fs| && i <= |ts| && (i == |fs| || i == |ts|)
    ensures After(done, CompareMembers(fs[i..], ts[i..], owner))
         == Compared(if i < |fs| || i < |ts| then -5 else 0, done.a + fs[i..], done.b + ts[i..])
  {
  }

  /** The loop over the members of two sorted objects. */
  method CompareSorted(fs: seq<Entry<Json>>, ts: seq<Entry<Json>>, ghost owner: Json)
    returns (code: int, fs1: seq<Entry<Json>>, ts1: seq<Entry<Json>>)
    requires MembersOf(fs, ts, owner) && forall e | e in fs :: e.item < owner
    ensures CompareMembers(fs, ts, owner) == Compared(code, fs1, ts1)
    decreases owner, 0
  {
    hide *;
    fs1, ts1 := [], [];
    assert fs[0..] == fs && ts[0..] == ts;
    AfterNothing(CompareMembers(fs, ts, owner));
    var i := 0;
    while i < |fs| && i < |ts|
      invariant i <= |fs| && i <= |ts|
      invariant After(Compared(0, fs1, ts1), CompareMembers(fs[i..], ts[i..], owner)) == CompareMembers(fs, ts, owner)
    {
      PairOf(fs, ts, owner, i);
      var err, f, t := ComparePair(fs[i], ts[i]);
      CompareMembersStep(fs, ts, i, owner, Compared(0, fs1, ts1), err, f, t);
      fs1, ts1 := fs1 + [f], ts1 + [t];
      i := i + 1;
      if err != 0 { return err, fs1 + fs[i..], ts1 + ts[i..]; }
    }
    CompareMembersEnd(fs, ts, i, owner, Compared(0, fs1, ts1));
    code := if i < |fs| || i < |ts| then -5 else 0;
    fs1, ts1 := fs1 + fs[i..], ts1 + ts[i..];
  }

  /** Sorting two objects in place and comparing them. */
  method CompareObjects(ms: seq<Entry<Json>>, ns: seq<Entry<Json>>, ghost owner: Json)
    returns (code: int, fs1: seq<Entry<Json>>, ts1: seq<Entry<Json>>)
    requires owner == Object(ms) && Printable(owner) && Printable(Object(ns))
    ensures Comparison(owner, Object(ns)) == Compared(code, Object(fs1), Object(ts1))
    decreases owner, 1
  {
    SortKeepsMembers(ms);
    SortKeepsMembers(ns);
    hide Sort, CompareMembers;
    code, fs1, ts1 := CompareSorted(Sort(ms), Sort(ns), owner);
  }

  // ----- merging

  lemma MergeMembersStep(ms: seq<Entry<Json>>, ps: seq<Entry<Json>>, i: nat)
    requires i < |ps|
    ensures MergeMembers(ms, ps[i..]) == MergeMembers(MergeMember(ms, ps[i]), ps[i + 1..])
  {
    assert ps[i..][0] == ps[i] && ps[i..][1..] == ps[i + 1..];
  }

  lemma MembersEdited(ms: seq<Entry<Json>>, i: nat, e: Entry<Json>)
    requires Printable(Object(ms)) && NoNul(e.name) && Printable(e.item)
    ensures i < |ms| ==> Printable(Object(Without(ms, i))) && Printable(Object(Without(ms, i) + [e])) && Printable(ms[i].item)
    ensures Printable(Object(ms + [e]))
  {
    if i < |ms| { assert ms[i] in ms; }
  }

  /** `cJSONUtils_MergePatch`: the members of the target are deleted or detached, merged and appended. */
  method MergePatch(target: Option<Json>, patch: Json) returns (r: Json)
    requires Printable(patch) && (target.Some? ==> Printable(target.value))
    ensures r == Merged(target, patch) && Printable(r)
    decreases patch
  {
    if !patch.Object? { return patch; }
    var ms := if target.Some? && target.value.Object? then target.value.members else [];
    var ps, i := patch.members, 0;
    assert ps[0..] == ps;
    ghost var all := MergeMembers(ms, ps);
    while i < |ps|
      invariant i <= |ps| && Printable(Object(ms)) && MergeMembers(ms, ps[i..]) == all
    {
      MergeMembersStep(ms, ps, i);
      assert ps[i] in ps;
      ms := MergeOne(ms, ps[i]);
      i := i + 1;
    }
    r := Object(ms);
  }

  /** One member of the patch. */
  method MergeOne(ms0: seq<Entry<Json>>, p: Entry<Json>) returns (ms: seq<Entry<Json>>)
    requires Printable(Object(ms0)) && NoNul(p.name) && Printable(p.item)
    ensures ms == MergeMember(ms0, p) && Printable(Object(ms))
    decreases p
  {
    ms := ms0;
    var k := FindItem(ms, p.name);
    MembersEdited(ms, k, p);
    var replaceme := None;
    if k < |ms| {
      replaceme := Some(ms[k].item);
      ms := Without(ms, k);
    }
    if !p.item.Null? {
      var merged := MergePatch(replaceme, p.item);
      MembersEdited(ms, 0, Entry(p.name, merged));
      ms := ms + [Entry(p.name, merged)];
    }
  }

  // ----- generating

  /** What the members at the two cursors add, and what is left then. */
  lemma MergeDiffStep(done: seq<Entry<Json>>, fs: seq<Entry<Json>>, i: nat, ts: seq<Entry<Json>>, j: nat, h: nat, order: int)
    requires Bounded(fs, h)
    requires i <= |fs| && j <= |ts| && (i < |fs| || j < |ts|)
    requires order == if i == |fs| then 1 else if j == |ts| then -1 else ByteOrder(fs[i].name, ts[j].name)
    ensures order < 0 ==>
      done + MergeDiff(fs[i..], ts[j..], h) == done + [Entry(fs[i].name, Null)] + MergeDiff(fs[i + 1..], ts[j..], h)
    ensures order > 0 ==>
      done + MergeDiff(fs[i..], ts[j..], h) == done + [ts[j]] + MergeDiff(fs[i..], ts[j + 1..], h)
    ensures order == 0 ==>
      done + MergeDiff(fs[i..], ts[j..], h) == done + MemberDiff(fs[i], ts[j], h) + MergeDiff(fs[i + 1..], ts[j + 1..], h)
  {
    if i < |fs| { assert fs[i..][0] == fs[i] && fs[i..][1..] == fs[i + 1..]; }
    if j < |ts| { assert ts[j..][0] == ts[j] && ts[j..][1..] == ts[j + 1..]; }
    hide MemberDiff, ByteOrder;
  }

  /** `cJSONUtils_GenerateMergePatch`. */
  method GeneratePatch(from: Option<Json>, to: Option<Json>) returns (p: Option<Json>)
    requires (from.Some? ==> Printable(from.value)) && (to.Some? ==> Printable(to.value))
    ensures p == GenerateMergePatch(from, to)
    decreases if from.Some? then 1 + Height(from.value) else 0, 0
  {
    if to.None? { return Some(Null); }
    if !to.value.Object? || from.None? || !from.value.Object? { return to; }
    SortKeepsMembers(from.value.members);
    SortKeepsMembers(to.value.members);
    SortKeepsHeight(from.value.members);
    hide Sort, MergeDiff;
    var ms := GenerateMembers(Sort(from.value.members), Sort(to.value.members), Height(from.value));
    p := if ms == [] then None else Some(Object(ms));
  }

  /** The loop over the members of two sorted objects. */
  method GenerateMembers(fs: seq<Entry<Json>>, ts: seq<Entry<Json>>, ghost h: nat) returns (patch: seq<Entry<Json>>)
    requires Bounded(fs, h)
    requires forall e :: e in fs ==> Printable(e.item)
    requires forall e :: e in ts ==> Printable(e.item)
    ensures patch == MergeDiff(fs, ts, h)
    decreases h, 2
  {
    patch := [];
    var i, j := 0, 0;
    assert fs[0..] == fs && ts[0..] == ts;
    assert MergeDiff([], [], h) == [];
    hide *;
    while i < |fs| || j < |ts|
      invariant i <= |fs| && j <= |ts| && patch + MergeDiff(fs[i..], ts[j..], h) == MergeDiff(fs, ts, h)
      decreases |fs| - i + |ts| - j
    {
      var order := if i == |fs| then 1 else if j == |ts| then -1 else ByteOrder(fs[i].name, ts[j].name);
      MergeDiffStep(patch, fs, i, ts, j, h, order);
      if order < 0 {
        patch := patch + [Entry(fs[i].name, Null)];
        i := i + 1;
      } else if order > 0 {
        patch := patch + [ts[j]];
        j := j + 1;
      } else {
        var more := GenerateMember(fs[i], ts[j], h);
        patch := patch + more;
        i, j := i + 1, j + 1;
      }
    }
    assert patch + [] == patch;
  }

  /** A member both objects have: its patch, unless the values compare equal. */
  method GenerateMember(f: Entry<Json>, t: Entry<Json>, ghost h: nat) returns (more: seq<Entry<Json>>)
    requires Height(f.item) < h && Printable(f.item) && Printable(t.item)
    ensures more == MemberDiff(f, t, h)
    decreases h, 1
  {
    hide Comparison, GenerateMergePatch;
    var code, a, b := CompareTrees(f.item, t.item);
    if code == 0 { return []; }
    CompareKeepsHeight(f.item, t.item);
    ComparisonPrintable(f.item, t.item);
    var p := GeneratePatch(Some(a), Some(b));
    more := if p.Some? then [Entry(t.name, p.value)] else [];
  }
}
