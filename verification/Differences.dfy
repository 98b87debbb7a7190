/** Which code `cJSONUtils_Compare` returns: that of the first difference between what the two trees mean. */
module Differences {
  import opened Json
  import opened Sorting
  import opened Compare

  // ----- the order of names

  /** Dictionary order: a proper prefix, or smaller at the first place where they differ. */
  ghost predicate Precedes(a: string, b: string) {
    exists i :: FirstAt(a, b, i)
  }

  ghost predicate FirstAt(a: string, b: string, i: nat) {
    i <= |a| && i < |b| && a[..i] == b[..i] && (i == |a| || a[i] < b[i])
  }

  lemma FirstAtTail(a: string, b: string, i: nat)
    requires a != [] && b != [] && a[0] == b[0]
    ensures FirstAt(a, b, i + 1) <==> FirstAt(a[1..], b[1..], i)
  {
    if i < |a| && i + 1 < |b| {
      assert a[..i + 1] == [a[0]] + a[1..][..i] && b[..i + 1] == [b[0]] + b[1..][..i];
    }
  }

  lemma PrecedesTail(a: string, b: string)
    requires a != [] && b != [] && a[0] == b[0]
    ensures Precedes(a, b) <==> Precedes(a[1..], b[1..])
  {
    hide FirstAt;
    forall i: nat ensures FirstAt(a, b, i + 1) <==> FirstAt(a[1..], b[1..], i) { FirstAtTail(a, b, i); }
    NotAtZero(a, b);
    if i: nat :| FirstAt(a, b, i) { assert FirstAt(a[1..], b[1..], i - 1); }
    if i: nat :| FirstAt(a[1..], b[1..], i) { assert FirstAt(a, b, i + 1); }
  }

  lemma NotAtZero(a: string, b: string)
    requires a != [] && b != [] && a[0] == b[0]
    ensures !FirstAt(a, b, 0)
  {
  }

  lemma PrecedesHere(a: string, b: string)
    requires a == [] || b == [] || a[0] != b[0]
    ensures Precedes(a, b) <==> b != [] && (a == [] || a[0] < b[0])
  {
    if b != [] && (a == [] || a[0] < b[0]) { assert FirstAt(a, b, 0); }
    if i: nat :| FirstAt(a, b, i) && i > 0 { assert a[..i][0] == b[..i][0]; }
  }

  /** The comparison of names is dictionary order on their lower-case forms. */
  lemma {:induction false} CaseOrderIs(a: string, b: string)
    ensures CaseOrder(a, b) < 0 <==> Precedes(LowerName(a), LowerName(b))
  {
    var x, y := LowerName(a), LowerName(b);
    if a != [] { LowerNameHead(a); }
    if b != [] { LowerNameHead(b); }
    hide Precedes, LowerName;
    if a != [] && b != [] && Lower(a[0]) == Lower(b[0]) {
      CaseOrderIs(a[1..], b[1..]);
      PrecedesTail(x, y);
    } else {
      PrecedesHere(x, y);
    }
  }

  lemma {:induction false} PrecedesTotal(a: string, b: string)
    ensures a == b || Precedes(a, b) || Precedes(b, a)
    ensures Precedes(a, b) ==> a != b && !Precedes(b, a)
  {
    if a != [] && b != [] && a[0] == b[0] {
      PrecedesTotal(a[1..], b[1..]);
      assert a == [a[0]] + a[1..] && b == [b[0]] + b[1..];
      PrecedesTail(a, b);
      PrecedesTail(b, a);
    } else {
      PrecedesHere(a, b);
      PrecedesHere(b, a);
    }
    hide Precedes;
  }

  // ----- the first difference between two values

  predicate SameShape(v: Val, w: Val) {
    match v
    case VNull => w.VNull?
    case VFalse => w.VFalse?
    case VTrue => w.VTrue?
    case VNumber(_) => w.VNumber?
    case VString(_) => w.VString?
    case VArray(_) => w.VArray?
    case VObject(_) => w.VObject?
  }

  ghost predicate AgreeOn(f: map<string, Val>, g: map<string, Val>, n: string) {
    (n in f <==> n in g) && (n in f ==> f[n] == g[n])
  }

  ghost predicate AgreeBelow(f: map<string, Val>, g: map<string, Val>, k: string) {
    forall n: string | Precedes(n, k) :: AgreeOn(f, g, n)
  }

  ghost predicate HasBehind(f: map<string, Val>, k: string) {
    exists n: string :: n in f && Precedes(k, n)
  }

  /** -1 for different kinds, -2 for numbers, -3 for strings. In arrays the first items that differ decide, and -4
      stands for different lengths. In objects the first name on which they disagree does: -6 if one object does
      not have it but has a later one, -5 if it has none. */
  ghost predicate FirstDifference(v: Val, w: Val, code: int)
    decreases v, 1
  {
    if !SameShape(v, w) then code == -1
    else match v
      case VNumber(n) => n != w.n && code == -2
      case VString(s) => s != w.s && code == -3
      case VArray(xs) => exists i :: ItemDiffers(xs, w.items, i, code)
      case VObject(f) => exists k :: FieldDiffers(f, w.fields, k, code)
      case _ => false
  }

  ghost predicate ItemDiffers(xs: seq<Val>, ys: seq<Val>, i: nat, code: int)
    decreases xs, 0
  {
    && i <= |xs| && i <= |ys| && xs[..i] == ys[..i]
    && if i < |xs| && i < |ys| then xs[i] != ys[i] && FirstDifference(xs[i], ys[i], code)
       else |xs| != |ys| && code == -4
  }

  ghost predicate FieldDiffers(f: map<string, Val>, g: map<string, Val>, k: string, code: int)
    decreases VObject(f), 0
  {
    && AgreeBelow(f, g, k) && !AgreeOn(f, g, k)
    && if k in f && k in g then FirstDifference(f[k], g[k], code)
       else code == if HasBehind(if k in f then g else f, k) then -6 else -5
  }

  /** There is one at most, so the code is determined. */
  lemma {:induction false} DifferenceUnique(v: Val, w: Val, c: int, d: int)
    requires FirstDifference(v, w, c) && FirstDifference(v, w, d)
    ensures c == d && v != w
    decreases v
  {
    if SameShape(v, w) && v.VArray? {
      var i: nat :| ItemDiffers(v.items, w.items, i, c);
      var j: nat :| ItemDiffers(v.items, w.items, j, d);
      SamePlace(v.items, w.items, i, c, j, d);
      if i < |v.items| && i < |w.items| { DifferenceUnique(v.items[i], w.items[i], c, d); }
    } else if SameShape(v, w) && v.VObject? {
      var k :| FieldDiffers(v.fields, w.fields, k, c);
      var l :| FieldDiffers(v.fields, w.fields, l, d);
      PrecedesTotal(k, l);
      if k in v.fields && k in w.fields { DifferenceUnique(v.fields[k], w.fields[k], c, d); }
    }
  }

  lemma AgreeBefore(xs: seq<Val>, ys: seq<Val>, i: nat, j: nat)
    requires i < j <= |xs| && j <= |ys| && xs[..j] == ys[..j]
    ensures xs[i] == ys[i]
  {
    assert xs[..j][i] == ys[..j][i];
  }

  lemma SamePlace(xs: seq<Val>, ys: seq<Val>, i: nat, c: int, j: nat, d: int)
    requires ItemDiffers(xs, ys, i, c) && ItemDiffers(xs, ys, j, d)
    ensures i == j
  {
    hide FirstDifference;
    if i < j { AgreeBefore(xs, ys, i, j); }
    if j < i { AgreeBefore(xs, ys, j, i); }
  }

  // ----- the comparison returns it

  lemma ItemsLater(xs: seq<Val>, ys: seq<Val>, code: int)
    requires xs != [] && ys != [] && xs[0] == ys[0] && exists i :: ItemDiffers(xs[1..], ys[1..], i, code)
    ensures exists i :: ItemDiffers(xs, ys, i, code)
  {
    hide FirstDifference;
    var i: nat :| ItemDiffers(xs[1..], ys[1..], i, code);
    assert xs[..i + 1] == [xs[0]] + xs[1..][..i] && ys[..i + 1] == [ys[0]] + ys[1..][..i];
    assert ItemDiffers(xs, ys, i + 1, code);
  }

  lemma {:induction false} ItemsCode(xs: seq<Json>, ys: seq<Json>)
    requires (forall x | x in xs :: WellNamed(x)) && (forall y | y in ys :: WellNamed(y))
    requires CompareItems(xs, ys).code != 0
    ensures exists i :: ItemDiffers(Meanings(xs), Meanings(ys), i, CompareItems(xs, ys).code)
    decreases xs, 0, 0
  {
    if xs == [] || ys == [] {
      assert ItemDiffers(Meanings(xs), Meanings(ys), 0, -4);
    } else {
      MeaningsHead(xs);
      MeaningsHead(ys);
      var c := Comparison(xs[0], ys[0]).code;
      CompareDecidesMeaning(xs[0], ys[0]);
      hide Meaning, WellNamed, Comparison, FirstDifference;
      if c != 0 {
        CodeOfDifference(xs[0], ys[0]);
        assert ItemDiffers(Meanings(xs), Meanings(ys), 0, c);
      } else {
        ItemsCode(xs[1..], ys[1..]);
        ItemsLater(Meanings(xs), Meanings(ys), CompareItems(xs, ys).code);
      }
    }
  }

  /** A name before the first of a sorted list has nothing before it in the list. */
  lemma NoneBelow(es: seq<Entry<Json>>, z: string)
    requires StrictlyOrdered(es) && (es != [] ==> CaseOrder(z, es[0].name) <= 0)
    ensures forall n | n in Fields(es) :: !Precedes(n, LowerName(z))
  {
    FieldsHaveNames(es);
    forall n | n in Fields(es) ensures !Precedes(n, LowerName(z)) {
      assert HasName(es, n);
      var i :| 0 <= i < |es| && LowerName(es[i].name) == n;
      hide Fields, CaseOrder, LowerName, Precedes;
      var x := es[i].name;
      assert i > 0 ==> Before(es[0], es[i]);
      CaseOrderReversed(x, x);
      CaseOrderTransitive(z, es[0].name, x);
      CaseOrderReversed(z, x);
      CaseOrderIs(x, z);
    }
  }

  /** The heads of two sorted lists have different names, or one list is empty: the smaller head decides. */
  lemma HeadMissing(fs: seq<Entry<Json>>, ts: seq<Entry<Json>>)
    requires StrictlyOrdered(fs) && StrictlyOrdered(ts) && fs != [] && (ts != [] ==> CaseOrder(fs[0].name, ts[0].name) < 0)
    ensures var k, code := LowerName(fs[0].name), if ts == [] then -5 else -6;
      FieldDiffers(Fields(fs), Fields(ts), k, code) && FieldDiffers(Fields(ts), Fields(fs), k, code)
  {
    var x, f, g := fs[0].name, Fields(fs), Fields(ts);
    OrderedFields(fs);
    CaseOrderReversed(x, x);
    NoneBelow(fs, x);
    NoneBelow(ts, x);
    AbsentBefore(x, ts);
    if ts != [] {
      OrderedFields(ts);
      CaseOrderIs(x, ts[0].name);
      hide Fields, LowerName, CaseOrder, Precedes;
      assert HasBehind(g, LowerName(x));
    }
    hide Fields, LowerName, CaseOrder, Precedes;
  }

  lemma HeadsDiffer(fs: seq<Entry<Json>>, ts: seq<Entry<Json>>, code: int)
    requires StrictlyOrdered(fs) && StrictlyOrdered(ts) && fs != [] && ts != [] && CaseOrder(fs[0].name, ts[0].name) == 0
    requires Meaning(fs[0].item) != Meaning(ts[0].item) && FirstDifference(Meaning(fs[0].item), Meaning(ts[0].item), code)
    ensures FieldDiffers(Fields(fs), Fields(ts), LowerName(fs[0].name), code)
  {
    OrderedFields(fs);
    OrderedFields(ts);
    CaseOrderZero(fs[0].name, ts[0].name);
    CaseOrderReversed(fs[0].name, fs[0].name);
    NoneBelow(fs, fs[0].name);
    NoneBelow(ts, fs[0].name);
    hide Fields, LowerName, CaseOrder, Precedes, FirstDifference, Meaning;
  }

  /** Equal first members do not matter. */
  lemma HeadsAgree(fs: seq<Entry<Json>>, ts: seq<Entry<Json>>, code: int)
    requires StrictlyOrdered(fs) && StrictlyOrdered(ts) && fs != [] && ts != [] && CaseOrder(fs[0].name, ts[0].name) == 0
    requires Meaning(fs[0].item) == Meaning(ts[0].item)
    requires exists k :: FieldDiffers(Fields(fs[1..]), Fields(ts[1..]), k, code)
    ensures exists k :: FieldDiffers(Fields(fs), Fields(ts), k, code)
  {
    var h := LowerName(fs[0].name);
    var k :| FieldDiffers(Fields(fs[1..]), Fields(ts[1..]), k, code);
    OrderedFields(fs);
    OrderedFields(ts);
    CaseOrderZero(fs[0].name, ts[0].name);
    StrictlyOrderedTail(fs);
    StrictlyOrderedTail(ts);
    hide Fields, LowerName, CaseOrder, Precedes, FirstDifference, Meaning;
    var f, g := Fields(fs), Fields(ts);
    PrecedesTotal(h, k);
    CaseOrderReversed(fs[0].name, fs[0].name);
    NoneBelow(fs, fs[0].name);
    NoneBelow(ts, fs[0].name);
    forall n: string | Precedes(n, k) ensures AgreeOn(f, g, n) {
      if n != h { assert AgreeOn(Fields(fs[1..]), Fields(ts[1..]), n); }
    }
    assert FieldDiffers(f, g, k, code) by {
      assert HasBehind(f, k) <==> HasBehind(f - {h}, k);
      assert HasBehind(g, k) <==> HasBehind(g - {h}, k);
    }
  }

  lemma {:induction false} MembersCode(fs: seq<Entry<Json>>, ts: seq<Entry<Json>>, owner: Json)
    requires forall e | e in fs :: e.item < owner
    requires WellNamedMembers(fs) && WellNamedMembers(ts) && StrictlyOrdered(fs) && StrictlyOrdered(ts)
    requires CompareMembers(fs, ts, owner).code != 0
    ensures exists k :: FieldDiffers(Fields(fs), Fields(ts), k, CompareMembers(fs, ts, owner).code)
    decreases owner, 0, |fs|
  {
    hide *;
    MembersCompared(fs, ts, owner);
    if fs == [] || (ts != [] && CaseOrder(fs[0].name, ts[0].name) > 0) {
      if fs != [] { CaseOrderReversed(fs[0].name, ts[0].name); }
      HeadMissing(ts, fs);
    } else if ts == [] || CaseOrder(fs[0].name, ts[0].name) < 0 {
      HeadMissing(fs, ts);
    } else {
      WellNamedTail(fs);
      WellNamedTail(ts);
      StrictlyOrderedTail(fs);
      StrictlyOrderedTail(ts);
      CompareDecidesMeaning(fs[0].item, ts[0].item);
      var c := Comparison(fs[0].item, ts[0].item).code;
      if c != 0 {
        CodeOfDifference(fs[0].item, ts[0].item);
        HeadsDiffer(fs, ts, c);
      } else {
        MembersCode(fs[1..], ts[1..], owner);
        HeadsAgree(fs, ts, CompareMembers(fs, ts, owner).code);
      }
    }
  }

  lemma ScalarCode(a: Json, b: Json)
    requires !SameKind(a, b) || (!a.Array? && !a.Object?)
    requires Comparison(a, b).code != 0
    ensures FirstDifference(Meaning(a), Meaning(b), Comparison(a, b).code)
  {
  }

  lemma ArrayCode(a: Json, b: Json, code: int)
    requires a.Array? && b.Array? && exists i :: ItemDiffers(Meanings(a.items), Meanings(b.items), i, code)
    ensures FirstDifference(Meaning(a), Meaning(b), code)
  {
    hide ItemDiffers;
  }

  lemma ObjectCode(a: Json, b: Json, code: int)
    requires a.Object? && b.Object? && exists k :: FieldDiffers(Fields(a.members), Fields(b.members), k, code)
    ensures FirstDifference(Meaning(a), Meaning(b), code)
  {
    hide FieldDiffers, Fields;
  }

  /** The comparison returns the code of the first difference between the two meanings; 0 if there is none. */
  lemma {:induction false} CodeOfDifference(a: Json, b: Json)
    requires WellNamed(a) && WellNamed(b) && Comparison(a, b).code != 0
    ensures FirstDifference(Meaning(a), Meaning(b), Comparison(a, b).code)
    decreases a, 1, 0
  {
    if !SameKind(a, b) || (!a.Array? && !a.Object?) {
      ScalarCode(a, b);
    } else if a.Array? {
      ArrayParts(a, b);
      hide *;
      ItemsCode(a.items, b.items);
      ArrayCode(a, b, Comparison(a, b).code);
    } else {
      hide *;
      SortedObject(a);
      SortedObject(b);
      ObjectsCompared(a, b);
      MembersCode(Sort(a.members), Sort(b.members), a);
      ObjectCode(a, b, Comparison(a, b).code);
    }
  }

  lemma ArrayParts(a: Json, b: Json)
    requires a.Array? && b.Array? && WellNamed(a) && WellNamed(b)
    ensures Comparison(a, b).code == CompareItems(a.items, b.items).code
    ensures (forall x | x in a.items :: WellNamed(x)) && (forall y | y in b.items :: WellNamed(y))
  {
    hide CompareItems;
  }

  /** The code for two values. */
  ghost predicate CodeFor(v: Val, w: Val, code: int) {
    if v == w then code == 0 else FirstDifference(v, w, code)
  }

  /** For all trees with names distinct ignoring case the code depends on the two meanings only. */
  lemma ComparisonCode(a: Json, b: Json, code: int)
    requires WellNamed(a) && WellNamed(b)
    ensures Comparison(a, b).code == code <==> CodeFor(Meaning(a), Meaning(b), code)
  {
    hide FirstDifference, Meaning, WellNamed, Comparison;
    CompareDecidesMeaning(a, b);
    var c := Comparison(a, b).code;
    if c != 0 {
      CodeOfDifference(a, b);
      if FirstDifference(Meaning(a), Meaning(b), code) { DifferenceUnique(Meaning(a), Meaning(b), c, code); }
    }
  }
}
