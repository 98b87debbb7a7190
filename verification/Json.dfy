/** Value trees of cJSON, the names of their members, and what a tree means. */
module Json {

  datatype Option<+T> = None | Some(value: T)

  /** One node of an object's child chain: its `string` field and the node itself. */
  datatype Entry<+T> = Entry(name: string, item: T)

  /** The value a cJSON node stands for. Strings hold the bytes before the terminator. */
  datatype Json =
    | Null
    | False
    | True
    | Number(n: int)
    | String(s: string)
    | Array(items: seq<Json>)
    | Object(members: seq<Entry<Json>>)

  // ----- names: tolower and the case-insensitive comparison

  function Lower(c: char): char {
    if 'A' <= c <= 'Z' then (c as int + 32) as char else c
  }

  /** The 26 letters go to their small forms, in order, and every other character stays. */
  lemma LowerIs(c: char)
    ensures var i := c as int - 'A' as int;
      Lower(c) == if 0 <= i < 26 then "abcdefghijklmnopqrstuvwxyz"[i] else c
    ensures forall i :: 0 <= i < 26 ==> "ABCDEFGHIJKLMNOPQRSTUVWXYZ"[i] as int == 'A' as int + i
  {
  }

  function LowerName(s: string): string {
    seq(|s|, i requires 0 <= i < |s| => Lower(s[i]))
  }

  /** Sign of `strcasecmp`; the end of a string orders before every character. */
  function CaseOrder(a: string, b: string): (r: int)
    decreases |a|
  {
    if a == [] then (if b == [] then 0 else -1)
    else if b == [] then 1
    else if Lower(a[0]) < Lower(b[0]) then -1
    else if Lower(a[0]) > Lower(b[0]) then 1
    else CaseOrder(a[1..], b[1..])
  }

  lemma LowerNameHead(s: string)
    requires s != []
    ensures LowerName(s)[0] == Lower(s[0]) && LowerName(s)[1..] == LowerName(s[1..])
    ensures LowerName(s) == [Lower(s[0])] + LowerName(s[1..])
  {
  }

  lemma {:induction false} CaseOrderZero(a: string, b: string)
    ensures CaseOrder(a, b) == 0 <==> LowerName(a) == LowerName(b)
  {
    if a != [] && b != [] {
      CaseOrderZero(a[1..], b[1..]);
      LowerNameHead(a);
      LowerNameHead(b);
    } else {
      assert |LowerName(a)| == |a| && |LowerName(b)| == |b|;
    }
  }

  lemma {:induction false} CaseOrderReversed(a: string, b: string)
    ensures CaseOrder(a, b) == -CaseOrder(b, a)
    ensures CaseOrder(a, b) in {-1, 0, 1}
  {
    if a != [] && b != [] {
      CaseOrderReversed(a[1..], b[1..]);
    }
  }

  lemma {:induction false} CaseOrderTransitive(a: string, b: string, c: string)
    requires CaseOrder(a, b) <= 0 && CaseOrder(b, c) <= 0
    ensures CaseOrder(a, c) <= 0
    ensures CaseOrder(a, b) < 0 || CaseOrder(b, c) < 0 ==> CaseOrder(a, c) < 0
  {
    if a != [] && b != [] && c != [] && Lower(a[0]) == Lower(b[0]) == Lower(c[0]) {
      CaseOrderTransitive(a[1..], b[1..], c[1..]);
    }
  }

  /** Index of the first member whose name matches ignoring case, or the number of members. */
  function FindName<T>(es: seq<Entry<T>>, name: string): (r: nat)
    ensures r <= |es|
    ensures r < |es| ==> LowerName(es[r].name) == LowerName(name)
    ensures forall i :: 0 <= i < r ==> LowerName(es[i].name) != LowerName(name)
  {
    if es == [] then 0
    else
      CaseOrderZero(es[0].name, name);
      if CaseOrder(es[0].name, name) == 0 then 0 else 1 + FindName(es[1..], name)
  }

  ghost predicate DistinctNames<T>(es: seq<Entry<T>>) {
    forall i, j :: 0 <= i < j < |es| ==> LowerName(es[i].name) != LowerName(es[j].name)
  }

  /** Every object in the tree has names that differ even when case is ignored. */
  ghost predicate WellNamed(v: Json) {
    match v
    case Array(xs) => forall x | x in xs :: WellNamed(x)
    case Object(ms) => DistinctNames(ms) && forall e | e in ms :: WellNamed(e.item)
    case _ => true
  }

  // ----- meaning: member order and the case of names do not matter

  datatype Val =
    | VNull
    | VFalse
    | VTrue
    | VNumber(n: int)
    | VString(s: string)
    | VArray(items: seq<Val>)
    | VObject(fields: map<string, Val>)

  ghost function Meaning(v: Json): Val {
    match v
    case Null => VNull
    case False => VFalse
    case True => VTrue
    case Number(n) => VNumber(n)
    case String(s) => VString(s)
    case Array(xs) => VArray(Meanings(xs))
    case Object(ms) => VObject(Fields(ms))
  }

  ghost function Meanings(xs: seq<Json>): (r: seq<Val>)
    ensures |r| == |xs|
    ensures forall i :: 0 <= i < |xs| ==> r[i] == Meaning(xs[i])
  {
    seq(|xs|, i requires 0 <= i < |xs| => Meaning(xs[i]))
  }

  /** Lookup by name: an earlier member hides a later one with the same name. */
  ghost function Fields(ms: seq<Entry<Json>>): map<string, Val> {
    if ms == [] then map[]
    else Fields(ms[1..])[LowerName(ms[0].name) := Meaning(ms[0].item)]
  }

  lemma {:induction false} FieldsLookup(ms: seq<Entry<Json>>, name: string)
    ensures LowerName(name) in Fields(ms) <==> FindName(ms, name) < |ms|
    ensures FindName(ms, name) < |ms| ==>
              Fields(ms)[LowerName(name)] == Meaning(ms[FindName(ms, name)].item)
  {
    if ms != [] {
      FieldsLookup(ms[1..], name);
      CaseOrderZero(ms[0].name, name);
    }
  }

  /** `m` holds exactly the members of `ms`, each under its lower-case name. */
  ghost predicate Represents(ms: seq<Entry<Json>>, m: map<string, Val>) {
    && (forall i :: 0 <= i < |ms| ==> Holds(m, ms[i]))
    && (forall k :: k in m ==> HasName(ms, k))
  }

  ghost predicate Holds(m: map<string, Val>, e: Entry<Json>) {
    LowerName(e.name) in m && m[LowerName(e.name)] == Meaning(e.item)
  }

  ghost predicate HasName<T>(es: seq<Entry<T>>, key: string) {
    exists i :: 0 <= i < |es| && LowerName(es[i].name) == key
  }

  lemma {:induction false} FieldsHaveNames(ms: seq<Entry<Json>>)
    ensures forall k :: k in Fields(ms) ==> HasName(ms, k)
  {
    if ms != [] {
      FieldsHaveNames(ms[1..]);
      forall k | k in Fields(ms)
        ensures HasName(ms, k)
      {
        if k == LowerName(ms[0].name) {
        } else {
          assert HasName(ms[1..], k);
          var i :| 0 <= i < |ms[1..]| && LowerName(ms[1..][i].name) == k;
          assert ms[i + 1] == ms[1..][i];
        }
      }
    }
  }

  lemma FieldsOfDistinct(ms: seq<Entry<Json>>)
    requires DistinctNames(ms)
    ensures Represents(ms, Fields(ms))
  {
    FieldsHaveNames(ms);
    forall i | 0 <= i < |ms|
      ensures Holds(Fields(ms), ms[i])
    {
      FieldsLookup(ms, ms[i].name);
    }
  }

  lemma FieldsUnique(ms: seq<Entry<Json>>, m: map<string, Val>)
    requires DistinctNames(ms) && Represents(ms, m)
    ensures Fields(ms) == m
  {
    FieldsOfDistinct(ms);
    forall k | k in m
      ensures k in Fields(ms) && Fields(ms)[k] == m[k]
    {
      assert HasName(ms, k);
      var i :| 0 <= i < |ms| && LowerName(ms[i].name) == k;
      assert Holds(m, ms[i]) && Holds(Fields(ms), ms[i]);
    }
    forall k | k in Fields(ms)
      ensures k in m
    {
      assert HasName(ms, k);
      var i :| 0 <= i < |ms| && LowerName(ms[i].name) == k;
      assert Holds(m, ms[i]);
    }
    assert Fields(ms).Keys == m.Keys;
  }

  /** Where a walk that counts an index down to zero starts counting: a negative index is the first. */
  function Clamp(which: int): nat {
    if which > 0 then which else 0
  }

  // ----- edits of a member list and what they do to the meaning

  function Without<T>(s: seq<T>, i: nat): seq<T>
    requires i < |s|
  {
    s[..i] + s[i + 1..]
  }

  lemma WithoutIndex<T>(s: seq<T>, k: nat)
    requires k < |s|
    ensures |Without(s, k)| == |s| - 1
    ensures forall i :: 0 <= i < |s| - 1 ==> Without(s, k)[i] == s[if i < k then i else i + 1]
  {
  }

  lemma DistinctWithout<T>(es: seq<Entry<T>>, i: nat)
    requires i < |es| && DistinctNames(es)
    ensures DistinctNames(Without(es, i))
    ensures forall e | e in Without(es, i) :: e in es && LowerName(e.name) != LowerName(es[i].name)
  {
  }

  lemma NamesWithout(ms: seq<Entry<Json>>, i: nat, key: string)
    requires i < |ms| && HasName(ms, key) && key != LowerName(ms[i].name)
    ensures HasName(Without(ms, i), key)
  {
    hide LowerName;
    var j :| 0 <= j < |ms| && LowerName(ms[j].name) == key;
    assert ms[j] == Without(ms, i)[if j < i then j else j - 1];
  }

  lemma HoldsWithout(ms: seq<Entry<Json>>, i: nat, m: map<string, Val>, j: nat)
    requires i < |ms| && Represents(ms, m) && j < |Without(ms, i)|
    requires LowerName(Without(ms, i)[j].name) != LowerName(ms[i].name)
    ensures Holds(m - {LowerName(ms[i].name)}, Without(ms, i)[j])
  {
    var e := Without(ms, i)[j];
    assert e == ms[if j < i then j else j + 1];
    assert Holds(m, e);
    hide LowerName, Meaning;
  }

  lemma FieldsWithout(ms: seq<Entry<Json>>, i: nat)
    requires i < |ms| && DistinctNames(ms)
    ensures DistinctNames(Without(ms, i))
    ensures Fields(Without(ms, i)) == Fields(ms) - {LowerName(ms[i].name)}
  {
    var r := Without(ms, i);
    var m := Fields(ms) - {LowerName(ms[i].name)};
    DistinctWithout(ms, i);
    FieldsOfDistinct(ms);
    assert Represents(ms, Fields(ms));
    forall k | k in m ensures HasName(r, k) { NamesWithout(ms, i, k); }
    hide Fields, Without, DistinctNames, LowerName, HasName, Holds;
    forall j | 0 <= j < |r| ensures Holds(m, r[j]) {
      assert r[j] in r;
      HoldsWithout(ms, i, Fields(ms), j);
    }
    FieldsUnique(r, m);
  }

  lemma FieldsAppend(ms: seq<Entry<Json>>, e: Entry<Json>)
    requires DistinctNames(ms) && LowerName(e.name) !in Fields(ms)
    ensures DistinctNames(ms + [e])
    ensures Fields(ms + [e]) == Fields(ms)[LowerName(e.name) := Meaning(e.item)]
  {
    var r := ms + [e];
    var m := Fields(ms)[LowerName(e.name) := Meaning(e.item)];
    FieldsOfDistinct(ms);
    forall j | 0 <= j < |r|
      ensures Holds(m, r[j])
      ensures j < |ms| ==> LowerName(r[j].name) != LowerName(e.name)
    {
      if j < |ms| { assert Holds(Fields(ms), ms[j]); }
    }
    forall k | k in m
      ensures HasName(r, k)
    {
      if k == LowerName(e.name) {
        assert r[|ms|] == e;
      } else {
        assert HasName(ms, k);
        var j :| 0 <= j < |ms| && LowerName(ms[j].name) == k;
        assert r[j] == ms[j];
      }
    }
    FieldsUnique(r, m);
  }

  lemma FieldsUpdate(ms: seq<Entry<Json>>, i: nat, w: Json)
    requires i < |ms| && DistinctNames(ms)
    ensures DistinctNames(ms[i := ms[i].(item := w)])
    ensures Fields(ms[i := ms[i].(item := w)]) == Fields(ms)[LowerName(ms[i].name) := Meaning(w)]
  {
    var r := ms[i := ms[i].(item := w)];
    var m := Fields(ms)[LowerName(ms[i].name) := Meaning(w)];
    FieldsOfDistinct(ms);
    forall j | 0 <= j < |r|
      ensures Holds(m, r[j])
    {
      assert Holds(Fields(ms), ms[j]);
    }
    forall k | k in m
      ensures HasName(r, k)
    {
      if k == LowerName(ms[i].name) {
        assert r[i].name == ms[i].name;
      } else {
        assert HasName(ms, k);
        var j :| 0 <= j < |ms| && LowerName(ms[j].name) == k;
        assert r[j].name == ms[j].name;
      }
    }
    FieldsUnique(r, m);
  }

  /** The member list after the old entry was deleted and a new one added at the end. */
  function SetMember<T>(es: seq<Entry<T>>, e: Entry<T>): seq<Entry<T>> {
    var i := FindName(es, e.name);
    (if i < |es| then Without(es, i) else es) + [e]
  }

  lemma FieldsSetMember(ms: seq<Entry<Json>>, e: Entry<Json>)
    requires DistinctNames(ms)
    ensures DistinctNames(SetMember(ms, e))
    ensures Fields(SetMember(ms, e)) == Fields(ms)[LowerName(e.name) := Meaning(e.item)]
    ensures forall x :: x in SetMember(ms, e) ==> x == e || x in ms
  {
    var i := FindName(ms, e.name);
    FieldsLookup(ms, e.name);
    if i < |ms| {
      FieldsWithout(ms, i);
      FieldsAppend(Without(ms, i), e);
      assert (Fields(ms) - {LowerName(e.name)})[LowerName(e.name) := Meaning(e.item)]
          == Fields(ms)[LowerName(e.name) := Meaning(e.item)];
      DistinctWithout(ms, i);
    } else {
      FieldsAppend(ms, e);
    }
  }
}
