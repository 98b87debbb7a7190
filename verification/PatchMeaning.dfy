/** What paths and patch operations do to the meaning of a document. */
module PatchMeaning {
  import opened Json
  import opened Numerals
  import opened Pointer
  import opened Patch

  // ----- paths into a meaning

  ghost predicate HasStep(v: Val, t: Token) {
    match t
    case Name(n) => v.VObject? && LowerName(n) in v.fields
    case Index(i) => v.VArray? && i < |v.items|
    case End => false
  }

  ghost function Step(v: Val, t: Token): Val
    requires HasStep(v, t)
  {
    match t
    case Name(n) => v.fields[LowerName(n)]
    case Index(i) => v.items[i]
  }

  ghost function PutStep(v: Val, t: Token, w: Val): Val
    requires HasStep(v, t)
  {
    match t
    case Name(n) => VObject(v.fields[LowerName(n) := w])
    case Index(i) => VArray(v.items[i := w])
  }

  ghost predicate HasPath(v: Val, ts: seq<Token>) {
    ts == [] || (HasStep(v, ts[0]) && HasPath(Step(v, ts[0]), ts[1..]))
  }

  ghost function Get(v: Val, ts: seq<Token>): Val
    requires HasPath(v, ts)
  {
    if ts == [] then v else Get(Step(v, ts[0]), ts[1..])
  }

  ghost function Put(v: Val, ts: seq<Token>, w: Val): Val
    requires HasPath(v, ts)
  {
    if ts == [] then w else PutStep(v, ts[0], Put(Step(v, ts[0]), ts[1..], w))
  }

  lemma {:induction false} PutGet(v: Val, ts: seq<Token>, w: Val)
    requires HasPath(v, ts)
    ensures HasPath(Put(v, ts, w), ts)
    ensures Get(Put(v, ts, w), ts) == w
    ensures forall x :: Put(Put(v, ts, w), ts, x) == Put(v, ts, x)
  {
    if ts != [] {
      var c := Step(v, ts[0]);
      PutGet(c, ts[1..], w);
      var p := PutStep(v, ts[0], Put(c, ts[1..], w));
      assert Step(p, ts[0]) == Put(c, ts[1..], w);
      forall x
        ensures Put(p, ts, x) == Put(v, ts, x)
      {
        assert Put(Put(c, ts[1..], w), ts[1..], x) == Put(c, ts[1..], x);
      }
    }
  }

  lemma {:induction false} PutSame(v: Val, ts: seq<Token>)
    requires HasPath(v, ts)
    ensures Put(v, ts, Get(v, ts)) == v
  {
    if ts != [] {
      PutSame(Step(v, ts[0]), ts[1..]);
      match ts[0] {
        case Name(n) => assert v.fields[LowerName(n) := v.fields[LowerName(n)]] == v.fields;
        case Index(i) => assert v.items[i := v.items[i]] == v.items;
        case End =>
      }
    }
  }

  lemma {:induction false} PathAppend(v: Val, ts: seq<Token>, t: Token)
    requires HasPath(v, ts) && HasStep(Get(v, ts), t)
    ensures HasPath(v, ts + [t])
    ensures Get(v, ts + [t]) == Step(Get(v, ts), t)
    ensures forall w :: Put(v, ts + [t], w) == Put(v, ts, PutStep(Get(v, ts), t, w))
  {
    if ts == [] {
      assert ts + [t] == [t];
    } else {
      PathAppend(Step(v, ts[0]), ts[1..], t);
      assert (ts + [t])[1..] == ts[1..] + [t];
    }
  }

  // ----- resolving a path in the document reaches the node with that meaning

  /** The child a step leads to. */
  function StepIndex(v: Json, t: Token): nat {
    match t
    case Name(n) => if v.Object? then FindName(v.members, n) else 0
    case Index(i) => i
    case End => 0
  }

  lemma MeaningStep(v: Json, t: Token)
    requires WellNamed(v) && HasStep(Meaning(v), t)
    ensures StepIndex(v, t) < |Children(v)|
    ensures Meaning(Children(v)[StepIndex(v, t)]) == Step(Meaning(v), t)
    ensures WellNamed(Children(v)[StepIndex(v, t)])
    ensures (v.Array? && t.Index?) || (v.Object? && t.Name?)
  {
    match t {
      case Name(n) =>
        FieldsLookup(v.members, n);
        assert v.members[StepIndex(v, t)] in v.members;
      case Index(i) =>
        assert v.items[i] in v.items;
    }
  }

  lemma WithChildMeaning(v: Json, t: Token, w: Json)
    requires WellNamed(v) && HasStep(Meaning(v), t) && WellNamed(w)
    requires StepIndex(v, t) < |Children(v)|
    ensures WellNamed(WithChild(v, StepIndex(v, t), w))
    ensures Meaning(WithChild(v, StepIndex(v, t), w)) == PutStep(Meaning(v), t, Meaning(w))
  {
    match t {
      case Name(n) =>
        FieldsUpdate(v.members, StepIndex(v, t), w);
      case Index(i) =>
        assert Meanings(v.items[i := w]) == Meanings(v.items)[i := Meaning(w)];
    }
  }

  lemma ResolveChild(v: Json, ts: seq<Token>)
    requires ts != [] && WellNamed(v) && HasStep(Meaning(v), ts[0])
    ensures StepIndex(v, ts[0]) < |Children(v)|
    ensures Resolve(v, PathText(ts)) ==
            Under(StepIndex(v, ts[0]), Resolve(Children(v)[StepIndex(v, ts[0])], PathText(ts[1..])))
  {
    hide Resolve, Meaning, WellNamed, PathText;
    MeaningStep(v, ts[0]);
    ResolveStep(v, ts);
  }

  lemma {:induction false} ResolveMeaning(doc: Json, ts: seq<Token>)
    requires WellNamed(doc) && HasPath(Meaning(doc), ts)
    ensures Resolve(doc, PathText(ts)).Some?
    ensures ValidLoc(doc, Resolve(doc, PathText(ts)).value)
    ensures WellNamed(At(doc, Resolve(doc, PathText(ts)).value))
    ensures Meaning(At(doc, Resolve(doc, PathText(ts)).value)) == Get(Meaning(doc), ts)
    decreases |ts|
  {
    if ts != [] {
      hide Resolve, Meaning, WellNamed, PathText, HasStep, Step, Children;
      MeaningStep(doc, ts[0]);
      var k := StepIndex(doc, ts[0]);
      ResolveMeaning(Children(doc)[k], ts[1..]);
      ResolveChild(doc, ts);
      var inner := Resolve(Children(doc)[k], PathText(ts[1..])).value;
      assert ([k] + inner)[1..] == inner;
    }
  }

  lemma {:induction false} SetAtMeaning(doc: Json, ts: seq<Token>, w: Json)
    requires WellNamed(doc) && HasPath(Meaning(doc), ts) && WellNamed(w)
    requires Resolve(doc, PathText(ts)).Some? && ValidLoc(doc, Resolve(doc, PathText(ts)).value)
    ensures WellNamed(SetAt(doc, Resolve(doc, PathText(ts)).value, w))
    ensures Meaning(SetAt(doc, Resolve(doc, PathText(ts)).value, w)) == Put(Meaning(doc), ts, Meaning(w))
    decreases |ts|
  {
    if ts != [] {
      hide Resolve, Meaning, WellNamed, PathText, HasStep, Step, Children, WithChild;
      MeaningStep(doc, ts[0]);
      var k := StepIndex(doc, ts[0]);
      var child := Children(doc)[k];
      ResolveMeaning(child, ts[1..]);
      SetAtMeaning(child, ts[1..], w);
      ResolveChild(doc, ts);
      var inner := Resolve(child, PathText(ts[1..])).value;
      assert ([k] + inner)[1..] == inner;
      WithChildMeaning(doc, ts[0], SetAt(child, inner, w));
    }
  }

  // ----- reading back the path of an operation

  lemma {:induction false} LastSlashOf(parent: string, t: string)
    requires '/' !in t
    ensures LastSlash(parent + "/" + t) == Some(|parent|)
    decreases |t|
  {
    var s := parent + "/" + t;
    if t != [] {
      LastSlashOf(parent, t[..|t| - 1]);
      assert s[..|s| - 1] == parent + "/" + t[..|t| - 1];
      assert s[|s| - 1] == t[|t| - 1];
    }
  }

  lemma {:induction false} DecodePlain(s: string)
    requires '~' !in s
    ensures Decode(s) == Some(s)
  {
    if s != [] {
      DecodePlain(s[1..]);
      assert s == [s[0]] + s[1..];
    }
  }

  lemma {:induction false} EncodePlain(s: string)
    requires '~' !in s && '/' !in s
    ensures Encode(s) == s
  {
    if s != [] {
      EncodePlain(s[1..]);
      assert s == [s[0]] + s[1..];
    }
  }

  /** The last token as `childptr` holds it after decoding. */
  function ChildText(t: Token): string {
    match t
    case Name(n) => n
    case Index(i) => Digits(i)
    case End => "-"
  }

  lemma SplitPathText(ts: seq<Token>, t: Token)
    ensures SplitPath(PathText(ts + [t])) == Some((PathText(ts), ChildText(t)))
    ensures PathText(ts + [t]) == PathText(ts) + "/" + Encode(ChildText(t))
    ensures PathText(ts + [t]) == PathText(ts) + "/" + TokenText(t)
  {
    PathTextAppend(ts, t);
    SlashNotInToken(t);
    LastSlashOf(PathText(ts), TokenText(t));
    var path := PathText(ts + [t]);
    assert path[|PathText(ts)| + 1..] == TokenText(t);
    assert path[..|PathText(ts)|] == PathText(ts);
    match t {
      case Name(n) => DecodeEncode(n);
      case Index(i) =>
        DigitsAreDigits(i);
        assert '~' !in Digits(i) && '/' !in Digits(i);
        DecodePlain(Digits(i));
        EncodePlain(Digits(i));
      case End =>
        DecodePlain("-");
        EncodePlain("-");
    }
  }

  lemma PatchObjectItems(op: string, path: string, value: Option<Json>)
    ensures var p := PatchObject(op, path, value);
            && GetItem(p, "op") == Some(String(op))
            && GetItem(p, "path") == Some(String(path))
            && GetItem(p, "value") == value
  {
    var p := PatchObject(op, path, value);
    var ms := p.members;
    assert ms[0].name == "op" && ms[1].name == "path";
    assert |LowerName("op")| == 2 && |LowerName("path")| == 4 && |LowerName("value")| == 5;
    assert FindName(ms, "op") == 0;
    assert FindName(ms, "path") == 1;
    assert value.Some? ==> ms[2].name == "value";
    assert FindName(ms, "value") == 2;
  }

  // ----- one operation

  /** `doc'` is `doc` with the value at `ts` changed to `w`. */
  ghost predicate Changed(doc: Json, ts: seq<Token>, w: Val, r: Applied)
    requires HasPath(Meaning(doc), ts)
  {
    r.Applied? && r.code == 0 && WellNamed(r.doc) && Meaning(r.doc) == Put(Meaning(doc), ts, w)
  }

  /** What detaching the child `t` leaves of its parent. */
  ghost function Removed(v: Val, t: Token): Val {
    match v
    case VArray(xs) => if t.Index? && t.i < |xs| then VArray(Without(xs, t.i)) else v
    case VObject(m) => if t.Name? then VObject(m - {LowerName(t.name)}) else v
    case _ => v
  }

  ghost predicate Fits(v: Val, t: Token) {
    (v.VArray? && t.Index?) || (v.VObject? && t.Name?)
  }

  lemma DetachItemMeaning(xs: seq<Json>, i: nat)
    requires WellNamed(Array(xs)) && i < |xs|
    ensures WellNamed(Array(Without(xs, i))) && WellNamed(xs[i])
    ensures Meaning(Array(Without(xs, i))) == VArray(Without(Meanings(xs), i)) && Meaning(xs[i]) == Meanings(xs)[i]
  {
    MeaningsWithout(xs, i);
    assert xs[i] in xs;
    forall x | x in Without(xs, i) ensures WellNamed(x) { assert x in xs; }
    hide Meanings, Without;
  }

  lemma MeaningsWithout(xs: seq<Json>, i: nat)
    requires i < |xs|
    ensures Meanings(Without(xs, i)) == Without(Meanings(xs), i)
  {
    hide Meaning;
    var r, ws := Without(xs, i), Without(Meanings(xs), i);
    forall j | 0 <= j < |r| ensures Meanings(r)[j] == ws[j] {
      assert r[j] == xs[if j < i then j else j + 1];
    }
  }

  lemma DetachMemberMeaning(ms: seq<Entry<Json>>, i: nat)
    requires WellNamed(Object(ms)) && i < |ms|
    ensures WellNamed(Object(Without(ms, i))) && WellNamed(ms[i].item)
    ensures Meaning(Object(Without(ms, i))) == VObject(Fields(ms) - {LowerName(ms[i].name)})
  {
    FieldsWithout(ms, i);
    assert ms[i] in ms;
    forall e | e in Without(ms, i) ensures WellNamed(e.item) { assert e in ms; }
    hide LowerName;
  }

  lemma DetachChildMeaning(node: Json, t: Token)
    requires WellNamed(node) && Fits(Meaning(node), t)
    ensures var r := DetachChild(node, ChildText(t));
            && WellNamed(r.0) && Meaning(r.0) == Removed(Meaning(node), t)
            && (r.1.Some? <==> HasStep(Meaning(node), t))
            && (r.1.Some? ==> WellNamed(r.1.value) && Meaning(r.1.value) == Step(Meaning(node), t))
  {
    match node {
      case Array(xs) =>
        AtoiOfDigits(t.i);
        if t.i < |xs| { DetachItemMeaning(xs, t.i); }
      case Object(ms) =>
        FieldsLookup(ms, t.name);
        var i := FindName(ms, t.name);
        if i < |ms| {
          DetachMemberMeaning(ms, i);
        } else {
          assert Fields(ms) - {LowerName(t.name)} == Fields(ms);
        }
        hide Fields, LowerName, FindName, WellNamed, Without;
      case _ =>
    }
  }

  lemma PatchDetachMeaning(doc: Json, ts: seq<Token>, t: Token)
    requires WellNamed(doc) && HasPath(Meaning(doc), ts) && Fits(Get(Meaning(doc), ts), t)
    ensures var r := PatchDetach(doc, PathText(ts + [t]));
            && r.Detached?
            && WellNamed(r.doc) && Meaning(r.doc) == Put(Meaning(doc), ts, Removed(Get(Meaning(doc), ts), t))
            && (r.item.Some? <==> HasStep(Get(Meaning(doc), ts), t))
            && (r.item.Some? ==> WellNamed(r.item.value) && Meaning(r.item.value) == Step(Get(Meaning(doc), ts), t))
  {
    hide Resolve, SetAt, At, DetachChild, PathText, SplitPath, Meaning, WellNamed, Get, Put, Removed, HasStep, Step, Fits;
    SplitPathText(ts, t);
    ResolveMeaning(doc, ts);
    var node := At(doc, Resolve(doc, PathText(ts)).value);
    DetachChildMeaning(node, t);
    SetAtMeaning(doc, ts, DetachChild(node, ChildText(t)).0);
  }

  lemma RemoveMeaning(doc: Json, ts: seq<Token>, t: Token)
    requires WellNamed(doc) && HasPath(Meaning(doc), ts) && Fits(Get(Meaning(doc), ts), t)
    ensures Changed(doc, ts, Removed(Get(Meaning(doc), ts), t),
                    ApplyPatch(doc, PatchObject("remove", PathText(ts + [t]), None)))
  {
    PatchObjectItems("remove", PathText(ts + [t]), None);
    hide GetItem, PatchObject, PatchDetach, PathText;
    PatchDetachMeaning(doc, ts, t);
  }

  /** What putting `w` at `t` makes of the parent: an object member is set, an array item
      is inserted. */
  ghost function Added(v: Val, t: Token, w: Val): Val {
    match v
    case VArray(xs) => VArray(if t.Index? && t.i < |xs| then xs[..t.i] + [w] + xs[t.i..] else xs + [w])
    case VObject(m) => if t.Name? then VObject(m[LowerName(t.name) := w]) else v
    case _ => v
  }

  ghost predicate FitsAdd(v: Val, t: Token) {
    (v.VArray? && !t.Name?) || (v.VObject? && t.Name?)
  }

  lemma MeaningsInsert(xs: seq<Json>, i: nat, value: Json)
    requires i <= |xs|
    ensures Meanings(xs[..i] + [value] + xs[i..]) == Meanings(xs)[..i] + [Meaning(value)] + Meanings(xs)[i..]
    ensures forall x :: x in xs[..i] + [value] + xs[i..] ==> x == value || x in xs
  {
  }

  lemma InsertMeaning(xs: seq<Json>, t: Token, value: Json)
    requires !t.Name? && WellNamed(Array(xs)) && WellNamed(value)
    ensures WellNamed(AddChild(Array(xs), ChildText(t), value))
    ensures Meaning(AddChild(Array(xs), ChildText(t), value)) == Added(VArray(Meanings(xs)), t, Meaning(value))
  {
    var i := if t.Index? && t.i < |xs| then t.i else |xs|;
    if t.Index? {
      AtoiOfDigits(t.i);
      DigitsAreDigits(t.i);
      assert ChildText(t)[0] != '-';
    }
    hide Atoi, Digits, Meanings;
    var ms := Meanings(xs);
    assert ms[..|xs|] == ms && ms[|xs|..] == [];
    assert xs[..|xs|] == xs && xs[|xs|..] == [];
    MeaningsInsert(xs, i, value);
    assert AddChild(Array(xs), ChildText(t), value) == Array(xs[..i] + [value] + xs[i..]);
  }

  lemma SetMemberMeaning(ms: seq<Entry<Json>>, name: string, value: Json)
    requires WellNamed(Object(ms)) && WellNamed(value)
    ensures WellNamed(AddChild(Object(ms), name, value))
    ensures Meaning(AddChild(Object(ms), name, value)) == VObject(Fields(ms)[LowerName(name) := Meaning(value)])
  {
    assert AddChild(Object(ms), name, value) == Object(SetMember(ms, Entry(name, value)));
    hide AddChild, SetMember, Fields;
    FieldsSetMember(ms, Entry(name, value));
  }

  lemma AddChildMeaning(node: Json, t: Token, value: Json)
    requires WellNamed(node) && WellNamed(value) && FitsAdd(Meaning(node), t)
    ensures WellNamed(AddChild(node, ChildText(t), value))
    ensures Meaning(AddChild(node, ChildText(t), value)) == Added(Meaning(node), t, Meaning(value))
  {
    hide AddChild;
    match node {
      case Array(xs) => InsertMeaning(xs, t, value);
      case Object(ms) => SetMemberMeaning(ms, t.name, value);
      case _ =>
    }
  }

  lemma PatchAddMeaning(doc: Json, ts: seq<Token>, t: Token, value: Json)
    requires WellNamed(doc) && HasPath(Meaning(doc), ts)
    requires WellNamed(value) && FitsAdd(Get(Meaning(doc), ts), t)
    ensures Changed(doc, ts, Added(Get(Meaning(doc), ts), t, Meaning(value)),
                    PatchAdd(doc, PathText(ts + [t]), value))
  {
    hide Resolve, SetAt, At, AddChild, PathText, SplitPath, Meaning, WellNamed, Get, Put, Added, FitsAdd;
    SplitPathText(ts, t);
    ResolveMeaning(doc, ts);
    var node := At(doc, Resolve(doc, PathText(ts)).value);
    AddChildMeaning(node, t, value);
    SetAtMeaning(doc, ts, AddChild(node, ChildText(t), value));
  }

  lemma AddMeaning(doc: Json, ts: seq<Token>, t: Token, value: Json)
    requires WellNamed(doc) && HasPath(Meaning(doc), ts)
    requires WellNamed(value) && FitsAdd(Get(Meaning(doc), ts), t)
    ensures Changed(doc, ts, Added(Get(Meaning(doc), ts), t, Meaning(value)),
                    ApplyPatch(doc, PatchObject("add", PathText(ts + [t]), Some(value))))
  {
    PatchObjectItems("add", PathText(ts + [t]), Some(value));
    PatchAddMeaning(doc, ts, t, value);
  }

  lemma PutBack(s: seq<Val>, i: nat, w: Val)
    requires i < |s|
    ensures |Without(s, i)| == |s| - 1 && Without(s, i)[..i] + [w] + Without(s, i)[i..] == s[i := w]
  {
  }

  lemma AddedRemoved(v: Val, t: Token, w: Val)
    requires HasStep(v, t)
    ensures Fits(v, t) && FitsAdd(Removed(v, t), t)
    ensures Added(Removed(v, t), t, w) == PutStep(v, t, w)
  {
    match t {
      case Name(n) =>
        assert (v.fields - {LowerName(n)})[LowerName(n) := w] == v.fields[LowerName(n) := w];
        hide LowerName;
      case Index(i) =>
        PutBack(v.items, i, w);
        hide Without, Put;
    }
  }

  lemma ReplaceIs(doc: Json, path: string, value: Json)
    requires PatchDetach(doc, path).Detached?
    ensures ApplyPatch(doc, PatchObject("replace", path, Some(value))) == PatchAdd(PatchDetach(doc, path).doc, path, value)
  {
    PatchObjectItems("replace", path, Some(value));
    hide PatchDetach, PatchAdd, GetItem, PatchObject;
  }

  lemma ChangedInStep(doc: Json, doc': Json, ts: seq<Token>, t: Token, w: Val, r: Applied)
    requires HasPath(Meaning(doc), ts) && HasStep(Get(Meaning(doc), ts), t) && HasPath(Meaning(doc), ts + [t])
    requires Meaning(doc') == Put(Meaning(doc), ts, Removed(Get(Meaning(doc), ts), t)) && HasPath(Meaning(doc'), ts)
    requires Changed(doc', ts, Added(Removed(Get(Meaning(doc), ts), t), t, w), r)
    ensures Changed(doc, ts + [t], w, r)
  {
    AddedRemoved(Get(Meaning(doc), ts), t, w);
    PathAppend(Meaning(doc), ts, t);
    PutGet(Meaning(doc), ts, Removed(Get(Meaning(doc), ts), t));
    hide Meaning, WellNamed, Get, Put, HasPath, Added, Removed, PutStep, HasStep;
  }

  lemma ReplaceMeaning(doc: Json, ts: seq<Token>, t: Token, value: Json)
    requires WellNamed(doc) && WellNamed(value)
    requires HasPath(Meaning(doc), ts) && HasStep(Get(Meaning(doc), ts), t)
    ensures HasPath(Meaning(doc), ts + [t])
    ensures Changed(doc, ts + [t], Meaning(value),
                    ApplyPatch(doc, PatchObject("replace", PathText(ts + [t]), Some(value))))
  {
    hide *;
    AddedRemoved(Get(Meaning(doc), ts), t, Meaning(value));
    PatchDetachMeaning(doc, ts, t);
    PathAppend(Meaning(doc), ts, t);
    PutGet(Meaning(doc), ts, Removed(Get(Meaning(doc), ts), t));
    ReplaceIs(doc, PathText(ts + [t]), value);
    var doc' := PatchDetach(doc, PathText(ts + [t])).doc;
    PatchAddMeaning(doc', ts, t, value);
    ChangedInStep(doc, doc', ts, t, Meaning(value), PatchAdd(doc', PathText(ts + [t]), value));
  }
}
