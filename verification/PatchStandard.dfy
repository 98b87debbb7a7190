/** JSON Patch as section 4 of RFC 6902 has it, on meanings and with names matched ignoring case, and exactly
    when the operations of the C code meet it. */
module PatchStandard {
  import opened Json
  import opened Numerals
  import opened Pointer
  import opened Patch
  import opened PatchMeaning
  import opened PatchMoves
  import opened PatchOutcome

  // ----- the standard

  /** An array index as section 4 of RFC 6901 writes it: digits without a leading zero. */
  predicate IsIndex(n: string) {
    n != [] && AllDigits(n) && (n[0] == '0' ==> |n| == 1)
  }

  ghost function StdChild(v: Val, n: string): Option<Val> {
    match v
    case VObject(m) => if LowerName(n) in m then Some(m[LowerName(n)]) else None
    case VArray(xs) => if IsIndex(n) && NumberOf(n) < |xs| then Some(xs[NumberOf(n)]) else None
    case _ => None
  }

  /** The value a pointer references. */
  ghost function StdValue(v: Val, ns: seq<string>): Option<Val> {
    if ns == [] then Some(v)
    else match StdChild(v, ns[0]) case None => None case Some(c) => StdValue(c, ns[1..])
  }

  ghost function StdPut(v: Val, n: string, c: Val): Val
    requires StdChild(v, n).Some?
  {
    match v
    case VObject(m) => VObject(m[LowerName(n) := c])
    case VArray(xs) => VArray(xs[NumberOf(n) := c])
  }

  /** Under an existing name of an object the value is replaced; into an array it is inserted, at an index
      not behind the end, or appended for "-". */
  ghost function AddTo(v: Val, n: string, x: Val): Option<Val> {
    match v
    case VObject(m) => Some(VObject(m[LowerName(n) := x]))
    case VArray(xs) =>
      if n == "-" then Some(VArray(xs + [x]))
      else if IsIndex(n) && NumberOf(n) <= |xs| then Some(VArray(xs[..NumberOf(n)] + [x] + xs[NumberOf(n)..]))
      else None
    case _ => None
  }

  ghost function RemoveFrom(v: Val, n: string): Option<Val> {
    if StdChild(v, n).None? then None
    else match v
      case VObject(m) => Some(VObject(m - {LowerName(n)}))
      case VArray(xs) => Some(VArray(xs[..NumberOf(n)] + xs[NumberOf(n) + 1..]))
  }

  ghost function ReplaceIn(v: Val, n: string, x: Val): Option<Val> {
    if StdChild(v, n).None? then None else Some(StdPut(v, n, x))
  }

  datatype Edit = Add(x: Val) | Remove | Replace(x: Val)

  ghost function EditIn(v: Val, n: string, e: Edit): Option<Val> {
    match e
    case Add(x) => AddTo(v, n, x)
    case Remove => RemoveFrom(v, n)
    case Replace(x) => ReplaceIn(v, n, x)
  }

  /** The whole value after the edit of what the path leads to; none is an error. */
  ghost function StdEdit(v: Val, ns: seq<string>, n: string, e: Edit): Option<Val>
    decreases ns
  {
    if ns == [] then EditIn(v, n, e)
    else match StdChild(v, ns[0])
      case None => None
      case Some(c) => match StdEdit(c, ns[1..], n, e) case None => None case Some(d) => Some(StdPut(v, ns[0], d))
  }

  /** The first path leads to the place of the second or above it. */
  ghost predicate Covers(fs: seq<string>, ns: seq<string>) {
    |fs| <= |ns| && forall i :: 0 <= i < |fs| ==> LowerName(fs[i]) == LowerName(ns[i])
  }

  /** Remove, then add elsewhere; not into itself. */
  ghost function StdMove(v: Val, fs: seq<string>, f: string, ns: seq<string>, n: string): Option<Val> {
    match StdValue(v, fs + [f])
    case None => None
    case Some(x) =>
      if Covers(fs + [f], ns) then None
      else match StdEdit(v, fs, f, Remove) case None => None case Some(w) => StdEdit(w, ns, n, Add(x))
  }

  ghost function StdCopy(v: Val, fs: seq<string>, ns: seq<string>, n: string): Option<Val> {
    match StdValue(v, fs) case None => None case Some(x) => StdEdit(v, ns, n, Add(x))
  }

  ghost function StdTest(v: Val, ns: seq<string>, x: Val): Option<Val> {
    if StdValue(v, ns) == Some(x) then Some(v) else None
  }

  // ----- what the C code is measured by

  /** Code 0 and the value, or an error code where the standard says error. */
  ghost predicate Meets(r: Applied, s: Option<Val>) {
    r.Applied? && match s case None => r.code != 0 case Some(w) => r.code == 0 && Meaning(r.doc) == w
  }

  /** Every token that is used on an array is an index. */
  ghost predicate PlainPath(v: Val, ns: seq<string>) {
    ns == [] || ((v.VArray? ==> IsIndex(ns[0])) && (Child(v, ns[0]).Some? ==> PlainPath(Child(v, ns[0]).value, ns[1..])))
  }

  lemma ChildIs(v: Val, n: string)
    ensures StdChild(v, n) == if v.VArray? && !IsIndex(n) then None else Child(v, n)
  {
    hide AllDigits, NumberOf, LowerName;
  }

  lemma {:induction false} ValueIsLookup(v: Val, ns: seq<string>)
    ensures StdValue(v, ns) == if Lookup(v, ns).Some? && PlainPath(v, ns) then Lookup(v, ns) else None
    decreases ns
  {
    hide IsIndex, AllDigits, NumberOf, LowerName;
    if ns != [] {
      ChildIs(v, ns[0]);
      if Child(v, ns[0]).Some? { ValueIsLookup(Child(v, ns[0]).value, ns[1..]); }
    }
  }

  ghost function PutThere(v: Val, ns: seq<string>, w: Val): Val
    requires Lookup(v, ns).Some?
  {
    LookupPath(v, ns);
    Put(v, Tokens(v, ns), w)
  }

  lemma PutHere(v: Val)
    ensures Lookup(v, []) == Some(v) && forall w :: PutThere(v, [], w) == w
  {
  }

  lemma PutThereBelow(v: Val, ns: seq<string>, w: Val)
    requires ns != [] && Lookup(v, ns).Some?
    ensures Child(v, ns[0]).Some? && Lookup(Child(v, ns[0]).value, ns[1..]).Some? && HasStep(v, TokenOf(v, ns[0]))
    ensures PutThere(v, ns, w) == PutStep(v, TokenOf(v, ns[0]), PutThere(Child(v, ns[0]).value, ns[1..], w))
  {
    LookupPath(v, ns);
    ChildStep(v, ns[0]);
    var ts := Tokens(v, ns);
    assert ts[0] == TokenOf(v, ns[0]) && ts[1..] == Tokens(Child(v, ns[0]).value, ns[1..]);
    LookupPath(Child(v, ns[0]).value, ns[1..]);
    hide AllDigits, NumberOf, LowerName, IsIndex;
  }

  lemma PutThereStep(v: Val, ns: seq<string>, w: Val)
    requires ns != [] && Lookup(v, ns).Some? && StdChild(v, ns[0]).Some?
    ensures Child(v, ns[0]).Some? && Lookup(Child(v, ns[0]).value, ns[1..]).Some?
    ensures PutThere(v, ns, w) == StdPut(v, ns[0], PutThere(Child(v, ns[0]).value, ns[1..], w))
  {
    hide AllDigits, NumberOf, LowerName, IsIndex, PutThere, Lookup;
    PutThereBelow(v, ns, w);
  }

  /** An edit of the standard, by the parent the C code finds. */
  lemma {:induction false} EditIsPut(v: Val, ns: seq<string>, n: string, e: Edit)
    ensures StdEdit(v, ns, n, e) ==
      if Lookup(v, ns).None? || !PlainPath(v, ns) then None
      else match EditIn(Lookup(v, ns).value, n, e) case None => None case Some(w) => Some(PutThere(v, ns, w))
    decreases ns
  {
    hide IsIndex, AllDigits, NumberOf, LowerName, EditIn, PutThere;
    if ns != [] { ChildIs(v, ns[0]); }
    if ns == [] {
      PutHere(v);
    } else if StdChild(v, ns[0]).Some? {
      var c := StdChild(v, ns[0]).value;
      assert Child(v, ns[0]) == Some(c) && Lookup(v, ns) == Lookup(c, ns[1..]);
      assert PlainPath(v, ns) <==> PlainPath(c, ns[1..]);
      EditIsPut(c, ns[1..], n, e);
      if Lookup(v, ns).Some? && EditIn(Lookup(v, ns).value, n, e).Some? {
        PutThereStep(v, ns, EditIn(Lookup(v, ns).value, n, e).value);
      }
    }
  }

  lemma IndexIsNumber(n: string)
    requires IsIndex(n)
    ensures Clamp(Atoi(n)) == NumberOf(n) && n != "-"
  {
    NumberRead(n);
    assert n[0] in n;
    hide ReadDigits, NumberOf;
  }

  // ----- exactly when the operations meet the standard

  /** Adding meets the standard: there is no such parent for either, or the parent is an object, or an array
      for which the name is "-" or an index not behind the end. */
  ghost predicate AddMeets(m: Val, ns: seq<string>, n: string) {
    match Lookup(m, ns)
    case None => true
    case Some(v) => PlainPath(m, ns) && (v.VObject? || (v.VArray? && (n == "-" || (IsIndex(n) && NumberOf(n) <= |v.items|))))
  }

  lemma AddAgrees(v: Val, n: string, x: Val)
    ensures AddTo(v, n, x) == if v.VObject? || (v.VArray? && (n == "-" || (IsIndex(n) && NumberOf(n) <= |v.items|)))
                              then Some(With(v, n, x)) else None
  {
    if IsIndex(n) { IndexIsNumber(n); }
    hide Atoi, AllDigits, NumberOf, LowerName, IsIndex;
    if v.VArray? { assert v.items[..|v.items|] + [x] + v.items[|v.items|..] == v.items + [x]; }
  }

  lemma PutInIs(m: Val, ns: seq<string>, n: string, x: Val)
    ensures PutIn(m, ns, n, x) == match Lookup(m, ns) case None => None case Some(v) => Some(PutThere(m, ns, With(v, n, x)))
    ensures AddMeets(m, ns, n) ==> StdEdit(m, ns, n, Add(x)) == PutIn(m, ns, n, x)
    ensures !AddMeets(m, ns, n) ==> StdEdit(m, ns, n, Add(x)) == None && PutIn(m, ns, n, x).Some?
  {
    EditIsPut(m, ns, n, Add(x));
    if Lookup(m, ns).Some? { AddAgrees(Lookup(m, ns).value, n, x); }
    hide Lookup, PlainPath, With, AddTo, StdEdit, IsIndex, NumberOf, Put, Tokens;
  }

  lemma EndsMeet(r: Applied, m: Val, ns: seq<string>, n: string, x: Val)
    requires EndsWith(r, m, ns, n, x)
    ensures Meets(r, PutIn(m, ns, n, x)) && r.Applied? && (r.code == 0 <==> Lookup(m, ns).Some?)
    ensures forall s :: Meets(r, s) && r.code == 0 ==> s.Some?
  {
    hide Lookup, Put, Tokens, With, Meaning, WellNamed;
  }

  /** "add" does what the standard says exactly if the parent is missing, or can take the value. */
  lemma AddIsStandard(doc: Json, patch: Json, ns: seq<string>, n: string, x: Json)
    requires WellNamed(doc) && WellNamed(x)
    requires IsOperation(patch, "add", NamePath(ns + [n])) && GetItem(patch, "value") == Some(x)
    ensures Meets(ApplyPatch(doc, patch), StdEdit(Meaning(doc), ns, n, Add(Meaning(x)))) <==> AddMeets(Meaning(doc), ns, n)
  {
    hide *;
    AddOutcome(doc, patch, ns, n, x);
    EndsMeet(ApplyPatch(doc, patch), Meaning(doc), ns, n, Meaning(x));
    PutInIs(Meaning(doc), ns, n, Meaning(x));
    NoneMeets(ApplyPatch(doc, patch));
  }

  lemma NoneMeets(r: Applied)
    ensures Meets(r, None) <==> r.Applied? && r.code != 0
  {
  }

  lemma {:induction false} ValueAppend(v: Val, ns: seq<string>, n: string)
    ensures StdValue(v, ns + [n]) == match StdValue(v, ns) case None => None case Some(p) => StdChild(p, n)
    decreases ns
  {
    hide StdChild;
    if ns == [] {
      assert ns + [n] == [n] && [n][1..] == [];
    } else {
      assert (ns + [n])[0] == ns[0] && (ns + [n])[1..] == ns[1..] + [n];
      if StdChild(v, ns[0]).Some? { ValueAppend(StdChild(v, ns[0]).value, ns[1..], n); }
    }
  }

  lemma RemoveAgrees(v: Val, n: string)
    ensures RemoveFrom(v, n) == if StdChild(v, n).Some? then Some(Rest(v, n)) else None
    ensures StdChild(v, n).Some? ==> Taken(v, n) == StdChild(v, n)
  {
    if IsIndex(n) { IndexIsNumber(n); }
    hide Atoi, AllDigits, NumberOf, LowerName, IsIndex;
  }

  lemma TakeOutIs(m: Val, ns: seq<string>, n: string)
    ensures TakeOut(m, ns, n) == match Lookup(m, ns) case None => m case Some(v) => PutThere(m, ns, Rest(v, n))
  {
    hide Lookup, Put, Tokens, Rest;
  }

  lemma RemovedIs(m: Val, ns: seq<string>, n: string)
    ensures StdEdit(m, ns, n, Remove) == if StdValue(m, ns + [n]).Some? then Some(TakeOut(m, ns, n)) else None
    ensures StdValue(m, ns + [n]).Some? ==> TakenAt(m, ns, n) == StdValue(m, ns + [n])
  {
    hide Lookup, PlainPath, PutThere, RemoveFrom, Rest, Taken, StdChild, StdEdit, StdValue, TakeOut;
    EditIsPut(m, ns, n, Remove);
    ValueIsLookup(m, ns);
    ValueAppend(m, ns, n);
    TakeOutIs(m, ns, n);
    if Lookup(m, ns).Some? { RemoveAgrees(Lookup(m, ns).value, n); }
  }

  lemma EndsMeets(r: Applied, m: Val)
    requires Ends(r, 0, m)
    ensures Meets(r, Some(m)) && !Meets(r, None)
  {
    hide Meaning, WellNamed;
  }

  lemma ErrorMeets(r: Applied, code: int, m: Val)
    requires Ends(r, code, m) && code != 0
    ensures Meets(r, None) && forall s :: Meets(r, s) ==> s == None
  {
    hide Meaning, WellNamed;
  }

  /** "remove" does what the standard says exactly if there is something to remove. */
  lemma RemoveIsStandard(doc: Json, patch: Json, ns: seq<string>, n: string)
    requires WellNamed(doc) && IsOperation(patch, "remove", NamePath(ns + [n]))
    ensures Meets(ApplyPatch(doc, patch), StdEdit(Meaning(doc), ns, n, Remove)) <==> StdValue(Meaning(doc), ns + [n]).Some?
  {
    hide *;
    RemoveOutcome(doc, patch, ns, n);
    EndsMeets(ApplyPatch(doc, patch), TakeOut(Meaning(doc), ns, n));
    RemovedIs(Meaning(doc), ns, n);
  }

  // ----- "replace"

  lemma {:induction false} PutThereTwice(v: Val, ns: seq<string>, w: Val, x: Val)
    requires Lookup(v, ns).Some?
    ensures Lookup(PutThere(v, ns, w), ns) == Some(w) && PutThere(PutThere(v, ns, w), ns, x) == PutThere(v, ns, x)
    decreases ns
  {
    if ns == [] {
      PutHere(v);
      PutHere(w);
    } else {
      var n, c := ns[0], Child(v, ns[0]).value;
      LookupStep(v, ns);
      PutThereBelow(v, ns, w);
      PutThereBelow(v, ns, x);
      var d := PutThere(c, ns[1..], w);
      hide PutThere, Lookup, AllDigits, NumberOf, LowerName;
      PutThereTwice(c, ns[1..], w, x);
      PutStepChild(v, n, d);
      LookupStep(PutStep(v, TokenOf(v, n), d), ns);
      PutThereBelow(PutStep(v, TokenOf(v, n), d), ns, x);
    }
  }

  lemma LookupStep(v: Val, ns: seq<string>)
    requires ns != []
    ensures Lookup(v, ns) == match Child(v, ns[0]) case None => None case Some(c) => Lookup(c, ns[1..])
    ensures Child(v, ns[0]).Some? ==> HasStep(v, TokenOf(v, ns[0]))
  {
    if Child(v, ns[0]).Some? { ChildStep(v, ns[0]); }
    hide AllDigits, NumberOf, LowerName;
  }

  lemma PutStepChild(v: Val, n: string, d: Val)
    requires Child(v, n).Some? && HasStep(v, TokenOf(v, n))
    ensures var u := PutStep(v, TokenOf(v, n), d);
      && Child(u, n) == Some(d) && TokenOf(u, n) == TokenOf(v, n) && HasStep(u, TokenOf(u, n))
      && forall x :: PutStep(u, TokenOf(u, n), x) == PutStep(v, TokenOf(v, n), x)
  {
    hide AllDigits, NumberOf, LowerName;
  }

  lemma ReplaceAgrees(v: Val, n: string, x: Val)
    requires StdChild(v, n).Some?
    ensures With(Rest(v, n), n, x) == StdPut(v, n, x)
  {
    if IsIndex(n) { IndexIsNumber(n); }
    match v {
      case VObject(m) => assert (m - {LowerName(n)})[LowerName(n) := x] == m[LowerName(n) := x];
      case VArray(xs) =>
        hide Atoi, AllDigits, NumberOf, IsIndex, Without;
        PutBackAt(xs, NumberOf(n), x);
      case _ =>
    }
    hide LowerName;
  }

  lemma PutBackAt(xs: seq<Val>, i: nat, x: Val)
    requires i < |xs|
    ensures var ys := Without(xs, i);
      |ys| == |xs| - 1 && xs[i := x] == if i < |ys| then ys[..i] + [x] + ys[i..] else ys + [x]
  {
  }

  lemma ReplacedIs(m: Val, ns: seq<string>, n: string, x: Val)
    ensures StdValue(m, ns + [n]).Some? ==> StdEdit(m, ns, n, Replace(x)) == PutIn(TakeOut(m, ns, n), ns, n, x)
    ensures StdValue(m, ns + [n]).None? ==> StdEdit(m, ns, n, Replace(x)) == None
    ensures Lookup(TakeOut(m, ns, n), ns).Some? <==> Lookup(m, ns).Some?
  {
    hide Lookup, PlainPath, PutThere, With, Rest, StdChild, StdEdit, StdValue, StdPut, TakeOut, PutIn;
    EditIsPut(m, ns, n, Replace(x));
    ValueIsLookup(m, ns);
    ValueAppend(m, ns, n);
    TakeOutIs(m, ns, n);
    PutInIs(TakeOut(m, ns, n), ns, n, x);
    if Lookup(m, ns).Some? {
      var v := Lookup(m, ns).value;
      PutThereTwice(m, ns, Rest(v, n), With(Rest(v, n), n, x));
      if StdChild(v, n).Some? { ReplaceAgrees(v, n, x); }
    }
  }

  /** "replace" does what the standard says exactly if there is something to replace, or no parent. */
  lemma ReplaceIsStandard(doc: Json, patch: Json, ns: seq<string>, n: string, x: Json)
    requires WellNamed(doc) && WellNamed(x)
    requires IsOperation(patch, "replace", NamePath(ns + [n])) && GetItem(patch, "value") == Some(x)
    ensures Meets(ApplyPatch(doc, patch), StdEdit(Meaning(doc), ns, n, Replace(Meaning(x)))) <==>
            Lookup(Meaning(doc), ns).None? || StdValue(Meaning(doc), ns + [n]).Some?
  {
    hide *;
    var m, r := Meaning(doc), ApplyPatch(doc, patch);
    ReplaceOutcome(doc, patch, ns, n, x);
    EndsMeet(r, TakeOut(m, ns, n), ns, n, Meaning(x));
    ReplacedIs(m, ns, n, Meaning(x));
    NoneMeets(r);
    ValueIsLookup(m, ns);
    ValueAppend(m, ns, n);
  }

  // ----- "move", "copy" and "test"

  /** "move" does what the standard says exactly if there is nothing to move for either; or the standard finds
      the value and it can be added to what is left; or the standard calls it an error, and the C code finds
      no parent once the value is taken out. */
  lemma MoveIsStandard(doc: Json, patch: Json, fs: seq<string>, f: string, ns: seq<string>, n: string)
    requires WellNamed(doc) && IsOperation(patch, "move", NamePath(ns + [n]))
    requires GetItem(patch, "from") == Some(String(NamePath(fs + [f])))
    ensures var m := Meaning(doc);
      Meets(ApplyPatch(doc, patch), StdMove(m, fs, f, ns, n)) <==>
        || TakenAt(m, fs, f).None?
        || if StdValue(m, fs + [f]).Some? && !Covers(fs + [f], ns) then AddMeets(TakeOut(m, fs, f), ns, n)
           else Lookup(TakeOut(m, fs, f), ns).None?
  {
    hide *;
    var m, r := Meaning(doc), ApplyPatch(doc, patch);
    MoveOutcome(doc, patch, fs, f, ns, n);
    RemovedIs(m, fs, f);
    MoveIsEdits(m, fs, f, ns, n);
    NoneMeets(r);
    if TakenAt(m, fs, f).Some? {
      var x := TakenAt(m, fs, f).value;
      EndsMeet(r, TakeOut(m, fs, f), ns, n, x);
      PutInIs(TakeOut(m, fs, f), ns, n, x);
    } else {
      ErrorMeets(r, 5, TakeOut(m, fs, f));
    }
  }

  lemma MoveIsEdits(m: Val, fs: seq<string>, f: string, ns: seq<string>, n: string)
    ensures StdMove(m, fs, f, ns, n) == match StdValue(m, fs + [f])
      case None => None
      case Some(x) =>
        if Covers(fs + [f], ns) then None
        else match StdEdit(m, fs, f, Remove) case None => None case Some(w) => StdEdit(w, ns, n, Add(x))
  {
    hide StdValue, StdEdit, Covers;
  }

  lemma CopyIsEdits(m: Val, fs: seq<string>, ns: seq<string>, n: string)
    ensures StdCopy(m, fs, ns, n) == match StdValue(m, fs) case None => None case Some(x) => StdEdit(m, ns, n, Add(x))
  {
    hide StdValue, StdEdit;
  }

  lemma CopyIsStandard(doc: Json, patch: Json, fs: seq<string>, ns: seq<string>, n: string)
    requires WellNamed(doc) && IsOperation(patch, "copy", NamePath(ns + [n]))
    requires GetItem(patch, "from") == Some(String(NamePath(fs)))
    ensures var m := Meaning(doc);
      Meets(ApplyPatch(doc, patch), StdCopy(m, fs, ns, n)) <==>
        || Lookup(m, fs).None?
        || if StdValue(m, fs).Some? then AddMeets(m, ns, n) else Lookup(m, ns).None?
  {
    hide *;
    var m, r := Meaning(doc), ApplyPatch(doc, patch);
    CopyOutcome(doc, patch, fs, ns, n);
    ValueIsLookup(m, fs);
    CopyIsEdits(m, fs, ns, n);
    NoneMeets(r);
    if Lookup(m, fs).Some? {
      var x := Lookup(m, fs).value;
      EndsMeet(r, m, ns, n, x);
      PutInIs(m, ns, n, x);
    } else {
      ErrorMeets(r, 5, m);
    }
  }

  /** "test" does what the standard says exactly if there is a value, and the standard finds it too or it is
      another one. */
  lemma TestIsStandard(doc: Json, patch: Json, ns: seq<string>, x: Json)
    requires WellNamed(doc) && WellNamed(x) && IsOperation(patch, "test", NamePath(ns)) && GetItem(patch, "value") == Some(x)
    ensures var m := Meaning(doc);
      Meets(ApplyPatch(doc, patch), StdTest(m, ns, Meaning(x))) <==>
        Lookup(m, ns).Some? && (StdValue(m, ns).Some? || Lookup(m, ns).value != Meaning(x))
  {
    var m, r := Meaning(doc), ApplyPatch(doc, patch);
    assert StdTest(m, ns, Meaning(x)) == if StdValue(m, ns) == Some(Meaning(x)) then Some(m) else None;
    hide *;
    TestOutcome(doc, patch, ns, x);
    ValueIsLookup(m, ns);
    NoneMeets(r);
    if Lookup(m, ns).Some? {
      if r.code == 0 { EndsMeets(r, m); } else { ErrorMeets(r, r.code, m); }
    }
  }

  // ----- the pointers the C code writes

  /** A printed number is an index of the standard, and written like a name. */
  lemma DigitsAreIndex(i: nat)
    ensures IsIndex(Digits(i)) && NumberOf(Digits(i)) == i && TokenText(Index(i)) == TokenText(Name(Digits(i)))
  {
    DigitsDecimal(i);
    DigitsAreDigits(i);
    EncodePlain(Digits(i));
    hide Digits, Decimal, Encode;
  }

  /** The way to a node, as names: indices written as numbers. */
  function NamesTo(v: Json, loc: Loc): (r: seq<string>)
    requires ValidLoc(v, loc)
    ensures |r| == |loc|
    decreases |loc|
  {
    if loc == [] then []
    else [if v.Object? then v.members[loc[0]].name else Digits(loc[0])] + NamesTo(Children(v)[loc[0]], loc[1..])
  }

  lemma {:induction false} PointerNames(v: Json, loc: Loc)
    requires ValidLoc(v, loc)
    ensures PointerTo(v, loc) == NamePath(NamesTo(v, loc))
    decreases |loc|
  {
    if loc == [] {
    } else {
      hide *;
      var child, ns, ts := Children(v)[loc[0]], NamesTo(v, loc), TokensTo(v, loc);
      OnTheWay(v, loc);
      NamesHead(v, loc);
      PointerNames(child, loc[1..]);
      DigitsAreIndex(loc[0]);
      PathHead(ts);
      NamePathIs(ns);
    }
  }

  lemma NamesHead(v: Json, loc: Loc)
    requires loc != [] && ValidLoc(v, loc)
    ensures var ns, child := NamesTo(v, loc), Children(v)[loc[0]];
      && ns != [] && ValidLoc(child, loc[1..]) && ns[1..] == NamesTo(child, loc[1..])
      && (v.Object? ==> loc[0] < |v.members| && ns[0] == v.members[loc[0]].name && v.members[loc[0]].item == child)
      && (v.Array? ==> loc[0] < |v.items| && ns[0] == Digits(loc[0]) && v.items[loc[0]] == child) && (v.Array? || v.Object?)
      && At(v, loc) == At(child, loc[1..])
  {
    assert NamesTo(v, loc)[1..] == NamesTo(Children(v)[loc[0]], loc[1..]);
    hide Digits;
  }

  lemma PathHead(ts: seq<Token>)
    requires ts != []
    ensures PathText(ts) == "/" + TokenText(ts[0]) + PathText(ts[1..])
  {
    hide TokenText;
  }

  lemma NamePathIs(ns: seq<string>)
    requires ns != []
    ensures NamePath(ns) == "/" + TokenText(Name(ns[0])) + NamePath(ns[1..])
  {
    assert Named(ns)[1..] == Named(ns[1..]) && Named(ns)[0] == Name(ns[0]);
    hide TokenText;
  }

  lemma NodeStep(v: Json, loc: Loc)
    requires WellNamed(v) && ValidLoc(v, loc) && loc != []
    ensures var child, n := Children(v)[loc[0]], NamesTo(v, loc)[0];
      && WellNamed(child) && ValidLoc(child, loc[1..]) && At(v, loc) == At(child, loc[1..])
      && NamesTo(v, loc)[1..] == NamesTo(child, loc[1..]) && StdChild(Meaning(v), n) == Some(Meaning(child))
  {
    hide *;
    NamesHead(v, loc);
    if v.Array? { ItemNamed(v.items, loc[0]); } else { MemberNamed(v.members, loc[0]); }
  }

  lemma ItemNamed(xs: seq<Json>, i: nat)
    requires WellNamed(Array(xs)) && i < |xs|
    ensures WellNamed(xs[i]) && StdChild(Meaning(Array(xs)), Digits(i)) == Some(Meaning(xs[i]))
  {
    hide *;
    ItemMeaning(xs, i);
    DigitsAreIndex(i);
    IndexedChild(Meanings(xs), Digits(i));
  }

  lemma ItemMeaning(xs: seq<Json>, i: nat)
    requires WellNamed(Array(xs)) && i < |xs|
    ensures WellNamed(xs[i]) && Meaning(Array(xs)) == VArray(Meanings(xs)) && Meanings(xs)[i] == Meaning(xs[i])
  {
    assert xs[i] in xs;
    hide Meanings;
  }

  lemma IndexedChild(vs: seq<Val>, n: string)
    requires IsIndex(n)
    ensures StdChild(VArray(vs), n) == if NumberOf(n) < |vs| then Some(vs[NumberOf(n)]) else None
  {
    hide IsIndex, NumberOf;
  }

  lemma MemberNamed(ms: seq<Entry<Json>>, i: nat)
    requires WellNamed(Object(ms)) && i < |ms|
    ensures WellNamed(ms[i].item) && StdChild(Meaning(Object(ms)), ms[i].name) == Some(Meaning(ms[i].item))
  {
    assert ms[i] in ms;
    FieldsOfDistinct(ms);
    assert Holds(Fields(ms), ms[i]);
    hide Fields, LowerName, DistinctNames;
  }

  lemma {:induction false} NamesReach(v: Json, loc: Loc)
    requires WellNamed(v) && ValidLoc(v, loc)
    ensures StdValue(Meaning(v), NamesTo(v, loc)) == Some(Meaning(At(v, loc)))
    decreases |loc|
  {
    if loc != [] {
      NodeStep(v, loc);
      NamesReach(Children(v)[loc[0]], loc[1..]);
      hide StdChild, Meaning, WellNamed, ValidLoc, At, NamesTo, Children;
    }
  }

  /** The pointer written for a node is one of the standard, and references the value of that node. */
  lemma PointerIsStandard(v: Json, loc: Loc) returns (ns: seq<string>)
    requires WellNamed(v) && ValidLoc(v, loc)
    ensures PointerTo(v, loc) == NamePath(ns) && StdValue(Meaning(v), ns) == Some(Meaning(At(v, loc)))
  {
    ns := NamesTo(v, loc);
    PointerNames(v, loc);
    NamesReach(v, loc);
  }
}
