/** What every operation does for every path, the codes of the failing ones included. Paths are lists
    of names, written with the escapes of section 3 of RFC 6901. */
module PatchOutcome {
  import opened Json
  import opened Numerals
  import opened Compare
  import opened Differences
  import opened Pointer
  import opened Patch
  import opened PatchMeaning
  import opened PatchMoves

  // ----- paths of names

  function Named(ns: seq<string>): (r: seq<Token>)
    ensures |r| == |ns| && forall i :: 0 <= i < |ns| ==> r[i] == Name(ns[i])
  {
    seq(|ns|, i requires 0 <= i < |ns| => Name(ns[i]))
  }

  function NamePath(ns: seq<string>): string {
    PathText(Named(ns))
  }

  function NumberOf(n: string): nat {
    if AllDigits(n) then Decimal(n) else 0
  }

  lemma NumberRead(n: string)
    requires AllDigits(n)
    ensures ReadDigits(n, 0) == (NumberOf(n), "")
  {
    ReadNumeral(n, 0, "");
    assert n + "" == n;
  }

  /** The child a name stands for: a member, or the item at an index; no digits are index 0. */
  ghost function Child(v: Val, n: string): Option<Val> {
    match v
    case VObject(m) => if LowerName(n) in m then Some(m[LowerName(n)]) else None
    case VArray(xs) => if AllDigits(n) && NumberOf(n) < |xs| then Some(xs[NumberOf(n)]) else None
    case _ => None
  }

  ghost function Lookup(v: Val, ns: seq<string>): Option<Val> {
    if ns == [] then Some(v)
    else match Child(v, ns[0]) case None => None case Some(c) => Lookup(c, ns[1..])
  }

  ghost function TokenOf(v: Val, n: string): Token {
    if v.VArray? then Index(NumberOf(n)) else Name(n)
  }

  /** The same path with the indices of array items. */
  ghost function Tokens(v: Val, ns: seq<string>): seq<Token>
    requires Lookup(v, ns).Some?
  {
    if ns == [] then [] else [TokenOf(v, ns[0])] + Tokens(Child(v, ns[0]).value, ns[1..])
  }

  lemma ChildStep(v: Val, n: string)
    requires Child(v, n).Some?
    ensures HasStep(v, TokenOf(v, n)) && Step(v, TokenOf(v, n)) == Child(v, n).value
  {
  }

  lemma {:induction false} LookupPath(v: Val, ns: seq<string>)
    requires Lookup(v, ns).Some?
    ensures HasPath(v, Tokens(v, ns)) && Get(v, Tokens(v, ns)) == Lookup(v, ns).value
    decreases ns
  {
    if ns != [] {
      ChildStep(v, ns[0]);
      LookupPath(Child(v, ns[0]).value, ns[1..]);
      var ts := Tokens(v, ns);
      assert ts[0] == TokenOf(v, ns[0]) && ts[1..] == Tokens(Child(v, ns[0]).value, ns[1..]);
    }
  }

  // ----- resolving

  lemma DigitsHead(n: string)
    requires n != []
    ensures AllDigits(n) <==> IsDigit(n[0]) && AllDigits(n[1..])
  {
    assert forall c :: c in n <==> c == n[0] || c in n[1..];
    hide IsDigit;
  }

  /** The digit loop ends at the end of a name exactly if the name is made of digits. */
  lemma {:induction false} ReadName(n: string, rest: string, acc: nat)
    requires EndsToken(rest)
    ensures var (v, r) := ReadDigits(Encode(n) + rest, acc);
      if AllDigits(n) then v == ReadDigits(n, acc).0 && r == rest else !EndsToken(r)
    decreases n
  {
    if n == [] {
      assert Encode(n) + rest == rest;
    } else {
      EncodeHead(n, rest);
      DigitsHead(n);
      hide Encode, AllDigits;
      if IsDigit(n[0]) { ReadName(n[1..], rest, 10 * acc + DigitValue(n[0])); }
    }
  }

  lemma NamePathHead(ns: seq<string>)
    requires ns != []
    ensures NamePath(ns) == "/" + (Encode(ns[0]) + NamePath(ns[1..])) && EndsToken(NamePath(ns[1..]))
    ensures NamePath(ns)[1..] == Encode(ns[0]) + NamePath(ns[1..])
  {
    assert Named(ns)[1..] == Named(ns[1..]) && Named(ns)[0] == Name(ns[0]);
    PathEndsToken(Named(ns[1..]));
    hide Named, Encode;
    assert NamePath(ns) == "/" + Encode(ns[0]) + NamePath(ns[1..]);
    hide *;
    assert ("/" + Encode(ns[0])) + NamePath(ns[1..]) == "/" + (Encode(ns[0]) + NamePath(ns[1..]));
  }

  /** One step of resolution along a path of names. */
  lemma ResolveName(v: Json, ns: seq<string>)
    requires ns != []
    ensures match v
      case Array(xs) =>
        Resolve(v, NamePath(ns)) ==
        if AllDigits(ns[0]) && NumberOf(ns[0]) < |xs|
        then Under(NumberOf(ns[0]), Resolve(xs[NumberOf(ns[0])], NamePath(ns[1..]))) else None
      case Object(ms) =>
        var k := FindName(ms, ns[0]);
        Resolve(v, NamePath(ns)) == if k < |ms| then Under(k, Resolve(ms[k].item, NamePath(ns[1..]))) else None
      case _ => Resolve(v, NamePath(ns)) == None
  {
    var rest := NamePath(ns[1..]);
    NamePathHead(ns);
    ReadName(ns[0], rest, 0);
    if AllDigits(ns[0]) { NumberRead(ns[0]); }
    if v.Object? { FindTokenOf(v.members, ns[0], rest); }
    SlashNotInToken(Name(ns[0]));
    DropTokenOf(Encode(ns[0]), rest);
    hide Encode, NamePath, AllDigits, ReadDigits, FindToken, FindName, DropToken;
  }

  lemma ChildIndex(v: Json, n: string)
    requires WellNamed(v)
    ensures Child(Meaning(v), n).Some? <==>
      (v.Object? && FindName(v.members, n) < |v.members|) || (v.Array? && AllDigits(n) && NumberOf(n) < |v.items|)
    ensures Child(Meaning(v), n).Some? ==>
      var k := StepIndex(v, TokenOf(Meaning(v), n));
      && k == (if v.Array? then NumberOf(n) else FindName(v.members, n)) && k < |Children(v)|
      && WellNamed(Children(v)[k]) && Meaning(Children(v)[k]) == Child(Meaning(v), n).value
  {
    if v.Object? { FieldsLookup(v.members, n); }
    if Child(Meaning(v), n).Some? {
      ChildStep(Meaning(v), n);
      MeaningStep(v, TokenOf(Meaning(v), n));
    }
  }

  /** A path leads to a node exactly if the value has one there; and then it leads where the path with
      its indices written plainly leads. */
  lemma {:induction false} ResolveExact(doc: Json, ns: seq<string>)
    requires WellNamed(doc)
    ensures Resolve(doc, NamePath(ns)).Some? <==> Lookup(Meaning(doc), ns).Some?
    ensures Lookup(Meaning(doc), ns).Some? ==> Resolve(doc, NamePath(ns)) == Resolve(doc, PathText(Tokens(Meaning(doc), ns)))
    decreases ns
  {
    if ns != [] {
      var m, n := Meaning(doc), ns[0];
      ResolveName(doc, ns);
      ChildIndex(doc, n);
      hide Resolve, Meaning, WellNamed, NamePath, PathText, AllDigits, FindName;
      if Child(m, n).Some? {
        var k := StepIndex(doc, TokenOf(m, n));
        ResolveExact(Children(doc)[k], ns[1..]);
        if Lookup(m, ns).Some? {
          var ts := Tokens(m, ns);
          assert ts[0] == TokenOf(m, n) && ts[1..] == Tokens(Child(m, n).value, ns[1..]);
          ChildStep(m, n);
          ResolveChild(doc, ts);
        }
      }
    }
  }

  /** The place a path leads to. */
  lemma Found(doc: Json, ns: seq<string>)
    requires WellNamed(doc) && Lookup(Meaning(doc), ns).Some?
    ensures var m, r := Meaning(doc), Resolve(doc, NamePath(ns));
      && r.Some? && ValidLoc(doc, r.value) && r == Resolve(doc, PathText(Tokens(m, ns)))
      && HasPath(m, Tokens(m, ns)) && Get(m, Tokens(m, ns)) == Lookup(m, ns).value
      && WellNamed(At(doc, r.value)) && Meaning(At(doc, r.value)) == Lookup(m, ns).value
  {
    hide *;
    ResolveExact(doc, ns);
    LookupPath(Meaning(doc), ns);
    ResolveMeaning(doc, Tokens(Meaning(doc), ns));
  }

  lemma SplitNames(ns: seq<string>, n: string)
    ensures SplitPath(NamePath(ns + [n])) == Some((NamePath(ns), n))
  {
    assert Named(ns + [n]) == Named(ns) + [Name(n)];
    SplitPathText(Named(ns), Name(n));
    hide SplitPath, PathText;
  }

  // ----- putting a value in, and taking one out

  /** What adding `x` under the name `n` makes of a value; scalars stay as they are. */
  ghost function With(v: Val, n: string, x: Val): Val {
    match v
    case VObject(m) => VObject(m[LowerName(n) := x])
    case VArray(xs) =>
      var i := Clamp(Atoi(n));
      VArray(if n != "-" && i < |xs| then xs[..i] + [x] + xs[i..] else xs + [x])
    case _ => v
  }

  /** What is taken out under the name `n`; a name that is no number is index 0 here. */
  ghost function Taken(v: Val, n: string): Option<Val> {
    match v
    case VObject(m) => if LowerName(n) in m then Some(m[LowerName(n)]) else None
    case VArray(xs) => var i := Clamp(Atoi(n)); if i < |xs| then Some(xs[i]) else None
    case _ => None
  }

  ghost function Rest(v: Val, n: string): Val {
    match v
    case VObject(m) => VObject(m - {LowerName(n)})
    case VArray(xs) => var i := Clamp(Atoi(n)); VArray(if i < |xs| then Without(xs, i) else xs)
    case _ => v
  }

  lemma WithItem(xs: seq<Json>, n: string, x: Json)
    requires WellNamed(Array(xs)) && WellNamed(x)
    ensures WellNamed(AddChild(Array(xs), n, x))
    ensures Meaning(AddChild(Array(xs), n, x)) == With(Meaning(Array(xs)), n, Meaning(x))
  {
    var i := Clamp(Atoi(n));
    var k := if n != "-" && i < |xs| then i else |xs|;
    assert AddChild(Array(xs), n, x) == Array(xs[..k] + [x] + xs[k..]) by {
      assert xs[..|xs|] == xs && xs[|xs|..] == [];
      hide Atoi;
    }
    assert With(Meaning(Array(xs)), n, Meaning(x)) == VArray(Meanings(xs)[..k] + [Meaning(x)] + Meanings(xs)[k..]) by {
      assert Meanings(xs)[..|xs|] == Meanings(xs) && Meanings(xs)[|xs|..] == [];
      hide Atoi;
    }
    hide Atoi, Clamp, Meanings, With, AddChild;
    MeaningsInsert(xs, k, x);
  }

  lemma WithMeaning(node: Json, n: string, x: Json)
    requires WellNamed(node) && WellNamed(x)
    ensures WellNamed(AddChild(node, n, x)) && Meaning(AddChild(node, n, x)) == With(Meaning(node), n, Meaning(x))
  {
    match node
    case Object(ms) => SetMemberMeaning(ms, n, x);
    case Array(xs) => WithItem(xs, n, x);
    case _ =>
  }

  lemma RestMeaning(node: Json, n: string)
    requires WellNamed(node)
    ensures var (rest, item) := DetachChild(node, n);
      && WellNamed(rest) && Meaning(rest) == Rest(Meaning(node), n)
      && (item.Some? <==> Taken(Meaning(node), n).Some?)
      && (item.Some? ==> WellNamed(item.value) && Meaning(item.value) == Taken(Meaning(node), n).value)
  {
    match node
    case Object(ms) =>
      FieldsLookup(ms, n);
      var i := FindName(ms, n);
      if i < |ms| { DetachMemberMeaning(ms, i); } else { assert Fields(ms) - {LowerName(n)} == Fields(ms); }
      hide Fields, LowerName, FindName, WellNamed, Without;
    case Array(xs) =>
      var i := Clamp(Atoi(n));
      if i < |xs| { DetachItemMeaning(xs, i); }
      hide Atoi, Without, WellNamed;
    case _ =>
  }

  /** The end of "add", "replace", "move" and "copy": code 9 without a parent, else the value is put in. */
  lemma PatchAddOutcome(doc: Json, ns: seq<string>, n: string, x: Json)
    requires WellNamed(doc) && WellNamed(x)
    ensures var m, r := Meaning(doc), PatchAdd(doc, NamePath(ns + [n]), x);
      match Lookup(m, ns)
      case None => r == Applied(9, doc)
      case Some(v) => HasPath(m, Tokens(m, ns)) && Changed(doc, Tokens(m, ns), With(v, n, Meaning(x)), r)
  {
    hide Resolve, SetAt, At, AddChild, PathText, NamePath, SplitPath, Meaning, WellNamed, Get, Put, With, Lookup, Tokens, HasPath;
    SplitNames(ns, n);
    var m := Meaning(doc);
    ResolveIsValid(doc, NamePath(ns));
    ResolveExact(doc, ns);
    if Lookup(m, ns).Some? {
      Found(doc, ns);
      var node := At(doc, Resolve(doc, NamePath(ns)).value);
      WithMeaning(node, n, x);
      SetAtMeaning(doc, Tokens(m, ns), AddChild(node, n, x));
    }
  }

  /** Detaching: nothing without a parent, else what the name stands for. */
  lemma PatchDetachOutcome(doc: Json, ns: seq<string>, n: string)
    requires WellNamed(doc)
    ensures var m, d := Meaning(doc), PatchDetach(doc, NamePath(ns + [n]));
      match Lookup(m, ns)
      case None => d == Detached(doc, None)
      case Some(v) =>
        && HasPath(m, Tokens(m, ns)) && d.Detached?
        && WellNamed(d.doc) && Meaning(d.doc) == Put(m, Tokens(m, ns), Rest(v, n))
        && (d.item.Some? <==> Taken(v, n).Some?)
        && (d.item.Some? ==> WellNamed(d.item.value) && Meaning(d.item.value) == Taken(v, n).value)
  {
    hide Resolve, SetAt, At, DetachChild, PathText, NamePath, SplitPath, Meaning, WellNamed, Get, Put, Rest, Taken, Lookup, Tokens, HasPath;
    SplitNames(ns, n);
    var m := Meaning(doc);
    ResolveIsValid(doc, NamePath(ns));
    ResolveExact(doc, ns);
    if Lookup(m, ns).Some? {
      Found(doc, ns);
      var node := At(doc, Resolve(doc, NamePath(ns)).value);
      RestMeaning(node, n);
      SetAtMeaning(doc, Tokens(m, ns), DetachChild(node, n).0);
    }
  }

  // ----- the operations

  /** The value after `x` was put in under `ns` and `n`; none without a parent. */
  ghost function PutIn(m: Val, ns: seq<string>, n: string, x: Val): Option<Val> {
    match Lookup(m, ns)
    case None => None
    case Some(v) => LookupPath(m, ns); Some(Put(m, Tokens(m, ns), With(v, n, x)))
  }

  /** The value after what `ns` and `n` stand for was taken out. */
  ghost function TakeOut(m: Val, ns: seq<string>, n: string): Val {
    match Lookup(m, ns)
    case None => m
    case Some(v) => LookupPath(m, ns); Put(m, Tokens(m, ns), Rest(v, n))
  }

  ghost function TakenAt(m: Val, ns: seq<string>, n: string): Option<Val> {
    match Lookup(m, ns) case None => None case Some(v) => Taken(v, n)
  }

  /** The code, and what the document means then. */
  ghost predicate Ends(r: Applied, code: int, m: Val) {
    r.Applied? && r.code == code && WellNamed(r.doc) && Meaning(r.doc) == m
  }

  /** The end of an operation that puts in a value: code 0, or 9 and the document as it was before that. */
  ghost predicate EndsWith(r: Applied, m: Val, ns: seq<string>, n: string, x: Val) {
    match PutIn(m, ns, n, x) case None => Ends(r, 9, m) case Some(w) => Ends(r, 0, w)
  }

  lemma AddEnds(doc: Json, ns: seq<string>, n: string, x: Json)
    requires WellNamed(doc) && WellNamed(x)
    ensures EndsWith(PatchAdd(doc, NamePath(ns + [n]), x), Meaning(doc), ns, n, Meaning(x))
  {
    hide PatchAdd, NamePath, Meaning, WellNamed, Put, With, Lookup, Tokens, HasPath;
    PatchAddOutcome(doc, ns, n, x);
  }

  lemma DetachEnds(doc: Json, ns: seq<string>, n: string)
    requires WellNamed(doc)
    ensures var m, d := Meaning(doc), PatchDetach(doc, NamePath(ns + [n]));
      && d.Detached? && WellNamed(d.doc) && Meaning(d.doc) == TakeOut(m, ns, n)
      && (d.item.Some? <==> TakenAt(m, ns, n).Some?)
      && (d.item.Some? ==> WellNamed(d.item.value) && Meaning(d.item.value) == TakenAt(m, ns, n).value)
  {
    hide PatchDetach, NamePath, Meaning, WellNamed, Put, Rest, Taken, Lookup, Tokens, HasPath;
    PatchDetachOutcome(doc, ns, n);
  }

  lemma AddOutcome(doc: Json, patch: Json, ns: seq<string>, n: string, x: Json)
    requires WellNamed(doc) && WellNamed(x)
    requires IsOperation(patch, "add", NamePath(ns + [n])) && GetItem(patch, "value") == Some(x)
    ensures EndsWith(ApplyPatch(doc, patch), Meaning(doc), ns, n, Meaning(x))
  {
    hide PatchAdd, NamePath, GetItem, EndsWith, Meaning, WellNamed;
    AddEnds(doc, ns, n, x);
  }

  /** "remove" always gives code 0, also where there is nothing to remove. */
  lemma RemoveOutcome(doc: Json, patch: Json, ns: seq<string>, n: string)
    requires WellNamed(doc) && IsOperation(patch, "remove", NamePath(ns + [n]))
    ensures Ends(ApplyPatch(doc, patch), 0, TakeOut(Meaning(doc), ns, n))
  {
    hide PatchDetach, NamePath, GetItem, TakeOut, Meaning, WellNamed;
    DetachEnds(doc, ns, n);
  }

  /** "replace" takes out what is there, if anything, and puts in the value. */
  lemma ReplaceOutcome(doc: Json, patch: Json, ns: seq<string>, n: string, x: Json)
    requires WellNamed(doc) && WellNamed(x)
    requires IsOperation(patch, "replace", NamePath(ns + [n])) && GetItem(patch, "value") == Some(x)
    ensures EndsWith(ApplyPatch(doc, patch), TakeOut(Meaning(doc), ns, n), ns, n, Meaning(x))
  {
    hide PatchDetach, PatchAdd, NamePath, GetItem, EndsWith, TakeOut, Meaning, WellNamed;
    DetachEnds(doc, ns, n);
    AddEnds(PatchDetach(doc, NamePath(ns + [n])).doc, ns, n, x);
  }

  /** "move": code 5 if there is nothing to move; code 9 if, once it is taken out, there is no parent to
      put it into, and then it is lost. */
  lemma MoveOutcome(doc: Json, patch: Json, fs: seq<string>, f: string, ns: seq<string>, n: string)
    requires WellNamed(doc) && IsOperation(patch, "move", NamePath(ns + [n]))
    requires GetItem(patch, "from") == Some(String(NamePath(fs + [f])))
    ensures var m, r := Meaning(doc), ApplyPatch(doc, patch);
      match TakenAt(m, fs, f)
      case None => Ends(r, 5, TakeOut(m, fs, f))
      case Some(x) => EndsWith(r, TakeOut(m, fs, f), ns, n, x)
  {
    hide PatchDetach, PatchAdd, NamePath, GetItem, EndsWith, TakeOut, TakenAt, Meaning, WellNamed;
    DetachEnds(doc, fs, f);
    var d := PatchDetach(doc, NamePath(fs + [f]));
    if d.item.Some? { AddEnds(d.doc, ns, n, d.item.value); }
  }

  /** "copy": code 5 if there is nothing to copy, code 9 if there is no parent. */
  lemma CopyOutcome(doc: Json, patch: Json, fs: seq<string>, ns: seq<string>, n: string)
    requires WellNamed(doc) && IsOperation(patch, "copy", NamePath(ns + [n]))
    requires GetItem(patch, "from") == Some(String(NamePath(fs)))
    ensures var m, r := Meaning(doc), ApplyPatch(doc, patch);
      match Lookup(m, fs)
      case None => Ends(r, 5, m)
      case Some(x) => EndsWith(r, m, ns, n, x)
  {
    hide PatchAdd, NamePath, GetItem, EndsWith, Lookup, Meaning, WellNamed, Resolve, At, Tokens;
    ResolveIsValid(doc, NamePath(fs));
    ResolveExact(doc, fs);
    if Lookup(Meaning(doc), fs).Some? {
      Found(doc, fs);
      AddEnds(doc, ns, n, At(doc, Resolve(doc, NamePath(fs)).value));
    }
  }

  /** "test" of a place that is not there goes through a null pointer; else the code is 0 if the values mean the
      same, and otherwise that of the first difference. */
  lemma TestOutcome(doc: Json, patch: Json, ns: seq<string>, x: Json)
    requires WellNamed(doc) && WellNamed(x) && IsOperation(patch, "test", NamePath(ns)) && GetItem(patch, "value") == Some(x)
    ensures var m, r := Meaning(doc), ApplyPatch(doc, patch);
      match Lookup(m, ns)
      case None => r == Undefined
      case Some(v) => r.Applied? && Ends(r, r.code, m) && CodeFor(v, Meaning(x), r.code) && (r.code == 0 <==> v == Meaning(x))
  {
    hide NamePath, GetItem, Lookup, Meaning, WellNamed, Resolve, At, Tokens, SetAt, Comparison, Put, Get, HasPath, PathText, CodeFor;
    ResolveIsValid(doc, NamePath(ns));
    ResolveExact(doc, ns);
    var m := Meaning(doc);
    if Lookup(m, ns).Some? {
      Found(doc, ns);
      var node := At(doc, Resolve(doc, NamePath(ns)).value);
      CompareDecidesMeaning(node, x);
      ComparisonCode(node, x, Comparison(node, x).code);
      SetAtMeaning(doc, Tokens(m, ns), Comparison(node, x).a);
      PutSame(m, Tokens(m, ns));
    }
  }

  // ----- operations that lack something, and lists

  /** What an operation has under a name is what its meaning has there. */
  lemma GetItemIs(v: Json, n: string)
    ensures GetItem(v, n).Some? <==> v.Object? && LowerName(n) in Fields(v.members)
    ensures GetItem(v, n).Some? ==> Meaning(GetItem(v, n).value) == Fields(v.members)[LowerName(n)]
  {
    if v.Object? { FieldsLookup(v.members, n); }
  }

  /** Code 2 without "op" or "path", 3 for another operation, 4 without "from", and 7 without "value"; the document
      stays. An operation that is no string, and a path that is none, are read through a null pointer. */
  lemma MalformedOutcome(doc: Json, patch: Json)
    ensures var r, op, path := ApplyPatch(doc, patch), GetItem(patch, "op"), GetItem(patch, "path");
      if op.None? || path.None? then r == Applied(2, doc)
      else if !op.value.String? then r == Undefined
      else match op.value.s
        case "add" => GetItem(patch, "value").None? ==> r == Applied(7, doc)
        case "remove" => !path.value.String? ==> r == Undefined
        case "replace" => !path.value.String? ==> r == Undefined
        case "move" => GetItem(patch, "from").None? ==> r == Applied(4, doc)
        case "copy" => GetItem(patch, "from").None? ==> r == Applied(4, doc)
        case "test" => !path.value.String? || GetItem(patch, "value").None? ==> r == Undefined
        case _ => r == Applied(3, doc)
  {
    hide GetItem, PatchDetach, PatchAdd, Resolve, Comparison;
  }

  /** "replace" without "value" has already taken something out. */
  lemma ReplaceNothing(doc: Json, patch: Json, ns: seq<string>, n: string)
    requires WellNamed(doc) && IsOperation(patch, "replace", NamePath(ns + [n])) && GetItem(patch, "value").None?
    ensures Ends(ApplyPatch(doc, patch), 7, TakeOut(Meaning(doc), ns, n))
  {
    hide PatchDetach, NamePath, GetItem, TakeOut, Meaning, WellNamed;
    DetachEnds(doc, ns, n);
  }

  /** The first operations of the list lead through these documents with code 0. */
  ghost predicate Passes(docs: seq<Json>, ps: seq<Json>) {
    0 < |docs| <= |ps| + 1 && forall i :: 0 <= i < |docs| - 1 ==> ApplyPatch(docs[i], ps[i]) == Applied(0, docs[i + 1])
  }

  lemma PassesTail(docs: seq<Json>, ps: seq<Json>)
    requires Passes(docs, ps) && |docs| > 1
    ensures ps != [] && Passes(docs[1..], ps[1..]) && ApplyPatch(docs[0], ps[0]) == Applied(0, docs[1])
  {
    hide ApplyPatch;
    forall i | 0 <= i < |docs| - 2 ensures ApplyPatch(docs[1..][i], ps[1..][i]) == Applied(0, docs[1..][i + 1]) {
      assert ApplyPatch(docs[i + 1], ps[i + 1]) == Applied(0, docs[i + 2]);
    }
  }

  /** A list ends with its first operation that does not give code 0, and otherwise behind its last one; patches that
      are no array give code 1. */
  lemma {:induction false} ListOutcome(docs: seq<Json>, ps: seq<Json>)
    requires Passes(docs, ps)
    ensures var k := |docs| - 1;
      && (k == |ps| ==> ApplyPatches(docs[0], Array(ps)) == Applied(0, docs[k]))
      && (k < |ps| && !(ApplyPatch(docs[k], ps[k]).Applied? && ApplyPatch(docs[k], ps[k]).code == 0) ==>
            ApplyPatches(docs[0], Array(ps)) == ApplyPatch(docs[k], ps[k]))
    ensures forall v: Json :: !v.Array? ==> ApplyPatches(docs[0], v) == Applied(1, docs[0])
    decreases |ps|
  {
    hide ApplyPatch, Passes;
    if |docs| > 1 {
      PassesTail(docs, ps);
      ListOutcome(docs[1..], ps[1..]);
    } else {
      assert |docs| == 1 by { PassesSome(docs, ps); }
    }
  }

  lemma PassesSome(docs: seq<Json>, ps: seq<Json>)
    requires Passes(docs, ps)
    ensures 0 < |docs| <= |ps| + 1
  {
  }

  /** Which item a text stands for: behind white space and a sign the digits count, a negative number is 0, and so is
      a text without digits. */
  lemma IndexOutcome(xs: seq<Val>, w: string, sign: string, ds: string, rest: string, x: Val)
    requires (forall c :: c in w ==> IsSpace(c)) && sign in {"", "+", "-"} && AllDigits(ds) && !StartsDigit(rest)
    requires sign == "" && ds == "" && rest != [] ==> !IsSpace(rest[0]) && rest[0] != '-' && rest[0] != '+'
    ensures var n, i := w + (sign + (ds + rest)), if sign == "-" then 0 else Decimal(ds);
      && Taken(VArray(xs), n) == (if i < |xs| then Some(xs[i]) else None)
      && Rest(VArray(xs), n) == VArray(if i < |xs| then xs[..i] + xs[i + 1..] else xs)
      && With(VArray(xs), n, x) == VArray(if n != "-" && i < |xs| then xs[..i] + [x] + xs[i..] else xs + [x])
  {
    AtoiText(w, sign, ds, rest);
    hide Atoi, Decimal, AllDigits, StartsDigit, IsSpace;
  }
}
