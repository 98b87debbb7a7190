/** JSON Patch on documents with old links: detaching a first member through its old link is an
    outcome of its own, and everything else is what `Patch` says. */
module LinkedPatch {
  import opened Json
  import opened Sorting
  import opened Numerals
  import opened Compare
  import opened Pointer
  import opened Patch
  import opened OldLinks

  /** `Astray` where the C code follows a null pointer or steps over a terminator; `Tangled` where it writes
      through an old link. `NodePatch` tells where the link leads and whether the write does harm; as long as no
      value was moved it always does (`NodeRuns.RunMatches`). */
  datatype Run = Ran(code: int, doc: Linked) | Astray | Tangled

  datatype Detachment = Taken(doc: Linked, item: Option<Linked>) | NoPath | Loop

  /** Detaching `name` from this node would go through an old link. */
  predicate HitsOldLink(node: Linked, name: string) {
    node.Members? && node.stale && node.members != [] && FindName(node.members, name) == 0
  }

  /** The same for the node and the name a path stands for. */
  predicate Hits(doc: Linked, path: string) {
    match SplitPath(path)
    case None => false
    case Some((parent, name)) =>
      ResolveIsValid(Erase(doc), parent);
      match Resolve(Erase(doc), parent)
      case None => false
      case Some(loc) => HitsOldLink(NodeAt(doc, loc), name)
  }

  function DetachKid(node: Linked, name: string): (Linked, Option<Linked>) {
    match node
    case Items(xs) =>
      var i := Clamp(Atoi(name));
      if i < |xs| then (Items(Without(xs, i)), Some(xs[i])) else (node, None)
    case Members(ms, stale) =>
      var i := FindName(ms, name);
      if i < |ms| then (Members(Without(ms, i), stale), Some(ms[i].item)) else (node, None)
    case _ => (node, None)
  }

  /** The first child of a list that was empty points back to nothing. */
  function AddKid(node: Linked, name: string, value: Linked): Linked {
    match node
    case Items(xs) => Items(if name == "-" then xs + [value] else InsertAt(xs, Atoi(name), value))
    case Members(ms, stale) => Members(SetMember(ms, Entry(name, value)), stale && ms != [])
    case _ => node
  }

  function PatchDetach(doc: Linked, path: string): Detachment {
    match SplitPath(path)
    case None => NoPath
    case Some((parent, name)) =>
      ResolveIsValid(Erase(doc), parent);
      match Resolve(Erase(doc), parent)
      case None => Taken(doc, None)
      case Some(loc) =>
        if HitsOldLink(NodeAt(doc, loc), name) then Loop
        else
          var (node, item) := DetachKid(NodeAt(doc, loc), name);
          Taken(PutAt(doc, loc, node), item)
  }

  function PatchAdd(doc: Linked, path: string, value: Linked): Run {
    match SplitPath(path)
    case None => Astray
    case Some((parent, name)) =>
      ResolveIsValid(Erase(doc), parent);
      match Resolve(Erase(doc), parent)
      case None => Ran(9, doc)
      case Some(loc) =>
        if HitsOldLink(NodeAt(doc, loc), name) then Tangled
        else Ran(0, PutAt(doc, loc, AddKid(NodeAt(doc, loc), name, value)))
  }

  function ApplyTest(doc: Linked, path: Json, value: Option<Json>): Run {
    if !path.String? || value.None? then Astray
    else
      ResolveIsValid(Erase(doc), path.s);
      match Resolve(Erase(doc), path.s)
      case None => Astray
      case Some(loc) =>
        var node := NodeAt(doc, loc);
        Ran(Comparison(Erase(node), value.value).code, PutAt(doc, loc, Visited(node, value.value)))
  }

  function ApplyRemove(doc: Linked, path: Json): Run {
    if !path.String? then Astray
    else match PatchDetach(doc, path.s)
      case NoPath => Astray
      case Loop => Tangled
      case Taken(doc', _) => Ran(0, doc')
  }

  /** The value added is a copy. */
  function ApplyAdd(doc: Linked, path: Json, value: Option<Json>): Run {
    match value
    case None => Ran(7, doc)
    case Some(v) => if path.String? then PatchAdd(doc, path.s, Fresh(v)) else Astray
  }

  function ApplyReplace(doc: Linked, path: Json, value: Option<Json>): Run {
    match ApplyRemove(doc, path)
    case Ran(_, doc') => ApplyAdd(doc', path, value)
    case r => r
  }

  /** The value moved is the detached node, with all its links. */
  function ApplyMove(doc: Linked, path: Json, from: Option<Json>): Run {
    if from.None? then Ran(4, doc)
    else if !from.value.String? then Astray
    else match PatchDetach(doc, from.value.s)
      case NoPath => Astray
      case Loop => Tangled
      case Taken(doc', None) => Ran(5, doc')
      case Taken(doc', Some(t)) => if path.String? then PatchAdd(doc', path.s, t) else Astray
  }

  function ApplyCopy(doc: Linked, path: Json, from: Option<Json>): Run {
    if from.None? then Ran(4, doc)
    else if !from.value.String? then Astray
    else
      ResolveIsValid(Erase(doc), from.value.s);
      match Resolve(Erase(doc), from.value.s)
      case None => Ran(5, doc)
      case Some(loc) => if path.String? then PatchAdd(doc, path.s, Fresh(Erase(NodeAt(doc, loc)))) else Astray
  }

  /** `cJSONUtils_ApplyPatch`. */
  function ApplyPatch(doc: Linked, patch: Json): Run {
    var op, path := GetItem(patch, "op"), GetItem(patch, "path");
    if op.None? || path.None? then Ran(2, doc)
    else if !op.value.String? then Astray
    else if op.value.s == "add" then ApplyAdd(doc, path.value, GetItem(patch, "value"))
    else if op.value.s == "remove" then ApplyRemove(doc, path.value)
    else if op.value.s == "replace" then ApplyReplace(doc, path.value, GetItem(patch, "value"))
    else if op.value.s == "move" then ApplyMove(doc, path.value, GetItem(patch, "from"))
    else if op.value.s == "copy" then ApplyCopy(doc, path.value, GetItem(patch, "from"))
    else if op.value.s == "test" then ApplyTest(doc, path.value, GetItem(patch, "value"))
    else Ran(3, doc)
  }

  function ApplyAll(doc: Linked, patches: seq<Json>): Run
    decreases patches
  {
    if patches == [] then Ran(0, doc)
    else match ApplyPatch(doc, patches[0])
      case Ran(0, doc') => ApplyAll(doc', patches[1..])
      case r => r
  }

  /** `cJSONUtils_ApplyPatches`. */
  function ApplyPatches(doc: Linked, patches: Json): Run {
    if !patches.Array? then Ran(1, doc) else ApplyAll(doc, patches.items)
  }

  // ----- without the marks it is the run of `Patch`

  /** `r` is what `a` says of the tree without its marks. */
  ghost predicate Agrees(r: Run, a: Applied) {
    match r
    case Ran(code, doc) => a == Applied(code, Erase(doc))
    case Astray => a == Undefined
    case Tangled => false
  }

  lemma DetachKidErases(node: Linked, name: string)
    ensures var (rest, item) := DetachKid(node, name);
      DetachChild(Erase(node), name) == (Erase(rest), EraseOption(item))
  {
    match node
    case Items(xs) =>
      var i := Clamp(Atoi(name));
      if i < |xs| { EraseWithoutItem(xs, i); }
    case Members(ms, _) =>
      EraseFinds(ms, name);
      var i := FindName(ms, name);
      if i < |ms| { EraseWithout(ms, i); }
    case Leaf(_) =>
  }

  lemma InsertErases(xs: seq<Linked>, which: int, value: Linked)
    ensures EraseItems(InsertAt(xs, which, value)) == InsertAt(EraseItems(xs), which, Erase(value))
    ensures EraseItems(xs + [value]) == EraseItems(xs) + [Erase(value)]
  {
    hide Erase;
    var i := Clamp(which);
    if i < |xs| {
      assert EraseItems(xs[..i] + [value] + xs[i..]) == EraseItems(xs)[..i] + [Erase(value)] + EraseItems(xs)[i..];
    }
  }

  lemma AddKidErases(node: Linked, name: string, value: Linked)
    ensures Erase(AddKid(node, name, value)) == AddChild(Erase(node), name, Erase(value))
  {
    match node
    case Items(xs) =>
      InsertErases(xs, Atoi(name), value);
      hide InsertAt, Atoi, EraseItems;
    case Members(ms, _) =>
      EraseSets(ms, Entry(name, value));
      hide EraseMembers, SetMember;
    case Leaf(_) =>
  }

  lemma DetachErases(doc: Linked, path: string)
    ensures PatchDetach(doc, path) == Loop <==> Hits(doc, path)
    ensures match PatchDetach(doc, path)
      case Loop => true
      case NoPath => Patch.PatchDetach(Erase(doc), path) == DetachResult.Lost
      case Taken(doc', item) => Patch.PatchDetach(Erase(doc), path) == DetachResult.Detached(Erase(doc'), EraseOption(item))
  {
    hide Erase, Resolve, DetachKid, DetachChild, SplitPath, NodeAt, PutAt;
    if SplitPath(path).Some? {
      var (parent, name) := SplitPath(path).value;
      ResolveIsValid(Erase(doc), parent);
      var r := Resolve(Erase(doc), parent);
      if r.Some? { DetachKidErases(NodeAt(doc, r.value), name); }
    }
  }

  lemma AddErases(doc: Linked, path: string, value: Linked)
    ensures PatchAdd(doc, path, value) == Tangled <==> Hits(doc, path)
    ensures !Hits(doc, path) ==> Agrees(PatchAdd(doc, path, value), Patch.PatchAdd(Erase(doc), path, Erase(value)))
  {
    hide Erase, Resolve, AddKid, AddChild, SplitPath, NodeAt, PutAt;
    if SplitPath(path).Some? {
      var (parent, name) := SplitPath(path).value;
      ResolveIsValid(Erase(doc), parent);
      var r := Resolve(Erase(doc), parent);
      if r.Some? { AddKidErases(NodeAt(doc, r.value), name, value); }
    }
  }

  lemma TestErases(doc: Linked, path: Json, value: Option<Json>)
    ensures Agrees(ApplyTest(doc, path, value), Patch.ApplyTest(Erase(doc), path, value))
  {
    hide Erase, Resolve, NodeAt, PutAt, Visited, Comparison;
    if path.String? && value.Some? {
      ResolveIsValid(Erase(doc), path.s);
      var r := Resolve(Erase(doc), path.s);
      if r.Some? { EraseVisited(NodeAt(doc, r.value), value.value); }
    }
  }

  /** The path of a string member, if the operation is of this kind. */
  function PathOf(patch: Json, member: string): Option<string> {
    var v := GetItem(patch, member);
    if v.Some? && v.value.String? then Some(v.value.s) else None
  }

  /** The operation detaches a first member through an old link. A moved value is taken out before
      it is put in, and what a replaced member leaves holds no link to go through. */
  predicate Tangles(doc: Linked, patch: Json) {
    var op, path := PathOf(patch, "op"), PathOf(patch, "path");
    if op.None? then false
    else if op.value == "add" then path.Some? && GetItem(patch, "value").Some? && Hits(doc, path.value)
    else if op.value == "remove" || op.value == "replace" then path.Some? && Hits(doc, path.value)
    else if op.value == "move" then GetItem(patch, "path").Some? && PathOf(patch, "from").Some? && MoveTangles(doc, path, PathOf(patch, "from").value)
    else if op.value == "copy" then CopyTangles(doc, path, PathOf(patch, "from"))
    else false
  }

  predicate CopyTangles(doc: Linked, path: Option<string>, from: Option<string>) {
    path.Some? && from.Some? && Hits(doc, path.value) && Resolve(Erase(doc), from.value).Some?
  }

  predicate MoveTangles(doc: Linked, path: Option<string>, from: string) {
    || Hits(doc, from)
    || (path.Some? && match PatchDetach(doc, from)
                      case Taken(doc', Some(_)) => Hits(doc', path.value)
                      case _ => false)
  }

  // ----- exactly when an operation tangles

  lemma {:induction false} FindTokenAgain(ms: seq<Entry<Json>>, i: nat, w: Json, ptr: string)
    requires i < |ms|
    ensures FindToken(ms[i := ms[i].(item := w)], ptr) == FindToken(ms, ptr)
  {
    var ns := ms[i := ms[i].(item := w)];
    if !TokenMatches(ms[0].name, ptr) {
      if i > 0 {
        assert ns[1..] == ms[1..][i - 1 := ms[1..][i - 1].(item := w)];
        FindTokenAgain(ms[1..], i - 1, w, ptr);
      } else {
        assert ns[1..] == ms[1..];
      }
    }
  }

  /** A pointer leads to the same place after the node there was changed. */
  lemma {:induction false} ResolveAgain(v: Json, ptr: string, w: Json)
    requires Resolve(v, ptr).Some?
    ensures ValidLoc(v, Resolve(v, ptr).value)
    ensures Resolve(SetAt(v, Resolve(v, ptr).value, w), ptr) == Resolve(v, ptr)
    decreases |ptr|
  {
    ResolveIsValid(v, ptr);
    if ptr != [] && ptr[0] == '/' {
      match v {
        case Array(xs) =>
          var (which, rest) := ReadDigits(ptr[1..], 0);
          ResolveAgain(xs[which], rest, w);
        case Object(ms) =>
          var i, rest := FindToken(ms, ptr[1..]), DropToken(ptr[1..]);
          ResolveAgain(ms[i].item, rest, w);
          FindTokenAgain(ms, i, SetAt(ms[i].item, Resolve(ms[i].item, rest).value, w), ptr[1..]);
        case _ =>
      }
    }
  }

  lemma {:induction false} NodePut(t: Linked, loc: Loc, u: Linked)
    requires ValidLoc(Erase(t), loc)
    ensures ValidLoc(Erase(PutAt(t, loc, u)), loc) && NodeAt(PutAt(t, loc, u), loc) == u
    decreases |loc|
  {
    if loc != [] { NodePut(Kids(t)[loc[0]], loc[1..], u); }
  }

  /** What is left under a name after detaching it is not a first member with an old link. */
  lemma DetachKidOnce(node: Linked, name: string)
    requires !HitsOldLink(node, name)
    ensures !HitsOldLink(DetachKid(node, name).0, name)
  {
    if node.Members? {
      var ms, i := node.members, FindName(node.members, name);
      if 0 < i < |ms| {
        assert Without(ms, i)[0] == ms[0];
        CaseOrderZero(ms[0].name, name);
      }
    }
  }

  lemma DetachOnce(doc: Linked, path: string)
    ensures match PatchDetach(doc, path) case Taken(doc', _) => !Hits(doc', path) case _ => true
  {
    if PatchDetach(doc, path).Taken? {
      var (parent, name) := SplitPath(path).value;
      hide Resolve, DetachKid, HitsOldLink, SplitPath, Erase, SetAt;
      ResolveIsValid(Erase(doc), parent);
      var r := Resolve(Erase(doc), parent);
      if r.Some? {
        var rest := DetachKid(NodeAt(doc, r.value), name).0;
        DetachKidOnce(NodeAt(doc, r.value), name);
        ResolveAgain(Erase(doc), parent, Erase(rest));
        NodePut(doc, r.value, rest);
      }
    }
  }

  lemma AddOpErases(doc: Linked, path: Json, value: Option<Json>)
    ensures var r := ApplyAdd(doc, path, value);
      && (r == Tangled <==> path.String? && value.Some? && Hits(doc, path.s))
      && (r != Tangled ==> Agrees(r, Patch.ApplyAdd(Erase(doc), path, value)))
  {
    hide Hits, Erase, PatchAdd, Patch.PatchAdd;
    if path.String? && value.Some? { AddErases(doc, path.s, Fresh(value.value)); }
  }

  lemma RemoveOpErases(doc: Linked, path: Json)
    ensures var r := ApplyRemove(doc, path);
      && (r == Tangled <==> path.String? && Hits(doc, path.s))
      && (r != Tangled ==> Agrees(r, Patch.ApplyRemove(Erase(doc), path)))
  {
    hide Hits, Erase, PatchDetach, Patch.PatchDetach;
    if path.String? { DetachErases(doc, path.s); }
  }

  lemma CopyOpErases(doc: Linked, path: Json, from: Option<Json>)
    ensures var r := ApplyCopy(doc, path, from);
      && (r == Tangled <==> CopyTangles(doc, if path.String? then Some(path.s) else None,
                                        if from.Some? && from.value.String? then Some(from.value.s) else None))
      && (r != Tangled ==> Agrees(r, Patch.ApplyCopy(Erase(doc), path, from)))
  {
    hide Hits, Erase, PatchAdd, Patch.PatchAdd, Resolve;
    if from.Some? && from.value.String? {
      ResolveIsValid(Erase(doc), from.value.s);
      if path.String? { CopyErases(doc, path.s, from.value.s); }
    }
  }

  /** An operation tangles exactly if `Tangles` says so, and otherwise does what `Patch` says. */
  ghost predicate Faithful(doc: Linked, patch: Json) {
    && (ApplyPatch(doc, patch) == Tangled <==> Tangles(doc, patch))
    && (!Tangles(doc, patch) ==> Agrees(ApplyPatch(doc, patch), Patch.ApplyPatch(Erase(doc), patch)))
  }

  lemma MoveFaithful(doc: Linked, patch: Json, path: Json)
    requires GetItem(patch, "op") == Some(String("move")) && GetItem(patch, "path") == Some(path)
    ensures Faithful(doc, patch)
  {
    hide GetItem, Hits, Erase, ApplyTest, Patch.ApplyTest, Resolve, ApplyAdd, Patch.ApplyAdd, ApplyRemove, Patch.ApplyRemove,
      ApplyReplace, Patch.ApplyReplace, ApplyMove, Patch.ApplyMove, ApplyCopy, Patch.ApplyCopy, MoveTangles, CopyTangles, Agrees;
    MoveErases(doc, path, GetItem(patch, "from"));
  }

  lemma ReplaceFaithful(doc: Linked, patch: Json, path: Json)
    requires GetItem(patch, "op") == Some(String("replace")) && GetItem(patch, "path") == Some(path)
    ensures Faithful(doc, patch)
  {
    hide GetItem, Hits, Erase, ApplyTest, Patch.ApplyTest, Resolve, ApplyAdd, Patch.ApplyAdd, ApplyRemove, Patch.ApplyRemove,
      ApplyReplace, Patch.ApplyReplace, ApplyMove, Patch.ApplyMove, ApplyCopy, Patch.ApplyCopy, MoveTangles, CopyTangles, Agrees;
    ReplaceErases(doc, path, GetItem(patch, "value"));
  }

  lemma CopyFaithful(doc: Linked, patch: Json, path: Json)
    requires GetItem(patch, "op") == Some(String("copy")) && GetItem(patch, "path") == Some(path)
    ensures Faithful(doc, patch)
  {
    hide GetItem, Hits, Erase, ApplyTest, Patch.ApplyTest, Resolve, ApplyAdd, Patch.ApplyAdd, ApplyRemove, Patch.ApplyRemove,
      ApplyReplace, Patch.ApplyReplace, ApplyMove, Patch.ApplyMove, ApplyCopy, Patch.ApplyCopy, MoveTangles, CopyTangles, Agrees;
    CopyOpErases(doc, path, GetItem(patch, "from"));
  }

  lemma TestFaithful(doc: Linked, patch: Json, path: Json)
    requires GetItem(patch, "op") == Some(String("test")) && GetItem(patch, "path") == Some(path)
    ensures Faithful(doc, patch)
  {
    hide GetItem, Hits, Erase, ApplyTest, Patch.ApplyTest, Resolve, ApplyAdd, Patch.ApplyAdd, ApplyRemove, Patch.ApplyRemove,
      ApplyReplace, Patch.ApplyReplace, ApplyMove, Patch.ApplyMove, ApplyCopy, Patch.ApplyCopy, MoveTangles, CopyTangles;
    TestErases(doc, path, GetItem(patch, "value"));
  }

  lemma RemoveFaithful(doc: Linked, patch: Json, path: Json)
    requires GetItem(patch, "op") == Some(String("remove")) && GetItem(patch, "path") == Some(path)
    ensures Faithful(doc, patch)
  {
    hide GetItem, Hits, Erase, ApplyTest, Patch.ApplyTest, Resolve, ApplyAdd, Patch.ApplyAdd, ApplyRemove, Patch.ApplyRemove,
      ApplyReplace, Patch.ApplyReplace, ApplyMove, Patch.ApplyMove, ApplyCopy, Patch.ApplyCopy, MoveTangles, CopyTangles, Agrees;
    RemoveOpErases(doc, path);
  }

  lemma AddFaithful(doc: Linked, patch: Json, path: Json)
    requires GetItem(patch, "op") == Some(String("add")) && GetItem(patch, "path") == Some(path)
    ensures Faithful(doc, patch)
  {
    hide GetItem, Hits, Erase, ApplyTest, Patch.ApplyTest, Resolve, ApplyAdd, Patch.ApplyAdd, ApplyRemove, Patch.ApplyRemove,
      ApplyReplace, Patch.ApplyReplace, ApplyMove, Patch.ApplyMove, ApplyCopy, Patch.ApplyCopy, MoveTangles, CopyTangles, Agrees;
    AddOpErases(doc, path, GetItem(patch, "value"));
  }

  lemma OtherFaithful(doc: Linked, patch: Json)
    requires var op := GetItem(patch, "op");
      op.None? || GetItem(patch, "path").None? || !op.value.String?
      || (op.value.s != "add" && op.value.s != "remove" && op.value.s != "replace" && op.value.s != "move"
          && op.value.s != "copy" && op.value.s != "test")
    ensures Faithful(doc, patch)
  {
    hide GetItem, Hits, Erase, ApplyTest, Patch.ApplyTest, Resolve, ApplyAdd, Patch.ApplyAdd, ApplyRemove, Patch.ApplyRemove,
      ApplyReplace, Patch.ApplyReplace, ApplyMove, Patch.ApplyMove, ApplyCopy, Patch.ApplyCopy, MoveTangles;
  }

  lemma AllFaithful(doc: Linked, patch: Json)
    ensures Faithful(doc, patch)
  {
    hide *;
    var op, path := GetItem(patch, "op"), GetItem(patch, "path");
    if op.None? || path.None? || !op.value.String? { OtherFaithful(doc, patch); }
    else if op.value.s == "move" { MoveFaithful(doc, patch, path.value); }
    else if op.value.s == "replace" { ReplaceFaithful(doc, patch, path.value); }
    else if op.value.s == "copy" { CopyFaithful(doc, patch, path.value); }
    else if op.value.s == "test" { TestFaithful(doc, patch, path.value); }
    else if op.value.s == "remove" { RemoveFaithful(doc, patch, path.value); }
    else if op.value.s == "add" { AddFaithful(doc, patch, path.value); }
    else { OtherFaithful(doc, patch); }
  }

  /** One operation tangles exactly if `Tangles` says so of the document before it, and otherwise
      does what `Patch` says. */
  lemma TanglesExactly(doc: Linked, patch: Json)
    ensures ApplyPatch(doc, patch) == Tangled <==> Tangles(doc, patch)
    ensures !Tangles(doc, patch) ==> Agrees(ApplyPatch(doc, patch), Patch.ApplyPatch(Erase(doc), patch))
  {
    AllFaithful(doc, patch);
    hide ApplyPatch, Patch.ApplyPatch, Tangles, Agrees;
  }

  lemma CopyErases(doc: Linked, path: string, from: string)
    ensures var r := ApplyCopy(doc, String(path), Some(String(from)));
      && (r == Tangled <==> Hits(doc, path) && Resolve(Erase(doc), from).Some?)
      && (r != Tangled ==> Agrees(r, Patch.ApplyCopy(Erase(doc), String(path), Some(String(from)))))
  {
    hide Hits, Erase, PatchAdd, Patch.PatchAdd, Resolve;
    ResolveIsValid(Erase(doc), from);
    var r := Resolve(Erase(doc), from);
    if r.Some? { AddErases(doc, path, Fresh(Erase(NodeAt(doc, r.value)))); }
  }

  lemma ReplaceErases(doc: Linked, path: Json, value: Option<Json>)
    ensures var r := ApplyReplace(doc, path, value);
      && (r == Tangled <==> path.String? && Hits(doc, path.s))
      && (r != Tangled ==> Agrees(r, Patch.ApplyReplace(Erase(doc), path, value)))
  {
    hide Hits, Erase, PatchDetach, Patch.PatchDetach, PatchAdd, Patch.PatchAdd;
    if path.String? {
      DetachErases(doc, path.s);
      DetachOnce(doc, path.s);
      var d := PatchDetach(doc, path.s);
      if d.Taken? && value.Some? { AddErases(d.doc, path.s, Fresh(value.value)); }
    }
  }

  lemma MoveErases(doc: Linked, path: Json, from: Option<Json>)
    ensures var r := ApplyMove(doc, path, from);
      && (r == Tangled <==>
          from.Some? && from.value.String? && MoveTangles(doc, if path.String? then Some(path.s) else None, from.value.s))
      && (r != Tangled ==> Agrees(r, Patch.ApplyMove(Erase(doc), path, from)))
  {
    hide Hits, Erase, PatchDetach, Patch.PatchDetach, PatchAdd, Patch.PatchAdd;
    if from.Some? && from.value.String? {
      DetachErases(doc, from.value.s);
      var d := PatchDetach(doc, from.value.s);
      if d.Taken? && d.item.Some? && path.String? { AddErases(d.doc, path.s, d.item.value); }
    }
  }

  /** Operation `i` of a list tangles, all before it having succeeded. */
  ghost predicate TanglesAt(doc: Linked, ps: seq<Json>, i: nat)
    requires i < |ps|
  {
    match ApplyAll(doc, ps[..i]) case Ran(0, d) => Tangles(d, ps[i]) case _ => false
  }

  lemma TanglesAtStep(doc: Linked, ps: seq<Json>, i: nat)
    requires i < |ps|
    ensures TanglesAt(doc, ps, i) <==>
            if i == 0 then Tangles(doc, ps[0])
            else match ApplyPatch(doc, ps[0]) case Ran(0, d) => TanglesAt(d, ps[1..], i - 1) case _ => false
  {
    hide ApplyPatch, Tangles;
    if i > 0 {
      assert ps[..i][0] == ps[0] && ps[..i][1..] == ps[1..][..i - 1] && ps[1..][i - 1] == ps[i];
    }
  }

  /** A list goes through no old link, and then does what `Patch` says of the values, exactly if no operation
      reached detaches a first member that holds one. */
  lemma {:induction false} RunsAgree(doc: Linked, ps: seq<Json>)
    ensures Agrees(ApplyAll(doc, ps), Patch.ApplyAll(Erase(doc), ps)) <==>
            !exists i :: 0 <= i < |ps| && TanglesAt(doc, ps, i)
    decreases |ps|
  {
    if ps != [] {
      TanglesExactly(doc, ps[0]);
      hide ApplyPatch, Patch.ApplyPatch, Tangles, TanglesAt, Erase;
      var r := ApplyPatch(doc, ps[0]);
      forall i | 0 <= i < |ps|
        ensures TanglesAt(doc, ps, i) <==>
                if i == 0 then Tangles(doc, ps[0]) else r.Ran? && r.code == 0 && TanglesAt(r.doc, ps[1..], i - 1)
      {
        TanglesAtStep(doc, ps, i);
      }
      if r.Ran? && r.code == 0 {
        RunsAgree(r.doc, ps[1..]);
        if i :| 0 <= i < |ps[1..]| && TanglesAt(r.doc, ps[1..], i) { assert TanglesAt(doc, ps, i + 1); }
      } else if r == Tangled {
        assert TanglesAt(doc, ps, 0);
      }
    }
  }

  // ----- documents without old links

  lemma {:induction false} CleanNode(t: Linked, loc: Loc)
    requires Clean(t) && ValidLoc(Erase(t), loc)
    ensures Clean(NodeAt(t, loc))
    decreases |loc|
  {
    if loc != [] {
      CleanKid(t, loc[0]);
      CleanNode(Kids(t)[loc[0]], loc[1..]);
    }
  }

  lemma CleanKid(t: Linked, i: nat)
    requires Clean(t) && i < |Kids(t)|
    ensures Clean(Kids(t)[i])
  {
    match t
    case Items(xs) => assert xs[i] in xs;
    case Members(ms, _) => assert ms[i] in ms;
    case Leaf(_) =>
  }

  lemma {:induction false} CleanPut(t: Linked, loc: Loc, u: Linked)
    requires Clean(t) && Clean(u) && ValidLoc(Erase(t), loc)
    ensures Clean(PutAt(t, loc, u))
    decreases |loc|
  {
    if loc != [] {
      CleanKid(t, loc[0]);
      CleanPut(Kids(t)[loc[0]], loc[1..], u);
    }
  }

  lemma CleanEdits(node: Linked, name: string, value: Linked)
    requires Clean(node) && Clean(value)
    ensures !HitsOldLink(node, name) && Clean(AddKid(node, name, value))
    ensures var (rest, item) := DetachKid(node, name); Clean(rest) && (item.Some? ==> Clean(item.value))
  {
  }

  lemma CleanDetach(doc: Linked, path: string)
    requires Clean(doc)
    ensures !Hits(doc, path)
    ensures match PatchDetach(doc, path)
      case Taken(doc', item) => Clean(doc') && (item.Some? ==> Clean(item.value))
      case NoPath => true
      case Loop => false
  {
    hide Clean, HitsOldLink, DetachKid, AddKid, Resolve, SplitPath, Erase;
    if SplitPath(path).Some? {
      var (parent, name) := SplitPath(path).value;
      ResolveIsValid(Erase(doc), parent);
      var r := Resolve(Erase(doc), parent);
      if r.Some? {
        CleanNode(doc, r.value);
        CleanEdits(NodeAt(doc, r.value), name, NodeAt(doc, r.value));
        CleanPut(doc, r.value, DetachKid(NodeAt(doc, r.value), name).0);
      }
    }
  }

  lemma CleanAdd(doc: Linked, path: string, value: Linked)
    requires Clean(doc) && Clean(value)
    ensures var r := PatchAdd(doc, path, value); r != Tangled && (r.Ran? ==> Clean(r.doc))
  {
    hide Clean, HitsOldLink, DetachKid, AddKid, Resolve, SplitPath, Erase;
    if SplitPath(path).Some? {
      var (parent, name) := SplitPath(path).value;
      ResolveIsValid(Erase(doc), parent);
      var r := Resolve(Erase(doc), parent);
      if r.Some? {
        CleanNode(doc, r.value);
        CleanEdits(NodeAt(doc, r.value), name, value);
        CleanPut(doc, r.value, AddKid(NodeAt(doc, r.value), name, value));
      }
    }
  }

  ghost predicate StaysClean(r: Run) {
    r != Tangled && (r.Ran? ==> Clean(r.doc))
  }

  lemma CleanValue(doc: Linked, path: Json, value: Option<Json>)
    requires Clean(doc)
    ensures StaysClean(ApplyAdd(doc, path, value)) && StaysClean(ApplyRemove(doc, path)) && StaysClean(ApplyReplace(doc, path, value))
  {
    hide Clean, PatchDetach, PatchAdd, Hits, Fresh;
    if path.String? { CleanDetach(doc, path.s); }
    if value.Some? {
      FreshIsClean(value.value);
      if path.String? {
        CleanAdd(doc, path.s, Fresh(value.value));
        if PatchDetach(doc, path.s).Taken? { CleanAdd(PatchDetach(doc, path.s).doc, path.s, Fresh(value.value)); }
      }
    }
  }

  lemma CleanFromOption(doc: Linked, path: Json, from: Option<Json>)
    requires Clean(doc)
    ensures StaysClean(ApplyCopy(doc, path, from)) && StaysClean(ApplyMove(doc, path, from))
  {
    hide Clean, PatchDetach, PatchAdd, Resolve, Hits, Erase;
    if from.Some? && from.value.String? {
      CleanDetach(doc, from.value.s);
      ResolveIsValid(Erase(doc), from.value.s);
      if path.String? { CleanFrom(doc, path.s, from.value.s); }
    }
  }

  /** Only "test" leaves old links, so nothing else tangles a document that has none. */
  lemma CleanStep(doc: Linked, patch: Json)
    requires Clean(doc) && PathOf(patch, "op") != Some("test")
    ensures StaysClean(ApplyPatch(doc, patch))
  {
    hide Resolve, Hits, Fresh, Erase, PatchDetach, PatchAdd, GetItem, Clean, ApplyAdd, ApplyRemove, ApplyReplace, ApplyMove, ApplyCopy, ApplyTest;
    var op, path := GetItem(patch, "op"), GetItem(patch, "path");
    if path.Some? {
      CleanValue(doc, path.value, GetItem(patch, "value"));
      CleanFromOption(doc, path.value, GetItem(patch, "from"));
    }
  }

  lemma CleanFrom(doc: Linked, path: string, from: string)
    requires Clean(doc)
    ensures StaysClean(ApplyCopy(doc, String(path), Some(String(from))))
    ensures StaysClean(ApplyMove(doc, String(path), Some(String(from))))
  {
    hide Clean, PatchDetach, PatchAdd, Resolve, Hits, Erase;
    CleanDetach(doc, from);
    var d := PatchDetach(doc, from);
    if d.Taken? && d.item.Some? { CleanAdd(d.doc, path, d.item.value); }
    ResolveIsValid(Erase(doc), from);
    var r := Resolve(Erase(doc), from);
    if r.Some? {
      FreshIsClean(Erase(NodeAt(doc, r.value)));
      CleanAdd(doc, path, Fresh(Erase(NodeAt(doc, r.value))));
    }
  }

  /** A list without "test" runs on such a document as `Patch` says. */
  lemma {:induction false} CleanRun(doc: Linked, ps: seq<Json>)
    requires Clean(doc) && forall p :: p in ps ==> PathOf(p, "op") != Some("test")
    ensures Agrees(ApplyAll(doc, ps), Patch.ApplyAll(Erase(doc), ps))
    ensures ApplyAll(doc, ps).Ran? ==> Clean(ApplyAll(doc, ps).doc)
    decreases |ps|
  {
    if ps != [] {
      assert ps[0] in ps;
      CleanStep(doc, ps[0]);
      TanglesExactly(doc, ps[0]);
      hide ApplyPatch, Patch.ApplyPatch, Tangles, PathOf, Clean, Erase;
      var r := ApplyPatch(doc, ps[0]);
      if r.Ran? && r.code == 0 { CleanRun(r.doc, ps[1..]); }
    }
  }

  // ----- a "test" followed by an edit

  lemma TwoFresh(v: Json)
    requires v == Object([Entry("b", Number(1)), Entry("a", Number(2))])
    ensures Fresh(v) == Members([Entry("b", Leaf(Number(1))), Entry("a", Leaf(Number(2)))], false)
  {
    assert Fresh(v).members == [Entry("b", Leaf(Number(1))), Entry("a", Leaf(Number(2)))];
  }

  lemma TwoMembers(v: Json)
    requires v == Object([Entry("b", Number(1)), Entry("a", Number(2))])
    ensures Visited(Fresh(v), v) == Members([Entry("a", Leaf(Number(2))), Entry("b", Leaf(Number(1)))], true)
    ensures Comparison(v, v).code == 0
  {
    CompareIsEquivalence(v, v, v);
    TwoFresh(v);
    var ms := Fresh(v).members;
    assert CaseOrder("b", "a") > 0;
    SortTwo(ms);
    SortTwo(v.members);
    assert !FirstIsLeast(ms) by { assert !Before(ms[0], ms[1]); }
    hide *;
    VisitedIs(ms, false, v);
    SortedIs(ms, false);
    TwoVisited(Sort(ms), Sort(v.members), Fresh(v));
  }

  lemma TwoVisited(fs: seq<Entry<Linked>>, ts: seq<Entry<Json>>, owner: Linked)
    requires fs == [Entry("a", Leaf(Number(2))), Entry("b", Leaf(Number(1)))]
    requires ts == [Entry("a", Number(2)), Entry("b", Number(1))]
    requires forall e | e in fs :: e.item < owner
    ensures VisitedMembers(fs, ts, owner) == fs
  {
    assert fs[1..] == [fs[1]] && fs[1..][1..] == [] && ts[1..] == [ts[1]];
    assert VisitedMembers(fs[1..], ts[1..], owner) == [fs[1]];
  }
}
