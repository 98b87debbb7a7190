/** JSON Patch on documents whose nodes have identities. Detaching a first member writes through its old
    link; here the outcome of that write is told apart: it changes nothing, or it breaks the document. */
module NodePatch {
  import opened Json
  import opened Sorting
  import opened Numerals
  import opened Compare
  import opened Pointer
  import opened Patch
  import opened OldLinks
  import opened NodeTrees
  import LinkedPatch

  /** `next` is the first number no node has had yet. `Tangled`: the write went into a freed node, into a
      node that then has a next node it should not have, or cut off what came behind a node; from then
      on the nodes are not a tree with the values that `Patch` says. */
  datatype NodeRun = Ran(code: int, doc: Cell, next: nat) | Astray | Tangled

  datatype Detachment = Taken(doc: Cell, item: Option<Cell>) | NoPath | Broken

  /** Detaching the first member stores the node behind it into the node `p` that the old link leads to.
      That changes nothing if there is no node behind it, and `p` is the last of its list by now, in the
      document or in a value just taken out of it. */
  predicate Harmless(node: Cell, p: nat, doc: Cell, hand: Option<Cell>)
    requires node.Record?
  {
    |node.members| == 1 && (LastIn(doc, p) || (hand.Some? && LastIn(hand.value, p)))
  }

  /** Detaching `name` from this node of `doc` breaks the document; `hand` is a value taken out of it. */
  predicate Breaks(node: Cell, name: string, doc: Cell, hand: Option<Cell>) {
    && node.Record? && node.link.Some? && node.members != [] && FindName(node.members, name) == 0
    && !Harmless(node, node.link.value, doc, hand)
  }

  /** The same for the node and the name a path stands for. */
  predicate BreaksAt(doc: Cell, hand: Option<Cell>, path: string) {
    match SplitPath(path)
    case None => false
    case Some((parent, name)) =>
      ResolveIsValid(Value(doc), parent);
      match Resolve(Value(doc), parent)
      case None => false
      case Some(loc) => Breaks(CellAt(doc, loc), name, doc, hand)
  }

  /** Of an empty list nothing holds a link. */
  function DetachPart(c: Cell, name: string): (Cell, Option<Cell>) {
    match c
    case List(id, xs) =>
      var i := Clamp(Atoi(name));
      if i < |xs| then (List(id, Without(xs, i)), Some(xs[i])) else (c, None)
    case Record(id, ms, link) =>
      var i := FindName(ms, name);
      if i < |ms| then (Record(id, Without(ms, i), if |ms| == 1 then None else link), Some(ms[i].item)) else (c, None)
    case _ => (c, None)
  }

  function AddPart(c: Cell, name: string, value: Cell): Cell {
    match c
    case List(id, xs) => List(id, if name == "-" then xs + [value] else InsertAt(xs, Atoi(name), value))
    case Record(id, ms, link) =>
      var ns := SetMember(ms, Entry(name, value));
      Record(id, ns, if |ns| == 1 then None else link)
    case _ => c
  }

  function PatchDetach(doc: Cell, path: string): Detachment {
    match SplitPath(path)
    case None => NoPath
    case Some((parent, name)) =>
      ResolveIsValid(Value(doc), parent);
      match Resolve(Value(doc), parent)
      case None => Taken(doc, None)
      case Some(loc) =>
        if Breaks(CellAt(doc, loc), name, doc, None) then Broken
        else
          var (node, item) := DetachPart(CellAt(doc, loc), name);
          Taken(SetCell(doc, loc, node), item)
  }

  /** `hand` is the value if it was taken out of the document; no old link leads into a copy. */
  function PatchAdd(doc: Cell, next: nat, path: string, value: Cell, hand: Option<Cell>): NodeRun {
    match SplitPath(path)
    case None => Astray
    case Some((parent, name)) =>
      ResolveIsValid(Value(doc), parent);
      match Resolve(Value(doc), parent)
      case None => Ran(9, doc, next)
      case Some(loc) =>
        if Breaks(CellAt(doc, loc), name, doc, hand) then Tangled
        else Ran(0, SetCell(doc, loc, AddPart(CellAt(doc, loc), name, value)), next)
  }

  /** A copy of a value is added. */
  function AddCopy(doc: Cell, next: nat, path: string, v: Json): NodeRun {
    var (value, next') := Label(v, next);
    PatchAdd(doc, next', path, value, None)
  }

  ghost function ApplyTest(doc: Cell, next: nat, path: Json, value: Option<Json>): NodeRun {
    if !path.String? || value.None? then Astray
    else
      ResolveIsValid(Value(doc), path.s);
      match Resolve(Value(doc), path.s)
      case None => Astray
      case Some(loc) =>
        var node := CellAt(doc, loc);
        Ran(Comparison(Value(node), value.value).code, SetCell(doc, loc, VisitedCell(node, value.value)), next)
  }

  function ApplyRemove(doc: Cell, next: nat, path: Json): NodeRun {
    if !path.String? then Astray
    else match PatchDetach(doc, path.s)
      case NoPath => Astray
      case Broken => Tangled
      case Taken(doc', _) => Ran(0, doc', next)
  }

  function ApplyAdd(doc: Cell, next: nat, path: Json, value: Option<Json>): NodeRun {
    match value
    case None => Ran(7, doc, next)
    case Some(v) => if path.String? then AddCopy(doc, next, path.s, v) else Astray
  }

  function ApplyReplace(doc: Cell, next: nat, path: Json, value: Option<Json>): NodeRun {
    match ApplyRemove(doc, next, path)
    case Ran(_, doc', _) => ApplyAdd(doc', next, path, value)
    case r => r
  }

  /** The value moved is the detached node, with all its nodes and links. */
  function ApplyMove(doc: Cell, next: nat, path: Json, from: Option<Json>): NodeRun {
    if from.None? then Ran(4, doc, next)
    else if !from.value.String? then Astray
    else match PatchDetach(doc, from.value.s)
      case NoPath => Astray
      case Broken => Tangled
      case Taken(doc', None) => Ran(5, doc', next)
      case Taken(doc', Some(c)) => if path.String? then PatchAdd(doc', next, path.s, c, Some(c)) else Astray
  }

  function ApplyCopy(doc: Cell, next: nat, path: Json, from: Option<Json>): NodeRun {
    if from.None? then Ran(4, doc, next)
    else if !from.value.String? then Astray
    else
      ResolveIsValid(Value(doc), from.value.s);
      match Resolve(Value(doc), from.value.s)
      case None => Ran(5, doc, next)
      case Some(loc) => if path.String? then AddCopy(doc, next, path.s, Value(CellAt(doc, loc))) else Astray
  }

  /** `cJSONUtils_ApplyPatch`. */
  ghost function ApplyPatch(doc: Cell, next: nat, patch: Json): NodeRun {
    var op, path := GetItem(patch, "op"), GetItem(patch, "path");
    if op.None? || path.None? then Ran(2, doc, next)
    else if !op.value.String? then Astray
    else if op.value.s == "add" then ApplyAdd(doc, next, path.value, GetItem(patch, "value"))
    else if op.value.s == "remove" then ApplyRemove(doc, next, path.value)
    else if op.value.s == "replace" then ApplyReplace(doc, next, path.value, GetItem(patch, "value"))
    else if op.value.s == "move" then ApplyMove(doc, next, path.value, GetItem(patch, "from"))
    else if op.value.s == "copy" then ApplyCopy(doc, next, path.value, GetItem(patch, "from"))
    else if op.value.s == "test" then ApplyTest(doc, next, path.value, GetItem(patch, "value"))
    else Ran(3, doc, next)
  }

  ghost function ApplyAll(doc: Cell, next: nat, patches: seq<Json>): NodeRun
    decreases patches
  {
    if patches == [] then Ran(0, doc, next)
    else match ApplyPatch(doc, next, patches[0])
      case Ran(0, doc', next') => ApplyAll(doc', next', patches[1..])
      case r => r
  }

  /** `cJSONUtils_ApplyPatches`. */
  ghost function ApplyPatches(doc: Cell, next: nat, patches: Json): NodeRun {
    if !patches.Array? then Ran(1, doc, next) else ApplyAll(doc, next, patches.items)
  }

  // ----- the run of `Patch` on the values

  /** The nodes are a tree with the value `a` says. */
  ghost predicate Agrees(r: NodeRun, a: Applied) {
    match r
    case Ran(code, doc, _) => a == Applied(code, Value(doc))
    case Astray => a == Undefined
    case Tangled => false
  }

  lemma MarkErased(ms: seq<Entry<Linked>>)
    ensures Erase(Members(ms, true)) == Erase(Members(ms, false))
  {
    hide EraseMembers;
  }

  lemma DetachPartMarks(c: Cell, name: string)
    ensures var (rest, item) := DetachPart(c, name);
      && rest.id == c.id
      && DetachChild(Value(c), name) == (Value(rest), EraseOption(MarkOption(item)))
      && (!LinkedPatch.HitsOldLink(Marks(c), name) ==> LinkedPatch.DetachKid(Marks(c), name) == (Marks(rest), MarkOption(item)))
  {
    LinkedPatch.DetachKidErases(Marks(c), name);
    hide Erase, DetachChild;
    match c
    case List(_, xs) =>
      var i := Clamp(Atoi(name));
      if i < |xs| { MarkWithoutItem(xs, i); }
      hide Atoi, Without;
    case Record(_, ms, _) =>
      MarkFinds(ms, name);
      var i := FindName(ms, name);
      if i < |ms| {
        MarkWithout(ms, i);
        MarkErased(MarkMembers(Without(ms, i)));
      }
      hide FindName, Without, MarkMembers;
    case Plain(_, _) =>
  }

  lemma MarkInserts(xs: seq<Cell>, which: int, value: Cell)
    ensures MarkItems(InsertAt(xs, which, value)) == InsertAt(MarkItems(xs), which, Marks(value))
    ensures MarkItems(xs + [value]) == MarkItems(xs) + [Marks(value)]
  {
    hide Marks;
    var i := Clamp(which);
    if i < |xs| {
      assert MarkItems(xs[..i] + [value] + xs[i..]) == MarkItems(xs)[..i] + [Marks(value)] + MarkItems(xs)[i..];
    }
  }

  lemma MarkSets(ms: seq<Entry<Cell>>, e: Entry<Cell>)
    ensures MarkMembers(SetMember(ms, e)) == SetMember(MarkMembers(ms), Entry(e.name, Marks(e.item)))
  {
    MarkFinds(ms, e.name);
    var i := FindName(ms, e.name);
    if i < |ms| { MarkWithout(ms, i); }
    hide Marks, Without, FindName;
    assert forall ns :: MarkMembers(ns + [e]) == MarkMembers(ns) + [Entry(e.name, Marks(e.item))];
  }

  lemma AddPartMarks(c: Cell, name: string, value: Cell)
    ensures AddPart(c, name, value).id == c.id
    ensures Value(AddPart(c, name, value)) == AddChild(Value(c), name, Value(value))
    ensures !LinkedPatch.HitsOldLink(Marks(c), name) ==> Marks(AddPart(c, name, value)) == LinkedPatch.AddKid(Marks(c), name, Marks(value))
  {
    LinkedPatch.AddKidErases(Marks(c), name, Marks(value));
    match c
    case List(_, xs) =>
      MarkInserts(xs, Atoi(name), value);
      hide InsertAt, Atoi, MarkItems;
    case Record(_, ms, _) =>
      MarkFinds(ms, name);
      MarkSets(ms, Entry(name, value));
      hide MarkMembers;
    case Plain(_, _) =>
  }

  lemma DetachValues(doc: Cell, path: string)
    ensures PatchDetach(doc, path) == Broken <==> BreaksAt(doc, None, path)
    ensures match PatchDetach(doc, path)
      case Broken => true
      case NoPath => Patch.PatchDetach(Value(doc), path) == DetachResult.Lost
      case Taken(doc', item) => Patch.PatchDetach(Value(doc), path) == DetachResult.Detached(Value(doc'), EraseOption(MarkOption(item)))
  {
    hide Erase, Marks, Resolve, DetachPart, DetachChild, SplitPath, CellAt, SetCell, Breaks;
    if SplitPath(path).Some? {
      var (parent, name) := SplitPath(path).value;
      ResolveIsValid(Value(doc), parent);
      var r := Resolve(Value(doc), parent);
      if r.Some? { DetachPartMarks(CellAt(doc, r.value), name); }
    }
  }

  lemma AddValues(doc: Cell, next: nat, path: string, value: Cell, hand: Option<Cell>)
    ensures PatchAdd(doc, next, path, value, hand) == Tangled <==> BreaksAt(doc, hand, path)
    ensures !BreaksAt(doc, hand, path) ==>
              Agrees(PatchAdd(doc, next, path, value, hand), Patch.PatchAdd(Value(doc), path, Value(value)))
  {
    hide Erase, Marks, Resolve, AddPart, AddChild, SplitPath, CellAt, SetCell, Breaks;
    if SplitPath(path).Some? {
      var (parent, name) := SplitPath(path).value;
      ResolveIsValid(Value(doc), parent);
      var r := Resolve(Value(doc), parent);
      if r.Some? { AddPartMarks(CellAt(doc, r.value), name, value); }
    }
  }

  lemma CopyValues(doc: Cell, next: nat, path: string, v: Json)
    ensures AddCopy(doc, next, path, v) == Tangled <==> BreaksAt(doc, None, path)
    ensures !BreaksAt(doc, None, path) ==> Agrees(AddCopy(doc, next, path, v), Patch.PatchAdd(Value(doc), path, v))
  {
    var r := Label(v, next);
    assert Value(r.0) == v;
    hide Label, PatchAdd, Patch.PatchAdd, BreaksAt, Marks, Erase;
    AddValues(doc, r.1, path, r.0, None);
  }

  lemma TestValues(doc: Cell, next: nat, path: Json, value: Option<Json>)
    ensures Agrees(ApplyTest(doc, next, path, value), Patch.ApplyTest(Value(doc), path, value))
  {
    hide Erase, Marks, Resolve, CellAt, SetCell, VisitedCell, Comparison;
    if path.String? && value.Some? {
      ResolveIsValid(Value(doc), path.s);
      var r := Resolve(Value(doc), path.s);
      if r.Some? {
        VisitedMarks(CellAt(doc, r.value), value.value);
        EraseVisited(Marks(CellAt(doc, r.value)), value.value);
      }
    }
  }

  lemma {:induction false} CellPut(c: Cell, loc: Loc, u: Cell)
    requires ValidLoc(Value(c), loc)
    ensures ValidLoc(Value(SetCell(c, loc, u)), loc) && CellAt(SetCell(c, loc, u), loc) == u
    decreases |loc|
  {
    if loc != [] { CellPut(Parts(c)[loc[0]], loc[1..], u); }
  }

  /** What is left under a name after detaching it is not a first member with an old link. */
  lemma DetachPartOnce(c: Cell, name: string, doc: Cell, hand: Option<Cell>)
    requires !(c.Record? && c.link.Some? && |c.members| > 1 && FindName(c.members, name) == 0)
    ensures !Breaks(DetachPart(c, name).0, name, doc, hand)
  {
    if c.Record? {
      var ms, i := c.members, FindName(c.members, name);
      if 0 < i < |ms| {
        assert Without(ms, i)[0] == ms[0];
        CaseOrderZero(ms[0].name, name);
      }
      hide LastIn;
    }
  }

  lemma NotBroken(c: Cell, name: string, doc: Cell, hand: Option<Cell>)
    requires !Breaks(c, name, doc, hand)
    ensures !(c.Record? && c.link.Some? && |c.members| > 1 && FindName(c.members, name) == 0)
  {
    hide LastIn, FindName;
  }

  lemma DetachOnce(doc: Cell, path: string, hand: Option<Cell>)
    ensures match PatchDetach(doc, path) case Taken(doc', _) => !BreaksAt(doc', hand, path) case _ => true
  {
    if PatchDetach(doc, path).Taken? {
      var (parent, name) := SplitPath(path).value;
      hide Resolve, DetachPart, Breaks, SplitPath, Erase, Marks, SetAt;
      ResolveIsValid(Value(doc), parent);
      var r := Resolve(Value(doc), parent);
      if r.Some? {
        var rest := DetachPart(CellAt(doc, r.value), name).0;
        NotBroken(CellAt(doc, r.value), name, doc, None);
        DetachPartOnce(CellAt(doc, r.value), name, SetCell(doc, r.value, rest), hand);
        LinkedPatch.ResolveAgain(Value(doc), parent, Value(rest));
        CellPut(doc, r.value, rest);
      }
    }
  }

  // ----- exactly when an operation breaks the document

  predicate MoveTangles(doc: Cell, path: Option<string>, from: string) {
    || BreaksAt(doc, None, from)
    || (path.Some? && match PatchDetach(doc, from)
                      case Taken(doc', Some(c)) => BreaksAt(doc', Some(c), path.value)
                      case _ => false)
  }

  /** The operation detaches a first member whose old link leads where a write does harm. A moved value
      is taken out before it is put in, and what a replaced member leaves holds no link to go through. */
  predicate Tangles(doc: Cell, patch: Json) {
    var op, path := LinkedPatch.PathOf(patch, "op"), LinkedPatch.PathOf(patch, "path");
    if op.None? then false
    else if op.value == "add" then path.Some? && GetItem(patch, "value").Some? && BreaksAt(doc, None, path.value)
    else if op.value == "remove" || op.value == "replace" then path.Some? && BreaksAt(doc, None, path.value)
    else if op.value == "move" then
      GetItem(patch, "path").Some? && LinkedPatch.PathOf(patch, "from").Some?
      && MoveTangles(doc, path, LinkedPatch.PathOf(patch, "from").value)
    else if op.value == "copy" then
      path.Some? && LinkedPatch.PathOf(patch, "from").Some? && BreaksAt(doc, None, path.value)
      && Resolve(Value(doc), LinkedPatch.PathOf(patch, "from").value).Some?
    else false
  }

  ghost predicate Faithful(tangles: bool, r: NodeRun, a: Applied) {
    (r == Tangled <==> tangles) && (!tangles ==> Agrees(r, a))
  }

  lemma AddFaithful(doc: Cell, next: nat, path: Json, value: Option<Json>)
    ensures Faithful(path.String? && value.Some? && BreaksAt(doc, None, path.s), ApplyAdd(doc, next, path, value),
                     Patch.ApplyAdd(Value(doc), path, value))
  {
    hide BreaksAt, Erase, Marks, AddCopy, Patch.PatchAdd;
    if path.String? && value.Some? { CopyValues(doc, next, path.s, value.value); }
  }

  lemma RemoveFaithful(doc: Cell, next: nat, path: Json)
    ensures Faithful(path.String? && BreaksAt(doc, None, path.s), ApplyRemove(doc, next, path), Patch.ApplyRemove(Value(doc), path))
  {
    hide BreaksAt, Erase, Marks, PatchDetach, Patch.PatchDetach;
    if path.String? { DetachValues(doc, path.s); }
  }

  lemma ReplaceFaithful(doc: Cell, next: nat, path: Json, value: Option<Json>)
    ensures Faithful(path.String? && BreaksAt(doc, None, path.s), ApplyReplace(doc, next, path, value),
                     Patch.ApplyReplace(Value(doc), path, value))
  {
    hide BreaksAt, Erase, Marks, PatchDetach, Patch.PatchDetach, ApplyAdd, Patch.ApplyAdd;
    if path.String? {
      DetachValues(doc, path.s);
      DetachOnce(doc, path.s, None);
      var d := PatchDetach(doc, path.s);
      if d.Taken? { AddFaithful(d.doc, next, path, value); }
    }
  }

  lemma MoveFaithful(doc: Cell, next: nat, path: Json, from: Option<Json>)
    ensures Faithful(from.Some? && from.value.String? && MoveTangles(doc, if path.String? then Some(path.s) else None, from.value.s),
                     ApplyMove(doc, next, path, from), Patch.ApplyMove(Value(doc), path, from))
  {
    hide BreaksAt, Erase, Marks, PatchDetach, Patch.PatchDetach, PatchAdd, Patch.PatchAdd;
    if from.Some? && from.value.String? {
      DetachValues(doc, from.value.s);
      var d := PatchDetach(doc, from.value.s);
      if d.Taken? && d.item.Some? && path.String? { AddValues(d.doc, next, path.s, d.item.value, d.item); }
    }
  }

  lemma CopyFaithful(doc: Cell, next: nat, path: Json, from: Option<Json>)
    ensures Faithful(path.String? && from.Some? && from.value.String? && BreaksAt(doc, None, path.s)
                     && Resolve(Value(doc), from.value.s).Some?,
                     ApplyCopy(doc, next, path, from), Patch.ApplyCopy(Value(doc), path, from))
  {
    hide BreaksAt, Erase, Marks, AddCopy, Patch.PatchAdd, Resolve;
    if from.Some? && from.value.String? {
      ResolveIsValid(Value(doc), from.value.s);
      var r := Resolve(Value(doc), from.value.s);
      if r.Some? && path.String? { CopyValues(doc, next, path.s, Value(CellAt(doc, r.value))); }
    }
  }

  lemma TestFaithful(doc: Cell, next: nat, path: Json, value: Option<Json>)
    ensures Faithful(false, ApplyTest(doc, next, path, value), Patch.ApplyTest(Value(doc), path, value))
  {
    TestValues(doc, next, path, value);
    hide ApplyTest, Patch.ApplyTest, Marks, Erase;
  }

  lemma TanglesIs(doc: Cell, patch: Json)
    ensures var op, path, value, from := GetItem(patch, "op"), GetItem(patch, "path"), GetItem(patch, "value"), GetItem(patch, "from");
      Tangles(doc, patch) <==>
        && op.Some? && path.Some? && op.value.String?
        && if op.value.s == "add" then path.value.String? && value.Some? && BreaksAt(doc, None, path.value.s)
           else if op.value.s == "remove" || op.value.s == "replace" then path.value.String? && BreaksAt(doc, None, path.value.s)
           else if op.value.s == "move" then
             && from.Some? && from.value.String?
             && MoveTangles(doc, if path.value.String? then Some(path.value.s) else None, from.value.s)
           else
             && op.value.s == "copy" && path.value.String? && from.Some? && from.value.String? && BreaksAt(doc, None, path.value.s)
             && Resolve(Value(doc), from.value.s).Some?
  {
    hide GetItem, BreaksAt, Erase, Marks, Resolve, MoveTangles;
  }

  /** One operation breaks the document exactly if `Tangles` says so of the document before it, and
      otherwise does what `Patch` says. */
  lemma TanglesExactly(doc: Cell, next: nat, patch: Json)
    ensures ApplyPatch(doc, next, patch) == Tangled <==> Tangles(doc, patch)
    ensures !Tangles(doc, patch) ==> Agrees(ApplyPatch(doc, next, patch), Patch.ApplyPatch(Value(doc), patch))
  {
    hide GetItem, BreaksAt, Erase, Marks, Resolve, MoveTangles, Tangles, ApplyAdd, ApplyRemove, ApplyReplace, ApplyMove, ApplyCopy,
      ApplyTest, Patch.ApplyAdd, Patch.ApplyRemove, Patch.ApplyReplace, Patch.ApplyMove, Patch.ApplyCopy, Patch.ApplyTest;
    TanglesIs(doc, patch);
    var op, path, value, from := GetItem(patch, "op"), GetItem(patch, "path"), GetItem(patch, "value"), GetItem(patch, "from");
    if op.Some? && path.Some? && op.value.String? {
      if op.value.s == "add" { AddFaithful(doc, next, path.value, value); }
      else if op.value.s == "remove" { RemoveFaithful(doc, next, path.value); }
      else if op.value.s == "replace" { ReplaceFaithful(doc, next, path.value, value); }
      else if op.value.s == "move" { MoveFaithful(doc, next, path.value, from); }
      else if op.value.s == "copy" { CopyFaithful(doc, next, path.value, from); }
      else if op.value.s == "test" { TestFaithful(doc, next, path.value, value); }
    }
  }

  // ----- exactly when a run goes as on the values

  /** Operation `i` of a list breaks the document, all before it having succeeded. */
  ghost predicate TanglesAt(doc: Cell, next: nat, ps: seq<Json>, i: nat)
    requires i < |ps|
  {
    match ApplyAll(doc, next, ps[..i]) case Ran(0, d, _) => Tangles(d, ps[i]) case _ => false
  }

  lemma TanglesAtStep(doc: Cell, next: nat, ps: seq<Json>, i: nat)
    requires i < |ps|
    ensures TanglesAt(doc, next, ps, i) <==>
            if i == 0 then Tangles(doc, ps[0])
            else match ApplyPatch(doc, next, ps[0]) case Ran(0, d, m) => TanglesAt(d, m, ps[1..], i - 1) case _ => false
  {
    hide ApplyPatch, Tangles;
    if i > 0 {
      assert ps[..i][0] == ps[0] && ps[..i][1..] == ps[1..][..i - 1] && ps[1..][i - 1] == ps[i];
    }
  }

  lemma {:induction false} RunAgrees(doc: Cell, next: nat, ps: seq<Json>)
    ensures Agrees(ApplyAll(doc, next, ps), Patch.ApplyAll(Value(doc), ps)) <==>
            !exists i :: 0 <= i < |ps| && TanglesAt(doc, next, ps, i)
    decreases |ps|
  {
    if ps != [] {
      TanglesExactly(doc, next, ps[0]);
      hide ApplyPatch, Patch.ApplyPatch, Tangles, TanglesAt, Marks, Erase;
      var r := ApplyPatch(doc, next, ps[0]);
      forall i | 0 <= i < |ps|
        ensures TanglesAt(doc, next, ps, i) <==>
                if i == 0 then Tangles(doc, ps[0]) else r.Ran? && r.code == 0 && TanglesAt(r.doc, r.next, ps[1..], i - 1)
      {
        TanglesAtStep(doc, next, ps, i);
      }
      if r.Ran? && r.code == 0 {
        RunAgrees(r.doc, r.next, ps[1..]);
        if i :| 0 <= i < |ps[1..]| && TanglesAt(r.doc, r.next, ps[1..], i) { assert TanglesAt(doc, next, ps, i + 1); }
      } else if r == Tangled {
        assert TanglesAt(doc, next, ps, 0);
      }
    }
  }

  lemma PrefixTangles(doc: Cell, next: nat, ps: seq<Json>, n: nat, i: nat)
    requires i < n <= |ps|
    ensures TanglesAt(doc, next, ps[..n], i) <==> TanglesAt(doc, next, ps, i)
  {
    assert ps[..n][..i] == ps[..i];
    hide ApplyAll, Tangles;
  }

  /** After every part of the list the nodes are a tree with the value that the operations give on values,
      if and only if no operation reached detaches a first member whose old link leads where the write
      does harm. */
  lemma RunsAgree(doc: Cell, next: nat, ps: seq<Json>)
    ensures (forall n :: 0 <= n <= |ps| ==> Agrees(ApplyAll(doc, next, ps[..n]), Patch.ApplyAll(Value(doc), ps[..n]))) <==>
            !exists i :: 0 <= i < |ps| && TanglesAt(doc, next, ps, i)
  {
    hide *;
    assert ps[..|ps|] == ps;
    RunAgrees(doc, next, ps);
    forall n | 0 <= n <= |ps|
      ensures !(exists i :: 0 <= i < |ps| && TanglesAt(doc, next, ps, i)) ==>
                Agrees(ApplyAll(doc, next, ps[..n]), Patch.ApplyAll(Value(doc), ps[..n]))
    {
      RunAgrees(doc, next, ps[..n]);
      if i :| 0 <= i < |ps[..n]| && TanglesAt(doc, next, ps[..n], i) { PrefixTangles(doc, next, ps, n, i); }
    }
  }
}
