/** JSON Patch: applying one operation, applying a list of them, and generating a list from
    two trees. The functions say what the statements of `cJSON_Utils.c` compute. */
module Patch {
  import opened Json
  import opened Numerals
  import opened Sorting
  import opened Compare
  import opened Pointer

  // ----- applying

  /** The returned code and the document afterwards; `Undefined` where the C code follows a
      null pointer or steps over a terminator. */
  datatype Applied = Applied(code: int, doc: Json) | Undefined

  datatype DetachResult = Detached(doc: Json, item: Option<Json>) | Lost

  /** Index of the last '/', as `strrchr` finds it. */
  function LastSlash(s: string): (r: Option<nat>)
    ensures r.Some? ==> r.value < |s| && s[r.value] == '/'
  {
    if s == [] then None
    else if s[|s| - 1] == '/' then Some(|s| - 1)
    else LastSlash(s[..|s| - 1])
  }

  /** Text of the parent's pointer and the decoded last token; `None` if there is no '/' or
      the token ends in the middle of an escape. */
  function SplitPath(path: string): Option<(string, string)> {
    match LastSlash(path)
    case None => None
    case Some(i) =>
      match Decode(path[i + 1..])
      case None => None
      case Some(name) => Some((path[..i], name))
  }

  function DetachChild(node: Json, name: string): (Json, Option<Json>) {
    match node
    case Array(xs) =>
      var i := Clamp(Atoi(name));
      if i < |xs| then (Array(Without(xs, i)), Some(xs[i])) else (node, None)
    case Object(ms) =>
      var i := FindName(ms, name);
      if i < |ms| then (Object(Without(ms, i)), Some(ms[i].item)) else (node, None)
    case _ => (node, None)
  }

  function InsertAt<T>(xs: seq<T>, which: int, x: T): seq<T> {
    var i := Clamp(which);
    if i < |xs| then xs[..i] + [x] + xs[i..] else xs + [x]
  }

  function AddChild(node: Json, name: string, value: Json): Json {
    match node
    case Array(xs) => Array(if name == "-" then xs + [value] else InsertAt(xs, Atoi(name), value))
    case Object(ms) => Object(SetMember(ms, Entry(name, value)))
    case _ => node
  }

  /** `cJSONUtils_PatchDetach`. */
  function PatchDetach(doc: Json, path: string): DetachResult {
    match SplitPath(path)
    case None => Lost
    case Some((parent, name)) =>
      ResolveIsValid(doc, parent);
      match Resolve(doc, parent)
      case None => Detached(doc, None)
      case Some(loc) =>
        var (node, item) := DetachChild(At(doc, loc), name);
        Detached(SetAt(doc, loc, node), item)
  }

  /** The last part of `cJSONUtils_ApplyPatch`: put `value` at `path`. */
  function PatchAdd(doc: Json, path: string, value: Json): Applied {
    match SplitPath(path)
    case None => Undefined
    case Some((parent, name)) =>
      ResolveIsValid(doc, parent);
      match Resolve(doc, parent)
      case None => Applied(9, doc)
      case Some(loc) => Applied(0, SetAt(doc, loc, AddChild(At(doc, loc), name, value)))
  }

  /** `cJSON_GetObjectItem`: items of arrays carry no name, scalars have no children. */
  function GetItem(v: Json, name: string): Option<Json> {
    if v.Object? && FindName(v.members, name) < |v.members| then Some(v.members[FindName(v.members, name)].item)
    else None
  }

  function ApplyTest(doc: Json, path: Json, value: Option<Json>): Applied {
    if !path.String? || value.None? then Undefined
    else
      ResolveIsValid(doc, path.s);
      match Resolve(doc, path.s)
      case None => Undefined
      case Some(loc) =>
        var r := Comparison(At(doc, loc), value.value);
        Applied(r.code, SetAt(doc, loc, r.a))
  }

  function ApplyRemove(doc: Json, path: Json): Applied {
    if !path.String? then Undefined
    else match PatchDetach(doc, path.s)
      case Lost => Undefined
      case Detached(doc', _) => Applied(0, doc')
  }

  /** Add the item found under "value". */
  function ApplyAdd(doc: Json, path: Json, value: Option<Json>): Applied {
    match value
    case None => Applied(7, doc)
    case Some(v) => if path.String? then PatchAdd(doc, path.s, v) else Undefined
  }

  function ApplyReplace(doc: Json, path: Json, value: Option<Json>): Applied {
    match ApplyRemove(doc, path)
    case Undefined => Undefined
    case Applied(_, doc') => ApplyAdd(doc', path, value)
  }

  function ApplyMove(doc: Json, path: Json, from: Option<Json>): Applied {
    if from.None? then Applied(4, doc)
    else if !from.value.String? then Undefined
    else match PatchDetach(doc, from.value.s)
      case Lost => Undefined
      case Detached(doc', None) => Applied(5, doc')
      case Detached(doc', Some(v)) => if path.String? then PatchAdd(doc', path.s, v) else Undefined
  }

  function ApplyCopy(doc: Json, path: Json, from: Option<Json>): Applied {
    if from.None? then Applied(4, doc)
    else if !from.value.String? then Undefined
    else
      ResolveIsValid(doc, from.value.s);
      match Resolve(doc, from.value.s)
      case None => Applied(5, doc)
      case Some(loc) => if path.String? then PatchAdd(doc, path.s, At(doc, loc)) else Undefined
  }

  /** `cJSONUtils_ApplyPatch`. */
  function ApplyPatch(doc: Json, patch: Json): Applied {
    var op, path := GetItem(patch, "op"), GetItem(patch, "path");
    if op.None? || path.None? then Applied(2, doc)
    else if !op.value.String? then Undefined
    else if op.value.s == "add" then ApplyAdd(doc, path.value, GetItem(patch, "value"))
    else if op.value.s == "remove" then ApplyRemove(doc, path.value)
    else if op.value.s == "replace" then ApplyReplace(doc, path.value, GetItem(patch, "value"))
    else if op.value.s == "move" then ApplyMove(doc, path.value, GetItem(patch, "from"))
    else if op.value.s == "copy" then ApplyCopy(doc, path.value, GetItem(patch, "from"))
    else if op.value.s == "test" then ApplyTest(doc, path.value, GetItem(patch, "value"))
    else Applied(3, doc)
  }

  /** The loop of `cJSONUtils_ApplyPatches`: stop at the first code that is not zero. */
  function ApplyAll(doc: Json, patches: seq<Json>): Applied
    decreases patches
  {
    if patches == [] then Applied(0, doc)
    else match ApplyPatch(doc, patches[0])
      case Undefined => Undefined
      case Applied(code, doc') => if code != 0 then Applied(code, doc') else ApplyAll(doc', patches[1..])
  }

  function ApplyPatches(doc: Json, patches: Json): Applied {
    if !patches.Array? then Applied(1, doc) else ApplyAll(doc, patches.items)
  }

  // ----- generating

  function PatchObject(op: string, path: string, value: Option<Json>): Json {
    Object([Entry("op", String(op)), Entry("path", String(path))]
           + match value case None => [] case Some(v) => [Entry("value", v)])
  }

  /** "remove" for `count` items, with indices that go up from `c`. */
  function RemovePatches(path: string, c: nat, count: nat): seq<Json>
    decreases count
  {
    if count == 0 then []
    else [PatchObject("remove", path + "/" + Encode(Digits(c)), None)] + RemovePatches(path, c + 1, count - 1)
  }

  function AddPatches(path: string, items: seq<Json>): seq<Json> {
    if items == [] then []
    else [PatchObject("add", path + "/" + Encode("-"), Some(items[0]))] + AddPatches(path, items[1..])
  }

  /** `cJSONUtils_CompareToPatch`. */
  function Diff(path: string, from: Json, to: Json): seq<Json>
    decreases from, 1, 0
  {
    if !SameKind(from, to) then [PatchObject("replace", path, Some(to))]
    else match from
      case Number(n) => if n != to.n then [PatchObject("replace", path, Some(to))] else []
      case String(s) => if s != to.s then [PatchObject("replace", path, Some(to))] else []
      case Array(xs) => DiffItems(path, 0, xs, to.items)
      case Object(ms) => SortKeepsMembers(ms); DiffMembers(path, Sort(ms), Sort(to.members), from)
      case _ => []
  }

  function DiffItems(path: string, c: nat, xs: seq<Json>, ys: seq<Json>): seq<Json>
    decreases xs, 0, 0
  {
    if xs == [] || ys == [] then RemovePatches(path, c, |xs|) + AddPatches(path, ys)
    else Diff(path + "/" + Digits(c), xs[0], ys[0]) + DiffItems(path, c + 1, xs[1..], ys[1..])
  }

  function DiffMembers(path: string, fs: seq<Entry<Json>>, ts: seq<Entry<Json>>, ghost owner: Json): seq<Json>
    requires forall e | e in fs :: e.item < owner
    decreases owner, 0, |fs| + |ts|
  {
    if fs == [] && ts == [] then []
    else
      var diff := if fs == [] then 1 else if ts == [] then -1 else CaseOrder(fs[0].name, ts[0].name);
      if diff == 0 then
        Diff(path + "/" + Encode(fs[0].name), fs[0].item, ts[0].item) + DiffMembers(path, fs[1..], ts[1..], owner)
      else if diff < 0 then
        [PatchObject("remove", path + "/" + Encode(fs[0].name), None)] + DiffMembers(path, fs[1..], ts, owner)
      else
        [PatchObject("add", path + "/" + Encode(ts[0].name), Some(ts[0].item))] + DiffMembers(path, fs, ts[1..], owner)
  }

  /** `cJSONUtils_GeneratePatches`. */
  function GeneratePatches(from: Json, to: Json): Json {
    Array(Diff("", from, to))
  }
}
