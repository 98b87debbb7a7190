/** JSON Patch as it runs: a document edited in place, and an array the generated operations are
    appended to. */
module PatchEngine {
  import opened Json
  import opened Numerals
  import opened Text
  import opened Strings
  import opened Printer
  import opened Sorting
  import opened Compare
  import opened Pointer
  import opened PointerLoops
  import opened Patch
  import opened CTrees
  import opened OldLinks
  import opened LinkedCompare
  import LinkedPatch

  /** `strdup`, `strrchr`, cutting at the slash and decoding the rest in place. */
  method SplitPointer(path: string) returns (parent: string, name: string)
    requires NoNul(path) && SplitPath(path).Some?
    ensures SplitPath(path) == Some((parent, name)) && NoNul(parent) && NoNul(name)
  {
    var slash := LastSlash(path).value;
    SplitHolds(path);
    hide Decode, LastSlash, SplitPath, NoNul;
    ghost var token := path[slash + 1..];
    var parentptr := NewText(path, |path| + 1);
    CutAtSlash(parentptr, path, slash);
    parent := parentptr[..slash];
    name := DecodeAfter(parentptr, slash, token);
  }

  /** The slash is overwritten, and what follows is decoded and read as a string. */
  method DecodeAfter(a: array<char>, slash: nat, ghost token: string) returns (name: string)
    requires Spells(a, slash + 1, token) && NoNul(token) && Decode(token).Some? && NoNul(Decode(token).value)
    modifies a
    ensures Some(name) == Decode(token)
  {
    hide Decode, NoNul;
    a[slash] := '\0';
    assert a[slash + 1..slash + 1 + |token|] == token;
    DecodeInPlace(a, slash + 1, token);
    var n := Strlen(a, slash + 1, Decode(token).value);
    name := a[slash + 1..slash + 1 + n];
  }

  lemma SplitHolds(path: string)
    requires NoNul(path) && SplitPath(path).Some?
    ensures var slash, (parent, name) := LastSlash(path).value, SplitPath(path).value;
      && Decode(path[slash + 1..]) == Some(name) && parent == path[..slash]
      && NoNul(path[slash + 1..]) && NoNul(name) && NoNul(parent)
  {
    hide Decode, LastSlash;
    DecodeNoNul(path[LastSlash(path).value + 1..]);
  }

  lemma CutAtSlash(a: array<char>, path: string, slash: nat)
    requires Spells(a, 0, path) && slash < |path|
    ensures a[..slash] == path[..slash] && Spells(a, slash + 1, path[slash + 1..])
  {
    assert a[0..|path|][..slash] == a[..slash];
    assert a[0..|path|][slash + 1..] == a[slash + 1..|path|];
  }

  /** The loops over `strcasecmp` in `cJSON_GetObjectItem` and `cJSON_DetachItemFromObject`. */
  method FindItem(ms: seq<Entry<Json>>, name: string) returns (i: nat)
    requires NoNul(name) && forall m :: m in ms ==> NoNul(m.name)
    ensures i == FindName(ms, name)
  {
    i := 0;
    assert ms[0..] == ms;
    while i < |ms|
      invariant i <= |ms| && i + FindName(ms[i..], name) == FindName(ms, name)
    {
      assert ms[i..][0] == ms[i] && ms[i..][1..] == ms[i + 1..];
      assert ms[i] in ms;
      var r := Strcasecmp(ms[i].name, name);
      CaseOrderZero(ms[i].name, name);
      if r == 0 { return; }
      i := i + 1;
    }
  }

  lemma ItemText(v: Json, name: string)
    requires Printable(v)
    ensures var r := GetItem(v, name);
      r.Some? ==> Printable(r.value) && (r.value.String? ==> NoNul(r.value.s))
  {
  }

  lemma DetachMayRun(doc: Linked, path: string)
    requires LinkedPatch.PatchDetach(doc, path).Taken?
    ensures SplitPath(path).Some? && !LinkedPatch.Hits(doc, path)
  {
    hide SplitPath, Resolve, NodeAt;
    LinkedPatch.DetachErases(doc, path);
  }

  lemma AddMayRun(doc: Linked, path: string, value: Linked)
    requires LinkedPatch.PatchAdd(doc, path, value).Ran?
    ensures SplitPath(path).Some? && !LinkedPatch.Hits(doc, path)
  {
    hide SplitPath, Resolve, NodeAt;
    LinkedPatch.AddErases(doc, path, value);
  }

  lemma TestMayRun(doc: Linked, path: Json, value: Option<Json>)
    requires LinkedPatch.ApplyTest(doc, path, value).Ran?
    ensures path.String? && value.Some? && Resolve(Erase(doc), path.s).Some?
    ensures path == String(path.s) && value == Some(value.value)
  {
    hide Resolve, Comparison;
  }

  /** A document edited in place; its marks say which first members hold old links. */
  class Document {
    var root: Linked

    ghost predicate Valid()
      reads this
    {
      Printable(Erase(root))
    }

    constructor (t: Linked)
      requires Printable(Erase(t))
      ensures Valid() && root == t
    {
      root := t;
    }

    /** `cJSONUtils_PatchDetach`, where no old link is followed. */
    method Detach(path: string) returns (item: Option<Linked>)
      requires Valid() && NoNul(path) && SplitPath(path).Some? && !LinkedPatch.Hits(root, path)
      modifies this
      ensures Valid() && (item.Some? ==> Printable(Erase(item.value)))
      ensures LinkedPatch.PatchDetach(old(root), path) == LinkedPatch.Taken(root, item)
    {
      var parent, name := SplitPointer(path);
      var loc := GetPointer(Erase(root), parent);
      item := None;
      if loc.Some? {
        ResolveIsValid(Erase(root), parent);
        var rest;
        rest, item := DetachFrom(NodeAt(root, loc.value), name, root, loc.value);
        SetAtPrintable(Erase(root), loc.value, Erase(rest));
        root := PutAt(root, loc.value, rest);
      }
    }

    /** A child of the node found is taken out. */
    static method DetachFrom(node: Linked, name: string, ghost doc: Linked, ghost loc: Loc)
      returns (rest: Linked, item: Option<Linked>)
      requires Printable(Erase(doc)) && ValidLoc(Erase(doc), loc) && node == NodeAt(doc, loc) && NoNul(name)
      ensures (rest, item) == LinkedPatch.DetachKid(node, name)
      ensures Printable(Erase(rest)) && (item.Some? ==> Printable(Erase(item.value)))
    {
      AtPrintable(Erase(doc), loc);
      DetachChildPrintable(Erase(node), name);
      LinkedPatch.DetachKidErases(node, name);
      match node {
        case Members(ms, stale) =>
          var i := FindLinked(ms, name);
          if i < |ms| { rest, item := Members(Without(ms, i), stale), Some(ms[i].item); } else { rest, item := node, None; }
        case Items(xs) =>
          var i := Clamp(Atoi(name));
          if i < |xs| { rest, item := Items(Without(xs, i)), Some(xs[i]); } else { rest, item := node, None; }
        case Leaf(_) => rest, item := node, None;
      }
    }

    static method FindLinked(ms: seq<Entry<Linked>>, name: string) returns (i: nat)
      requires NoNul(name) && Printable(Object(EraseMembers(ms)))
      ensures i == FindName(ms, name)
    {
      EraseFinds(ms, name);
      i := FindItem(EraseMembers(ms), name);
    }

    /** The end of `cJSONUtils_ApplyPatch`: adding `value` under the last token of `path`. */
    method Add(path: string, value: Linked) returns (code: int)
      requires Valid() && NoNul(path) && SplitPath(path).Some? && Printable(Erase(value)) && !LinkedPatch.Hits(root, path)
      modifies this
      ensures Valid() && LinkedPatch.PatchAdd(old(root), path, value) == LinkedPatch.Ran(code, root)
    {
      var parent, name := SplitPointer(path);
      var loc := GetPointer(Erase(root), parent);
      if loc.None? { return 9; }
      ResolveIsValid(Erase(root), parent);
      var node := NodeAt(root, loc.value);
      AtPrintable(Erase(root), loc.value);
      AddChildPrintable(Erase(node), name, Erase(value));
      LinkedPatch.AddKidErases(node, name, value);
      SetAtPrintable(Erase(root), loc.value, Erase(LinkedPatch.AddKid(node, name, value)));
      root := PutAt(root, loc.value, LinkedPatch.AddKid(node, name, value));
      code := 0;
    }

    /** `cJSONUtils_ApplyPatch`, where the C code follows neither a null pointer nor an old link. */
    method ApplyPatch(patch: Json) returns (code: int)
      requires Valid() && Printable(patch) && LinkedPatch.ApplyPatch(root, patch).Ran?
      modifies this
      ensures Valid() && LinkedPatch.Ran(code, root) == LinkedPatch.ApplyPatch(old(root), patch)
    {
      hide Printable, Erase, Fresh, GetItem, Resolve, NodeAt, SplitPath, LinkedPatch.Hits, LinkedPatch.PatchDetach,
        LinkedPatch.PatchAdd, LinkedPatch.ApplyTest, NoNul;
      ItemText(patch, "op");
      ItemText(patch, "path");
      ItemText(patch, "from");
      ItemText(patch, "value");
      var op, path := GetItem(patch, "op"), GetItem(patch, "path");
      if op.None? || path.None? { return 2; }
      var opcode := 0;
      if op.value.s == "add" { opcode := 0; }
      else if op.value.s == "remove" { opcode := 1; }
      else if op.value.s == "replace" { opcode := 2; }
      else if op.value.s == "move" { opcode := 3; }
      else if op.value.s == "copy" { opcode := 4; }
      else if op.value.s == "test" {
        TestMayRun(root, path.value, GetItem(patch, "value"));
        code := Test(path.value.s, GetItem(patch, "value").value);
        return;
      } else { return 3; }

      if opcode == 1 || opcode == 2 {
        DetachMayRun(root, path.value.s);
        var _ := Detach(path.value.s);
        if opcode == 1 { return 0; }
      }
      var value;
      if opcode == 3 || opcode == 4 {
        var from := GetItem(patch, "from");
        if from.None? { return 4; }
        if opcode == 3 {
          DetachMayRun(root, from.value.s);
          value := Detach(from.value.s);
        } else {
          value := Copied(from.value.s);
        }
        if value.None? { return 5; }
      } else {
        var v := GetItem(patch, "value");
        if v.None? { return 7; }
        assert Erase(Fresh(v.value)) == v.value;
        value := Some(Fresh(v.value));
      }
      AddMayRun(root, path.value.s, value.value);
      code := Add(path.value.s, value.value);
    }

    /** A copy of the value a path leads to. */
    method Copied(from: string) returns (value: Option<Linked>)
      requires Valid() && NoNul(from)
      ensures var r := Resolve(Erase(root), from);
        if r.None? then value.None?
        else ValidLoc(Erase(root), r.value) && value == Some(Fresh(Erase(NodeAt(root, r.value)))) && Printable(Erase(value.value))
    {
      var loc := GetPointer(Erase(root), from);
      if loc.None? { return None; }
      ResolveIsValid(Erase(root), from);
      AtPrintable(Erase(root), loc.value);
      value := Some(Fresh(Erase(NodeAt(root, loc.value))));
    }

    /** The operation "test": it may reorder members of the document, and leaves old links then. */
    method Test(path: string, value: Json) returns (code: int)
      requires Valid() && NoNul(path) && Printable(value) && Resolve(Erase(root), path).Some?
      modifies this
      ensures Valid() && LinkedPatch.Ran(code, root) == LinkedPatch.ApplyTest(old(root), String(path), Some(value))
    {
      var loc := GetPointer(Erase(root), path);
      ResolveIsValid(Erase(root), path);
      AtPrintable(Erase(root), loc.value);
      var node := NodeAt(root, loc.value);
      ComparisonPrintable(Erase(node), value);
      EraseVisited(node, value);
      var marked;
      code, marked := CompareMarked(node, value);
      SetAtPrintable(Erase(root), loc.value, Erase(marked));
      root := PutAt(root, loc.value, marked);
    }

    /** `cJSONUtils_ApplyPatches`, where the C code follows neither a null pointer nor an old link. */
    method ApplyPatches(patches: Json) returns (code: int)
      requires Valid() && Printable(patches) && LinkedPatch.ApplyPatches(root, patches).Ran?
      modifies this
      ensures Valid() && LinkedPatch.Ran(code, root) == LinkedPatch.ApplyPatches(old(root), patches)
    {
      if !patches.Array? { return 1; }
      var xs, i := patches.items, 0;
      assert xs[0..] == xs;
      hide LinkedPatch.ApplyPatch;
      while i < |xs|
        invariant i <= |xs| && Valid() && LinkedPatch.ApplyAll(root, xs[i..]) == LinkedPatch.ApplyAll(old(root), xs)
        invariant LinkedPatch.ApplyAll(root, xs[i..]).Ran?
      {
        assert xs[i] in xs && xs[i..][1..] == xs[i + 1..];
        code := ApplyPatch(xs[i]);
        if code != 0 { return; }
        i := i + 1;
      }
      code := 0;
    }
  }

  // ----- generating

  lemma DiffItemsStep(done: seq<Json>, path: string, c: nat, xs: seq<Json>, ys: seq<Json>)
    requires c < |xs| && c < |ys|
    ensures done + DiffItems(path, c, xs[c..], ys[c..])
         == done + Diff(path + "/" + Digits(c), xs[c], ys[c]) + DiffItems(path, c + 1, xs[c + 1..], ys[c + 1..])
  {
    assert xs[c..][1..] == xs[c + 1..] && ys[c..][1..] == ys[c + 1..];
  }

  lemma DiffItemsEnd(done: seq<Json>, path: string, c: nat, xs: seq<Json>, ys: seq<Json>)
    requires c <= |xs| && c <= |ys| && (c == |xs| || c == |ys|)
    ensures done + DiffItems(path, c, xs[c..], ys[c..]) == done + RemovePatches(path, c, |xs| - c) + AddPatches(path, ys[c..])
  {
    assert DiffItems(path, c, xs[c..], ys[c..]) == RemovePatches(path, c, |xs| - c) + AddPatches(path, ys[c..]);
    hide DiffItems, RemovePatches, AddPatches;
  }

  lemma RemoveStep(done: seq<Json>, path: string, c: nat, count: nat, rest: seq<Json>)
    requires 0 < count
    ensures done + RemovePatches(path, c, count) + rest
         == done + [PatchObject("remove", path + "/" + Encode(Digits(c)), None)] + RemovePatches(path, c + 1, count - 1) + rest
  {
  }

  lemma AddStep(done: seq<Json>, path: string, ys: seq<Json>, i: nat)
    requires i < |ys|
    ensures done + AddPatches(path, ys[i..])
         == done + [PatchObject("add", path + "/" + Encode("-"), Some(ys[i]))] + AddPatches(path, ys[i + 1..])
  {
    assert ys[i..][1..] == ys[i + 1..];
  }

  lemma NothingMore(done: seq<Json>, path: string, xs: seq<Json>, c: nat)
    ensures done + RemovePatches(path, c, 0) == done
    ensures done + AddPatches(path, xs[|xs|..]) == done
  {
  }

  lemma OneMore<T>(done: seq<T>, x: seq<T>, rest: seq<T>)
    ensures done + (x + rest) == done + x + rest
  {
  }

  lemma DiffMembersNext(path: string, fs: seq<Entry<Json>>, i: nat, ts: seq<Entry<Json>>, j: nat, owner: Json)
    requires forall e | e in fs :: e.item < owner
    requires i <= |fs| && j <= |ts| && (i < |fs| || j < |ts|)
    ensures i < |fs| ==> fs[i].item < owner
    ensures var order := if i == |fs| then 1 else if j == |ts| then -1 else CaseOrder(fs[i].name, ts[j].name);
      DiffMembers(path, fs[i..], ts[j..], owner) ==
      if order == 0 then
        Diff(path + "/" + Encode(fs[i].name), fs[i].item, ts[j].item) + DiffMembers(path, fs[i + 1..], ts[j + 1..], owner)
      else if order < 0 then
        [PatchObject("remove", path + "/" + Encode(fs[i].name), None)] + DiffMembers(path, fs[i + 1..], ts[j..], owner)
      else
        [PatchObject("add", path + "/" + Encode(ts[j].name), Some(ts[j].item))] + DiffMembers(path, fs[i..], ts[j + 1..], owner)
  {
    if i < |fs| { assert fs[i] in fs && fs[i..][0] == fs[i] && fs[i..][1..] == fs[i + 1..]; }
    if j < |ts| { assert ts[j..][0] == ts[j] && ts[j..][1..] == ts[j + 1..]; }
    hide Diff, PatchObject, CaseOrder, Encode;
  }

  /** What the members at the two cursors add, and what is left then. */
  lemma DiffMembersStep(done: seq<Json>, path: string, fs: seq<Entry<Json>>, i: nat, ts: seq<Entry<Json>>, j: nat, owner: Json,
                        diff: int)
    requires forall e | e in fs :: e.item < owner
    requires i <= |fs| && j <= |ts| && (i < |fs| || j < |ts|)
    requires i == |fs| ==> diff == 1
    requires i < |fs| && j == |ts| ==> diff == -1
    requires i < |fs| && j < |ts| ==>
      var order := CaseOrder(fs[i].name, ts[j].name); (diff == 0 <==> order == 0) && (diff < 0 <==> order < 0)
    ensures diff == 0 ==>
      done + DiffMembers(path, fs[i..], ts[j..], owner)
      == done + Diff(path + "/" + Encode(fs[i].name), fs[i].item, ts[j].item) + DiffMembers(path, fs[i + 1..], ts[j + 1..], owner)
    ensures diff < 0 ==>
      done + DiffMembers(path, fs[i..], ts[j..], owner)
      == done + [PatchObject("remove", path + "/" + Encode(fs[i].name), None)] + DiffMembers(path, fs[i + 1..], ts[j..], owner)
    ensures diff > 0 ==>
      done + DiffMembers(path, fs[i..], ts[j..], owner)
      == done + [PatchObject("add", path + "/" + Encode(ts[j].name), Some(ts[j].item))]
         + DiffMembers(path, fs[i..], ts[j + 1..], owner)
  {
    hide *;
    DiffMembersNext(path, fs, i, ts, j, owner);
    if diff == 0 {
      OneMore(done, Diff(path + "/" + Encode(fs[i].name), fs[i].item, ts[j].item), DiffMembers(path, fs[i + 1..], ts[j + 1..], owner));
    } else if diff < 0 {
      OneMore(done, [PatchObject("remove", path + "/" + Encode(fs[i].name), None)], DiffMembers(path, fs[i + 1..], ts[j..], owner));
    } else {
      OneMore(done, [PatchObject("add", path + "/" + Encode(ts[j].name), Some(ts[j].item))],
              DiffMembers(path, fs[i..], ts[j + 1..], owner));
    }
  }

  class PatchArray {
    var items: seq<Json>

    constructor ()
      ensures items == []
    {
      items := [];
    }

    /** `cJSONUtils_GeneratePatch`: one operation at the end of the array. */
    method GeneratePatch(op: string, path: string, suffix: Option<string>, val: Option<Json>)
      modifies this
      ensures items == old(items) + [PatchObject(op, if suffix.Some? then path + "/" + Encode(suffix.value) else path, val)]
    {
      var patch := [Entry("op", String(op))];
      if suffix.Some? {
        var newpath := JoinPath(path, suffix.value);
        patch := patch + [Entry("path", String(newpath[..newpath.Length - 1]))];
      } else {
        patch := patch + [Entry("path", String(path))];
      }
      if val.Some? { patch := patch + [Entry("value", val.value)]; }
      assert Object(patch) == PatchObject(op, if suffix.Some? then path + "/" + Encode(suffix.value) else path, val);
      items := items + [Object(patch)];
    }

    /** `cJSONUtils_CompareToPatch`. */
    method CompareToPatch(path: string, from: Json, to: Json)
      requires Printable(from) && Printable(to)
      modifies this
      ensures items == old(items) + Diff(path, from, to)
      decreases from, 2
    {
      if !SameKind(from, to) {
        GeneratePatch("replace", path, None, Some(to));
        return;
      }
      match from {
        case Number(n) => if n != to.n { GeneratePatch("replace", path, None, Some(to)); }
        case String(s) => if s != to.s { GeneratePatch("replace", path, None, Some(to)); }
        case Array(xs) => CompareItemsToPatch(path, xs, to.items, from);
        case Object(ms) => CompareMembersToPatch(path, ms, to.members, from);
        case _ =>
      }
    }

    /** The three loops over two arrays: common elements, elements to remove, elements to add. */
    method CompareItemsToPatch(path: string, xs: seq<Json>, ys: seq<Json>, ghost owner: Json)
      requires owner == Array(xs) && Printable(owner) && Printable(Array(ys))
      modifies this
      ensures items == old(items) + Diff(path, owner, Array(ys))
      decreases owner, 0
    {
      var c: nat := 0;
      assert xs[0..] == xs && ys[0..] == ys;
      ghost var all := items + DiffItems(path, 0, xs, ys);
      hide DiffItems, Diff, RemovePatches, AddPatches, PatchObject, Printable;
      while c < |xs| && c < |ys|
        invariant c <= |xs| && c <= |ys| && items + DiffItems(path, c, xs[c..], ys[c..]) == all
      {
        DiffItemsStep(items, path, c, xs, ys);
        ItemHolds(xs, ys, c);
        CompareToPatch(path + "/" + Digits(c), xs[c], ys[c]);
        c := c + 1;
      }
      DiffItemsEnd(items, path, c, xs, ys);
      AppendRemoves(path, c, |xs|);
      AppendAdds(path, c, ys);
    }

    /** The second loop: what `from` has more. */
    method AppendRemoves(path: string, c: nat, end: nat)
      requires c <= end
      modifies this
      ensures items == old(items) + RemovePatches(path, c, end - c)
    {
      ghost var all := items + RemovePatches(path, c, end - c) + [];
      hide RemovePatches, PatchObject;
      var i := c;
      while i < end
        invariant c <= i <= end && items + RemovePatches(path, i, end - i) + [] == all
      {
        RemoveStep(items, path, i, end - i, []);
        GeneratePatch("remove", path, Some(Digits(i)), None);
        i := i + 1;
      }
      NothingMore(items, path, [], i);
    }

    /** The third loop: what `to` has more. */
    method AppendAdds(path: string, c: nat, ys: seq<Json>)
      requires c <= |ys|
      modifies this
      ensures items == old(items) + AddPatches(path, ys[c..])
    {
      ghost var all := items + AddPatches(path, ys[c..]);
      hide AddPatches, PatchObject;
      var i := c;
      while i < |ys|
        invariant c <= i <= |ys| && items + AddPatches(path, ys[i..]) == all
      {
        AddStep(items, path, ys, i);
        GeneratePatch("add", path, Some("-"), Some(ys[i]));
        i := i + 1;
      }
      NothingMore(items, path, ys, i);
    }

    static lemma ItemHolds(xs: seq<Json>, ys: seq<Json>, c: nat)
      requires Printable(Array(xs)) && Printable(Array(ys)) && c < |xs| && c < |ys|
      ensures Printable(xs[c]) && Printable(ys[c]) && xs[c] < Array(xs)
    {
      assert xs[c] in xs && ys[c] in ys;
    }

    /** The loop over two sorted objects. */
    method CompareMembersToPatch(path: string, ms: seq<Entry<Json>>, ns: seq<Entry<Json>>, ghost owner: Json)
      requires owner == Object(ms) && Printable(owner) && Printable(Object(ns))
      modifies this
      ensures items == old(items) + Diff(path, owner, Object(ns))
      decreases owner, 1
    {
      SortKeepsMembers(ms);
      SortKeepsMembers(ns);
      var fs, ts := Sort(ms), Sort(ns);
      var i, j := 0, 0;
      assert fs[0..] == fs && ts[0..] == ts;
      ghost var all := items + DiffMembers(path, fs, ts, owner);
      assert all == items + Diff(path, owner, Object(ns));
      assert forall e :: e in fs ==> NoNul(e.name) && Printable(e.item) && e.item < owner;
      assert forall e :: e in ts ==> NoNul(e.name) && Printable(e.item);
      hide Sort, DiffMembers, Diff, PatchObject, Printable, NoNul, CaseOrder, Encode;
      while i < |fs| || j < |ts|
        invariant i <= |fs| && j <= |ts| && items + DiffMembers(path, fs[i..], ts[j..], owner) == all
        decreases |fs| - i + |ts| - j
      {
        i, j := CompareMemberToPatch(path, fs, i, ts, j, owner);
      }
      NoMembersMore(items, path, owner);
    }

    /** One round: the smaller of the two names decides. */
    method CompareMemberToPatch(path: string, fs: seq<Entry<Json>>, i: nat, ts: seq<Entry<Json>>, j: nat, ghost owner: Json)
      returns (i1: nat, j1: nat)
      requires forall e :: e in fs ==> NoNul(e.name) && Printable(e.item) && e.item < owner
      requires forall e :: e in ts ==> NoNul(e.name) && Printable(e.item)
      requires i <= |fs| && j <= |ts| && (i < |fs| || j < |ts|)
      modifies this
      ensures i <= i1 <= |fs| && j <= j1 <= |ts| && i + j < i1 + j1
      ensures items + DiffMembers(path, fs[i1..], ts[j1..], owner) == old(items) + DiffMembers(path, fs[i..], ts[j..], owner)
      decreases owner, 0
    {
      hide DiffMembers, Diff, PatchObject, Printable, NoNul, CaseOrder, Encode;
      i1, j1 := i, j;
      var diff := 1;
      if i < |fs| { assert fs[i] in fs; }
      if i < |fs| && j < |ts| {
        assert ts[j] in ts;
        diff := Strcasecmp(fs[i].name, ts[j].name);
      } else if i < |fs| {
        diff := -1;
      }
      DiffMembersStep(items, path, fs, i, ts, j, owner, diff);
      if diff == 0 {
        var newpath := JoinPath(path, fs[i].name);
        CompareToPatch(newpath[..newpath.Length - 1], fs[i].item, ts[j].item);
        i1, j1 := i + 1, j + 1;
      } else if diff < 0 {
        GeneratePatch("remove", path, Some(fs[i].name), None);
        i1 := i + 1;
      } else {
        GeneratePatch("add", path, Some(ts[j].name), Some(ts[j].item));
        j1 := j + 1;
      }
    }

    static lemma NoMembersMore(done: seq<Json>, path: string, owner: Json)
      ensures done + DiffMembers(path, [], [], owner) == done
    {
    }

    /** `cJSONUtils_GeneratePatches`. */
    static method GeneratePatches(from: Json, to: Json) returns (patches: PatchArray)
      requires Printable(from) && Printable(to)
      ensures fresh(patches) && Array(patches.items) == Patch.GeneratePatches(from, to)
    {
      patches := new PatchArray();
      patches.CompareToPatch("", from, to);
      assert [] + Diff("", from, to) == Diff("", from, to);
    }
  }
}
