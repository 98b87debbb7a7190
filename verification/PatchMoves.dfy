/** The operations of section 4 of RFC 6902 that read the document: "move", "copy" and "test". */
module PatchMoves {
  import opened Json
  import opened Compare
  import opened Differences
  import opened Pointer
  import opened Patch
  import opened PatchMeaning

  /** The members an operation is read from. */
  ghost predicate IsOperation(patch: Json, op: string, path: string) {
    GetItem(patch, "op") == Some(String(op)) && GetItem(patch, "path") == Some(String(path))
  }

  /** "move": the value is taken out of its place, and what is then the document gets it at the
      other place; a place that holds nothing gives code 5. */
  lemma MoveMeaning(doc: Json, patch: Json, fs: seq<Token>, f: Token, ts: seq<Token>, t: Token)
    requires IsOperation(patch, "move", PathText(ts + [t])) && GetItem(patch, "from") == Some(String(PathText(fs + [f])))
    requires WellNamed(doc) && HasPath(Meaning(doc), fs) && Fits(Get(Meaning(doc), fs), f)
    requires var taken := Put(Meaning(doc), fs, Removed(Get(Meaning(doc), fs), f));
      HasStep(Get(Meaning(doc), fs), f) ==> HasPath(taken, ts) && FitsAdd(Get(taken, ts), t)
    ensures var v, r := Get(Meaning(doc), fs), ApplyPatch(doc, patch);
      var taken := Put(Meaning(doc), fs, Removed(v, f));
      && r.Applied? && WellNamed(r.doc)
      && (HasStep(v, f) ==> r.code == 0 && Meaning(r.doc) == Put(taken, ts, Added(Get(taken, ts), t, Step(v, f))))
      && (!HasStep(v, f) ==> r.code == 5 && Meaning(r.doc) == taken)
  {
    hide PatchDetach, PatchAdd, PathText, GetItem, Meaning, WellNamed, Get, Put, HasPath,
      Added, Removed, Fits, FitsAdd, HasStep, Step;
    PatchDetachMeaning(doc, fs, f);
    var r := PatchDetach(doc, PathText(fs + [f]));
    if r.item.Some? { PatchAddMeaning(r.doc, ts, t, r.item.value); }
  }

  /** "copy": the value stays where it is, and the document gets it at the other place as well. */
  lemma CopyMeaning(doc: Json, patch: Json, fs: seq<Token>, ts: seq<Token>, t: Token)
    requires IsOperation(patch, "copy", PathText(ts + [t])) && GetItem(patch, "from") == Some(String(PathText(fs)))
    requires WellNamed(doc) && HasPath(Meaning(doc), fs) && HasPath(Meaning(doc), ts) && FitsAdd(Get(Meaning(doc), ts), t)
    ensures Changed(doc, ts, Added(Get(Meaning(doc), ts), t, Get(Meaning(doc), fs)), ApplyPatch(doc, patch))
  {
    hide PatchAdd, PathText, GetItem, Meaning, WellNamed, Get, Put, HasPath, Added, FitsAdd, Resolve, Pointer.At;
    ResolveMeaning(doc, fs);
    ResolveIsValid(doc, PathText(fs));
    PatchAddMeaning(doc, ts, t, Pointer.At(doc, Resolve(doc, PathText(fs)).value));
  }

  /** "test": code 0 exactly if the value at the path means the same, and otherwise the code of the first
      difference; the document keeps its meaning either way, although members may be sorted. */
  lemma TestMeaning(doc: Json, patch: Json, ts: seq<Token>, value: Json)
    requires IsOperation(patch, "test", PathText(ts)) && GetItem(patch, "value") == Some(value)
    requires WellNamed(doc) && WellNamed(value) && HasPath(Meaning(doc), ts)
    ensures var r := ApplyPatch(doc, patch);
      && r.Applied? && WellNamed(r.doc) && Meaning(r.doc) == Meaning(doc)
      && (r.code == 0 <==> Get(Meaning(doc), ts) == Meaning(value)) && CodeFor(Get(Meaning(doc), ts), Meaning(value), r.code)
  {
    hide PathText, GetItem, Meaning, WellNamed, Get, Put, HasPath, Resolve, Pointer.At, Comparison, SetAt, CodeFor;
    ResolveMeaning(doc, ts);
    ResolveIsValid(doc, PathText(ts));
    var node := Pointer.At(doc, Resolve(doc, PathText(ts)).value);
    CompareDecidesMeaning(node, value);
    ComparisonCode(node, value, Comparison(node, value).code);
    SetAtMeaning(doc, ts, Comparison(node, value).a);
    PutSame(Meaning(doc), ts);
  }
}
