/** JSON Merge Patch: applying a merge patch and generating one from two trees. */
module MergeApply {
  import opened Json
  import opened Sorting
  import opened Compare

  function DeleteMember(ms: seq<Entry<Json>>, name: string): seq<Entry<Json>> {
    var i := FindName(ms, name);
    if i < |ms| then Without(ms, i) else ms
  }

  function Lookup(ms: seq<Entry<Json>>, name: string): Option<Json> {
    var i := FindName(ms, name);
    if i < |ms| then Some(ms[i].item) else None
  }

  /** `cJSONUtils_MergePatch` for a patch that is not null. */
  function Merged(target: Option<Json>, patch: Json): Json
    decreases patch
  {
    if !patch.Object? then patch
    else
      var base := if target.Some? && target.value.Object? then target.value.members else [];
      Object(MergeMembers(base, patch.members))
  }

  /** `cJSONUtils_MergePatch`: a null patch deletes the target and gives null. */
  function MergePatch(target: Option<Json>, patch: Option<Json>): Option<Json> {
    match patch case None => None case Some(p) => Some(Merged(target, p))
  }

  function MergeMembers(ms: seq<Entry<Json>>, ps: seq<Entry<Json>>): seq<Entry<Json>>
    decreases ps
  {
    if ps == [] then ms
    else MergeMembers(MergeMember(ms, ps[0]), ps[1..])
  }

  function MergeMember(ms: seq<Entry<Json>>, p: Entry<Json>): seq<Entry<Json>>
    decreases p
  {
    if p.item.Null? then DeleteMember(ms, p.name)
    else SetMember(ms, Entry(p.name, Merged(Lookup(ms, p.name), p.item)))
  }

  // ----- the function of section 2 of RFC 7386, on meanings

  ghost function FieldsOf(v: Option<Val>): map<string, Val> {
    if v.Some? && v.value.VObject? then v.value.fields else map[]
  }

  ghost function Field(m: map<string, Val>, k: string): Option<Val> {
    if k in m then Some(m[k]) else None
  }

  ghost function RfcMerge(target: Option<Val>, patch: Val): Val
    decreases patch
  {
    match patch
    case VObject(pm) =>
      var tm := FieldsOf(target);
      VObject(map k | k in tm.Keys + pm.Keys && (k in pm ==> pm[k] != VNull) ::
                if k in pm then RfcMerge(Field(tm, k), pm[k]) else tm[k])
    case _ => patch
  }

  ghost function RfcFields(tm: map<string, Val>, pm: map<string, Val>): map<string, Val> {
    RfcMerge(Some(VObject(tm)), VObject(pm)).fields
  }

  ghost function MeaningOf(v: Option<Json>): Option<Val> {
    match v case None => None case Some(x) => Some(Meaning(x))
  }

  ghost predicate WellNamedOption(v: Option<Json>) {
    v.Some? ==> WellNamed(v.value)
  }

  /** The code computes the function of the standard, with names matched ignoring case. */
  lemma {:induction false} MergeIsRfc(target: Option<Json>, patch: Json)
    requires WellNamedOption(target) && WellNamed(patch)
    ensures WellNamed(Merged(target, patch))
    ensures Meaning(Merged(target, patch)) == RfcMerge(MeaningOf(target), Meaning(patch))
    decreases patch
  {
    if patch.Object? {
      var base := if target.Some? && target.value.Object? then target.value.members else [];
      MergeMembersIsRfc(base, patch.members);
      assert FieldsOf(MeaningOf(target)) == Fields(base);
      assert RfcMerge(MeaningOf(target), Meaning(patch)).fields == RfcFields(Fields(base), Fields(patch.members));
    }
  }

  lemma {:induction false} MergeMembersIsRfc(ms: seq<Entry<Json>>, ps: seq<Entry<Json>>)
    requires WellNamedMembers(ms) && WellNamedMembers(ps)
    ensures WellNamedMembers(MergeMembers(ms, ps))
    ensures Fields(MergeMembers(ms, ps)) == RfcFields(Fields(ms), Fields(ps))
    decreases ps
  {
    if ps == [] {
      assert RfcFields(Fields(ms), map[]) == Fields(ms);
    } else {
      var k := LowerName(ps[0].name);
      WellNamedTail(ps);
      FirstNameUnique(ps);
      MergeMemberIsRfc(ms, ps[0]);
      MergeMembersIsRfc(MergeMember(ms, ps[0]), ps[1..]);
      RfcStep(Fields(ms), Fields(ps[1..]), k, Meaning(ps[0].item));
    }
  }

  lemma FirstNameUnique(ps: seq<Entry<Json>>)
    requires ps != [] && DistinctNames(ps)
    ensures LowerName(ps[0].name) !in Fields(ps[1..])
  {
    FieldsHaveNames(ps[1..]);
  }

  /** One member of the patch, on meanings. */
  ghost function MergeField(tm: map<string, Val>, k: string, p: Val): map<string, Val> {
    if p == VNull then tm - {k} else tm[k := RfcMerge(Field(tm, k), p)]
  }

  lemma RfcFieldsAt(tm: map<string, Val>, pm: map<string, Val>, x: string)
    ensures Field(RfcFields(tm, pm), x) ==
            if x in pm then (if pm[x] == VNull then None else Some(RfcMerge(Field(tm, x), pm[x]))) else Field(tm, x)
  {
  }

  lemma FieldsSame(a: map<string, Val>, b: map<string, Val>)
    requires forall x :: Field(a, x) == Field(b, x)
    ensures a == b
  {
    forall x ensures x in a <==> x in b { assert Field(a, x) == Field(b, x); }
    forall x | x in a ensures a[x] == b[x] { assert Field(a, x) == Field(b, x); }
  }

  lemma RfcStep(tm: map<string, Val>, pm: map<string, Val>, k: string, p: Val)
    requires k !in pm
    ensures RfcFields(MergeField(tm, k, p), pm) == RfcFields(tm, pm[k := p])
  {
    var a, b := RfcFields(MergeField(tm, k, p), pm), RfcFields(tm, pm[k := p]);
    hide RfcFields, RfcMerge;
    forall x ensures Field(a, x) == Field(b, x) {
      RfcFieldsAt(MergeField(tm, k, p), pm, x);
      RfcFieldsAt(tm, pm[k := p], x);
    }
    FieldsSame(a, b);
  }

  lemma {:induction false} MergeMemberIsRfc(ms: seq<Entry<Json>>, p: Entry<Json>)
    requires WellNamedMembers(ms) && WellNamed(p.item)
    ensures WellNamedMembers(MergeMember(ms, p))
    ensures Fields(MergeMember(ms, p)) == MergeField(Fields(ms), LowerName(p.name), Meaning(p.item))
    decreases p
  {
    var i := FindName(ms, p.name);
    FieldsLookup(ms, p.name);
    if i < |ms| {
      assert ms[i] in ms;
    }
    if p.item.Null? {
      if i < |ms| {
        FieldsWithout(ms, i);
        DistinctWithout(ms, i);
      } else {
        assert Fields(ms) - {LowerName(p.name)} == Fields(ms);
      }
    } else {
      var before := Lookup(ms, p.name);
      MergeIsRfc(before, p.item);
      FieldsSetMember(ms, Entry(p.name, Merged(before, p.item)));
    }
  }

  // ----- the same member after member, for patches in which names may repeat

  ghost function SetField(m: map<string, Val>, k: string, v: Option<Val>): map<string, Val> {
    match v case None => m - {k} case Some(x) => m[k := x]
  }

  /** The value a patch gives, its members applied one after the other. */
  ghost function MergeVal(target: Option<Val>, patch: Json): Val
    decreases patch, 0
  {
    if patch.Object? then VObject(MergeFold(FieldsOf(target), patch.members)) else Meaning(patch)
  }

  /** What one member of a patch leaves under its name. */
  ghost function MergeOnto(v: Option<Val>, p: Json): Option<Val>
    decreases p, 1
  {
    if p.Null? then None else Some(MergeVal(v, p))
  }

  ghost function MergeFold(m: map<string, Val>, ps: seq<Entry<Json>>): map<string, Val>
    decreases ps, 0
  {
    if ps == [] then m
    else
      var k := LowerName(ps[0].name);
      MergeFold(SetField(m, k, MergeOnto(Field(m, k), ps[0].item)), ps[1..])
  }

  /** The parts of a patch that are copied whole have distinct names. */
  ghost predicate Patchable(p: Json) {
    match p
    case Object(ps) => forall e | e in ps :: Patchable(e.item)
    case _ => WellNamed(p)
  }

  lemma {:induction false} WellNamedPatchable(p: Json)
    requires WellNamed(p)
    ensures Patchable(p)
  {
    match p
    case Object(ps) => forall e | e in ps ensures Patchable(e.item) { WellNamedPatchable(e.item); }
    case _ =>
  }

  lemma {:induction false} MergeIsFold(target: Option<Json>, patch: Json)
    requires WellNamedOption(target) && Patchable(patch)
    ensures WellNamed(Merged(target, patch)) && Meaning(Merged(target, patch)) == MergeVal(MeaningOf(target), patch)
    decreases patch, 0
  {
    if patch.Object? {
      var base := if target.Some? && target.value.Object? then target.value.members else [];
      MergeMembersIsFold(base, patch.members);
      assert FieldsOf(MeaningOf(target)) == Fields(base);
    }
  }

  lemma {:induction false} MergeMembersIsFold(ms: seq<Entry<Json>>, ps: seq<Entry<Json>>)
    requires WellNamedMembers(ms) && forall e | e in ps :: Patchable(e.item)
    ensures WellNamedMembers(MergeMembers(ms, ps))
    ensures Fields(MergeMembers(ms, ps)) == MergeFold(Fields(ms), ps)
    decreases ps, 0
  {
    if ps != [] {
      MergeMemberIsFold(ms, ps[0]);
      MergeMembersIsFold(MergeMember(ms, ps[0]), ps[1..]);
    }
  }

  lemma {:induction false} MergeMemberIsFold(ms: seq<Entry<Json>>, p: Entry<Json>)
    requires WellNamedMembers(ms) && Patchable(p.item)
    ensures WellNamedMembers(MergeMember(ms, p))
    ensures var k := LowerName(p.name);
      Fields(MergeMember(ms, p)) == SetField(Fields(ms), k, MergeOnto(Field(Fields(ms), k), p.item))
    decreases p, 1
  {
    var i := FindName(ms, p.name);
    FieldsLookup(ms, p.name);
    if i < |ms| {
      assert ms[i] in ms;
    }
    if p.item.Null? {
      if i < |ms| {
        FieldsWithout(ms, i);
        DistinctWithout(ms, i);
      } else {
        assert Fields(ms) - {LowerName(p.name)} == Fields(ms);
      }
    } else {
      var before := Lookup(ms, p.name);
      MergeIsFold(before, p.item);
      FieldsSetMember(ms, Entry(p.name, Merged(before, p.item)));
    }
  }

  /** What the members of a patch that carry one name leave under it. */
  ghost function FoldAt(v: Option<Val>, ps: seq<Entry<Json>>, k: string): Option<Val>
    decreases ps
  {
    if ps == [] then v
    else FoldAt(if LowerName(ps[0].name) == k then MergeOnto(v, ps[0].item) else v, ps[1..], k)
  }

  lemma {:induction false} FieldOfFold(m: map<string, Val>, ps: seq<Entry<Json>>, k: string)
    ensures Field(MergeFold(m, ps), k) == FoldAt(Field(m, k), ps, k)
    decreases ps
  {
    if ps != [] {
      var n := LowerName(ps[0].name);
      FieldOfFold(SetField(m, n, MergeOnto(Field(m, n), ps[0].item)), ps[1..], k);
    }
  }

  /** Merging the same patch again changes nothing. */
  lemma {:induction false} RfcMergeTwice(target: Option<Val>, patch: Val)
    ensures RfcMerge(Some(RfcMerge(target, patch)), patch) == RfcMerge(target, patch)
    decreases patch
  {
    match patch
    case VObject(pm) =>
      var once := RfcMerge(target, patch).fields;
      var twice := RfcMerge(Some(VObject(once)), patch).fields;
      assert once.Keys == twice.Keys;
      forall k | k in once
        ensures once[k] == twice[k]
      {
        if k in pm { RfcMergeTwice(Field(FieldsOf(target), k), pm[k]); }
      }
    case _ =>
  }

  lemma MergeTwice(target: Option<Json>, patch: Json)
    requires WellNamedOption(target) && WellNamed(patch)
    ensures var once := Merged(target, patch);
            WellNamed(once) && Comparison(Merged(Some(once), patch), once).code == 0
  {
    var once := Merged(target, patch);
    MergeIsRfc(target, patch);
    MergeIsRfc(Some(once), patch);
    RfcMergeTwice(MeaningOf(target), Meaning(patch));
    CompareDecidesMeaning(Merged(Some(once), patch), once);
  }
}
