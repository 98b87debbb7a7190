/** Documents together with the back links that sorting leaves behind. Sorting a member list keeps
    whatever the new first node pointed back to; detaching that node later writes through the old
    link (`ChildList.SortObject` and `ChildList.DetachItemFromArray` prove both). Here every object
    carries a mark that says whether its first member holds such a link. */
module OldLinks {
  import opened Json
  import opened Sorting
  import opened Compare
  import opened Pointer

  type Scalar = v: Json | !v.Array? && !v.Object? witness Null

  /** `stale`: the first member points back to another node. */
  datatype Linked =
    | Leaf(v: Scalar)
    | Items(items: seq<Linked>)
    | Members(members: seq<Entry<Linked>>, stale: bool)

  /** The value without the marks. */
  function Erase(t: Linked): Json {
    match t
    case Leaf(v) => v
    case Items(xs) => Array(EraseItems(xs))
    case Members(ms, _) => Object(EraseMembers(ms))
  }

  function EraseItems(xs: seq<Linked>): (r: seq<Json>)
    ensures |r| == |xs| && forall i :: 0 <= i < |xs| ==> r[i] == Erase(xs[i])
  {
    seq(|xs|, i requires 0 <= i < |xs| => Erase(xs[i]))
  }

  function EraseMembers(ms: seq<Entry<Linked>>): (r: seq<Entry<Json>>)
    ensures |r| == |ms| && forall i :: 0 <= i < |ms| ==> r[i] == Entry(ms[i].name, Erase(ms[i].item))
  {
    seq(|ms|, i requires 0 <= i < |ms| => Entry(ms[i].name, Erase(ms[i].item)))
  }

  function EraseOption(o: Option<Linked>): Option<Json> {
    match o case None => None case Some(t) => Some(Erase(t))
  }

  /** A tree out of newly made nodes: parsed, or copied. */
  function Fresh(v: Json): (t: Linked)
    ensures Erase(t) == v
  {
    match v
    case Array(xs) =>
      var ys := seq(|xs|, i requires 0 <= i < |xs| => Fresh(xs[i]));
      assert EraseItems(ys) == xs;
      Items(ys)
    case Object(ms) =>
      var ns := seq(|ms|, i requires 0 <= i < |ms| => Entry(ms[i].name, Fresh(ms[i].item)));
      assert EraseMembers(ns) == ms;
      Members(ns, false)
    case _ => Leaf(v)
  }

  /** No first member holds a stale link. */
  ghost predicate Clean(t: Linked) {
    match t
    case Leaf(_) => true
    case Items(xs) => forall x | x in xs :: Clean(x)
    case Members(ms, stale) => !stale && forall e | e in ms :: Clean(e.item)
  }

  lemma {:induction false} FreshIsClean(v: Json)
    ensures Clean(Fresh(v))
  {
    match v
    case Array(xs) =>
      forall x | x in Fresh(v).items ensures Clean(x) {
        var i :| 0 <= i < |xs| && Fresh(v).items[i] == x;
        FreshIsClean(xs[i]);
      }
    case Object(ms) =>
      forall e | e in Fresh(v).members ensures Clean(e.item) {
        var i :| 0 <= i < |ms| && Fresh(v).members[i] == e;
        FreshIsClean(ms[i].item);
      }
    case _ =>
  }

  // ----- the list operations do not look at the values

  lemma EraseMaps(ms: seq<Entry<Linked>>)
    ensures EraseMembers(ms) == Mapped(Erase, ms)
  {
    hide Erase;
  }

  lemma EraseFinds(ms: seq<Entry<Linked>>, name: string)
    ensures FindName(EraseMembers(ms), name) == FindName(ms, name)
  {
    hide *;
    EraseMaps(ms);
    MappedFind(Erase, ms, name);
  }

  lemma EraseWithout(ms: seq<Entry<Linked>>, i: nat)
    requires i < |ms|
    ensures EraseMembers(Without(ms, i)) == Without(EraseMembers(ms), i)
  {
    hide *;
    EraseMaps(ms);
    EraseMaps(Without(ms, i));
    MappedWithout(Erase, ms, i);
  }

  lemma EraseWithoutItem(xs: seq<Linked>, i: nat)
    requires i < |xs|
    ensures EraseItems(Without(xs, i)) == Without(EraseItems(xs), i)
  {
    WithoutIndex(xs, i);
    WithoutIndex(EraseItems(xs), i);
    hide Erase, Without;
  }

  lemma EraseSets(ms: seq<Entry<Linked>>, e: Entry<Linked>)
    ensures EraseMembers(SetMember(ms, e)) == SetMember(EraseMembers(ms), Entry(e.name, Erase(e.item)))
  {
    EraseFinds(ms, e.name);
    var i := FindName(ms, e.name);
    if i < |ms| { EraseWithout(ms, i); }
    hide Erase, Without, FindName;
    assert forall ns :: EraseMembers(ns + [e]) == EraseMembers(ns) + [Entry(e.name, Erase(e.item))];
  }

  lemma EraseMembersTail(ms: seq<Entry<Linked>>)
    requires ms != []
    ensures EraseMembers(ms) != [] && EraseMembers(ms)[1..] == EraseMembers(ms[1..])
    ensures EraseMembers(ms)[0] == Entry(ms[0].name, Erase(ms[0].item))
  {
    hide Erase;
  }

  lemma EraseSorts(ms: seq<Entry<Linked>>)
    ensures EraseMembers(Sort(ms)) == Sort(EraseMembers(ms))
  {
    hide *;
    EraseMaps(ms);
    EraseMaps(Sort(ms));
    MappedSort(Erase, ms);
  }

  // ----- nodes of a marked tree

  function Kids(t: Linked): (r: seq<Linked>)
    ensures |r| == |Children(Erase(t))|
    ensures forall i :: 0 <= i < |r| ==> r[i] < t && Erase(r[i]) == Children(Erase(t))[i]
  {
    match t
    case Leaf(_) => []
    case Items(xs) => xs
    case Members(ms, _) => seq(|ms|, i requires 0 <= i < |ms| => ms[i].item)
  }

  function NodeAt(t: Linked, loc: Loc): (r: Linked)
    requires ValidLoc(Erase(t), loc)
    ensures Erase(r) == At(Erase(t), loc)
    decreases |loc|
  {
    if loc == [] then t else NodeAt(Kids(t)[loc[0]], loc[1..])
  }

  function WithKid(t: Linked, i: nat, u: Linked): (r: Linked)
    requires i < |Kids(t)|
    ensures Erase(r) == WithChild(Erase(t), i, Erase(u))
  {
    match t
    case Leaf(_) => t
    case Items(xs) =>
      assert EraseItems(xs[i := u]) == EraseItems(xs)[i := Erase(u)];
      Items(xs[i := u])
    case Members(ms, stale) =>
      var ns := ms[i := ms[i].(item := u)];
      assert EraseMembers(ns) == EraseMembers(ms)[i := EraseMembers(ms)[i].(item := Erase(u))];
      Members(ns, stale)
  }

  function PutAt(t: Linked, loc: Loc, u: Linked): (r: Linked)
    requires ValidLoc(Erase(t), loc)
    ensures Erase(r) == SetAt(Erase(t), loc, Erase(u))
    decreases |loc|
  {
    if loc == [] then u else WithKid(t, loc[0], PutAt(Kids(t)[loc[0]], loc[1..], u))
  }

  // ----- sorting and comparing in place

  /** The list is sorted, and the mark is set if another member comes first. */
  function Sorted(ms: seq<Entry<Linked>>, stale: bool): bool {
    stale || !FirstIsLeast(ms)
  }

  /** What `cJSONUtils_Compare` leaves of its first tree. */
  function Visited(t: Linked, b: Json): Linked
    decreases t, 1, 0
  {
    if !SameKind(Erase(t), b) then t
    else match t
      case Leaf(_) => t
      case Items(xs) => Items(VisitedItems(xs, b.items))
      case Members(ms, stale) =>
        SortKeepsMembers(ms);
        Members(VisitedMembers(Sort(ms), Sort(b.members), t), Sorted(ms, stale))
  }

  function VisitedItems(xs: seq<Linked>, ys: seq<Json>): seq<Linked>
    decreases xs, 0, 0
  {
    if xs == [] || ys == [] then xs
    else [Visited(xs[0], ys[0])] +
         if Comparison(Erase(xs[0]), ys[0]).code != 0 then xs[1..] else VisitedItems(xs[1..], ys[1..])
  }

  function VisitedMembers(fs: seq<Entry<Linked>>, ts: seq<Entry<Json>>, ghost owner: Linked): seq<Entry<Linked>>
    requires forall e | e in fs :: e.item < owner
    decreases owner, 0, |fs|
  {
    if fs == [] || ts == [] || CaseOrder(fs[0].name, ts[0].name) != 0 then fs
    else [fs[0].(item := Visited(fs[0].item, ts[0].item))] +
         if Comparison(Erase(fs[0].item), ts[0].item).code != 0 then fs[1..] else VisitedMembers(fs[1..], ts[1..], owner)
  }

  lemma VisitedIs(ms: seq<Entry<Linked>>, stale: bool, b: Json)
    requires b.Object?
    ensures (forall e | e in Sort(ms) :: e.item < Members(ms, stale))
    ensures Visited(Members(ms, stale), b)
         == Members(VisitedMembers(Sort(ms), Sort(b.members), Members(ms, stale)), Sorted(ms, stale))
  {
    SortKeepsMembers(ms);
    hide Sort, FirstIsLeast, VisitedMembers, VisitedItems, EraseMembers, EraseItems;
  }

  lemma SortedIs(ms: seq<Entry<Linked>>, stale: bool)
    ensures Sorted(ms, stale) <==> stale || !FirstIsLeast(ms)
  {
    hide FirstIsLeast;
  }

  lemma {:induction false} EraseVisited(t: Linked, b: Json)
    ensures Erase(Visited(t, b)) == Comparison(Erase(t), b).a
    decreases t, 1, 0
  {
    if SameKind(Erase(t), b) {
      match t {
        case Leaf(_) =>
        case Items(xs) => EraseVisitedItems(xs, b.items);
        case Members(ms, _) =>
          SortKeepsMembers(ms);
          SortKeepsMembers(EraseMembers(ms));
          EraseSorts(ms);
          EraseVisitedMembers(Sort(ms), Sort(b.members), t, Erase(t));
      }
    }
  }

  lemma VisitedItemsStep(xs: seq<Linked>, ys: seq<Json>)
    requires xs != [] && ys != []
    ensures EraseItems(xs) != [] && EraseItems(xs)[1..] == EraseItems(xs[1..])
    ensures var r := Comparison(Erase(xs[0]), ys[0]);
      && CompareItems(EraseItems(xs), ys).a
         == [r.a] + (if r.code != 0 then EraseItems(xs[1..]) else CompareItems(EraseItems(xs[1..]), ys[1..]).a)
      && VisitedItems(xs, ys)
         == [Visited(xs[0], ys[0])] + (if r.code != 0 then xs[1..] else VisitedItems(xs[1..], ys[1..]))
  {
    assert EraseItems(xs)[1..] == EraseItems(xs[1..]);
    hide Erase, Visited, Comparison;
  }

  lemma EraseItemsCons(x: Linked, xs: seq<Linked>)
    ensures EraseItems([x] + xs) == [Erase(x)] + EraseItems(xs)
  {
    hide Erase;
  }

  lemma {:induction false} EraseVisitedItems(xs: seq<Linked>, ys: seq<Json>)
    ensures EraseItems(VisitedItems(xs, ys)) == CompareItems(EraseItems(xs), ys).a
    decreases xs, 0, 0
  {
    if xs != [] && ys != [] {
      hide *;
      VisitedItemsStep(xs, ys);
      EraseVisited(xs[0], ys[0]);
      EraseVisitedItems(xs[1..], ys[1..]);
      var r := Comparison(Erase(xs[0]), ys[0]);
      EraseItemsCons(Visited(xs[0], ys[0]), if r.code != 0 then xs[1..] else VisitedItems(xs[1..], ys[1..]));
    }
  }

  lemma VisitedMembersStep(fs: seq<Entry<Linked>>, ts: seq<Entry<Json>>, owner: Linked, v: Json)
    requires (forall e | e in fs :: e.item < owner) && (forall e | e in EraseMembers(fs) :: e.item < v)
    requires fs != [] && ts != [] && CaseOrder(fs[0].name, ts[0].name) == 0
    ensures EraseMembers(fs) != [] && EraseMembers(fs)[1..] == EraseMembers(fs[1..])
    ensures (forall e | e in fs[1..] :: e.item < owner) && (forall e | e in EraseMembers(fs[1..]) :: e.item < v)
    ensures fs[0].item < owner
    ensures var r := Comparison(Erase(fs[0].item), ts[0].item);
      && CompareMembers(EraseMembers(fs), ts, v).a
         == [Entry(fs[0].name, r.a)] + (if r.code != 0 then EraseMembers(fs[1..]) else CompareMembers(EraseMembers(fs[1..]), ts[1..], v).a)
      && VisitedMembers(fs, ts, owner)
         == [fs[0].(item := Visited(fs[0].item, ts[0].item))] + (if r.code != 0 then fs[1..] else VisitedMembers(fs[1..], ts[1..], owner))
  {
    assert EraseMembers(fs)[1..] == EraseMembers(fs[1..]);
    assert fs[0] in fs;
    hide Erase, Visited, Comparison, CaseOrder;
  }

  lemma EraseMembersCons(e: Entry<Linked>, fs: seq<Entry<Linked>>)
    ensures EraseMembers([e] + fs) == [Entry(e.name, Erase(e.item))] + EraseMembers(fs)
  {
    hide Erase;
  }

  lemma {:induction false} EraseVisitedMembers(fs: seq<Entry<Linked>>, ts: seq<Entry<Json>>, owner: Linked, v: Json)
    requires (forall e | e in fs :: e.item < owner) && (forall e | e in EraseMembers(fs) :: e.item < v)
    ensures EraseMembers(VisitedMembers(fs, ts, owner)) == CompareMembers(EraseMembers(fs), ts, v).a
    decreases owner, 0, |fs|
  {
    if fs != [] && ts != [] && CaseOrder(fs[0].name, ts[0].name) == 0 {
      hide *;
      VisitedMembersStep(fs, ts, owner, v);
      EraseVisited(fs[0].item, ts[0].item);
      EraseVisitedMembers(fs[1..], ts[1..], owner, v);
      var r := Comparison(Erase(fs[0].item), ts[0].item);
      EraseMembersCons(fs[0].(item := Visited(fs[0].item, ts[0].item)),
                       if r.code != 0 then fs[1..] else VisitedMembers(fs[1..], ts[1..], owner));
    }
  }
}
