/** Documents whose nodes have identities, so that it can be told where an old back link leads: to a node
    of the same list, to a node somewhere else by now, or to one that was freed. Without the
    identities they are the marked trees of `OldLinks`. */
module NodeTrees {
  import opened Json
  import opened Sorting
  import opened Compare
  import opened Pointer
  import opened OldLinks

  /** `id` stands for the address of the node, which no later node gets again; `link` is what the first
      member points back to, if to anything. */
  datatype Cell =
    | Plain(id: nat, v: Scalar)
    | List(id: nat, items: seq<Cell>)
    | Record(id: nat, members: seq<Entry<Cell>>, link: Option<nat>)

  /** The marked tree. */
  function Marks(c: Cell): Linked {
    match c
    case Plain(_, v) => Leaf(v)
    case List(_, xs) => Items(MarkItems(xs))
    case Record(_, ms, link) => Members(MarkMembers(ms), link.Some?)
  }

  function MarkItems(xs: seq<Cell>): (r: seq<Linked>)
    ensures |r| == |xs| && forall i :: 0 <= i < |xs| ==> r[i] == Marks(xs[i])
  {
    seq(|xs|, i requires 0 <= i < |xs| => Marks(xs[i]))
  }

  function MarkMembers(ms: seq<Entry<Cell>>): (r: seq<Entry<Linked>>)
    ensures |r| == |ms| && forall i :: 0 <= i < |ms| ==> r[i] == Entry(ms[i].name, Marks(ms[i].item))
  {
    seq(|ms|, i requires 0 <= i < |ms| => Entry(ms[i].name, Marks(ms[i].item)))
  }

  function MarkOption(o: Option<Cell>): Option<Linked> {
    match o case None => None case Some(c) => Some(Marks(c))
  }

  function Value(c: Cell): Json {
    Erase(Marks(c))
  }

  // ----- new nodes

  /** A tree out of new nodes, numbered from `n` on, and the next number. */
  function Label(v: Json, n: nat): (r: (Cell, nat))
    ensures Marks(r.0) == Fresh(v) && n < r.1
    decreases v, 1
  {
    match v
    case Array(xs) =>
      var (cs, m) := LabelItems(xs, n + 1);
      assert MarkItems(cs) == Fresh(v).items;
      (List(n, cs), m)
    case Object(ms) =>
      var (es, m) := LabelMembers(ms, n + 1);
      assert MarkMembers(es) == Fresh(v).members;
      (Record(n, es, None), m)
    case _ => (Plain(n, v), n + 1)
  }

  function LabelItems(xs: seq<Json>, n: nat): (r: (seq<Cell>, nat))
    ensures |r.0| == |xs| && n <= r.1 && forall i :: 0 <= i < |xs| ==> Marks(r.0[i]) == Fresh(xs[i])
    decreases xs, 0
  {
    if xs == [] then ([], n)
    else
      var (c, m) := Label(xs[0], n);
      var (cs, k) := LabelItems(xs[1..], m);
      ([c] + cs, k)
  }

  function LabelMembers(ms: seq<Entry<Json>>, n: nat): (r: (seq<Entry<Cell>>, nat))
    ensures |r.0| == |ms| && n <= r.1
    ensures forall i :: 0 <= i < |ms| ==> r.0[i].name == ms[i].name && Marks(r.0[i].item) == Fresh(ms[i].item)
    decreases ms, 0
  {
    if ms == [] then ([], n)
    else
      var (c, m) := Label(ms[0].item, n);
      var (cs, k) := LabelMembers(ms[1..], m);
      ([Entry(ms[0].name, c)] + cs, k)
  }

  // ----- nodes of a tree

  function Parts(c: Cell): (r: seq<Cell>)
    ensures |r| == |Kids(Marks(c))|
    ensures forall i :: 0 <= i < |r| ==> r[i] < c && Marks(r[i]) == Kids(Marks(c))[i]
  {
    match c
    case Plain(_, _) => []
    case List(_, xs) => xs
    case Record(_, ms, _) => seq(|ms|, i requires 0 <= i < |ms| => ms[i].item)
  }

  function CellAt(c: Cell, loc: Loc): (r: Cell)
    requires ValidLoc(Value(c), loc)
    ensures Marks(r) == NodeAt(Marks(c), loc)
    decreases |loc|
  {
    if loc == [] then c else CellAt(Parts(c)[loc[0]], loc[1..])
  }

  function WithPart(c: Cell, i: nat, u: Cell): (r: Cell)
    requires i < |Parts(c)|
    ensures Marks(r) == WithKid(Marks(c), i, Marks(u)) && r.id == c.id
  {
    match c
    case Plain(_, _) => c
    case List(id, xs) =>
      assert MarkItems(xs[i := u]) == MarkItems(xs)[i := Marks(u)];
      List(id, xs[i := u])
    case Record(id, ms, link) =>
      var ns := ms[i := ms[i].(item := u)];
      assert MarkMembers(ns) == MarkMembers(ms)[i := MarkMembers(ms)[i].(item := Marks(u))];
      Record(id, ns, link)
  }

  function SetCell(c: Cell, loc: Loc, u: Cell): (r: Cell)
    requires ValidLoc(Value(c), loc)
    ensures Marks(r) == PutAt(Marks(c), loc, Marks(u))
    decreases |loc|
  {
    if loc == [] then u else WithPart(c, loc[0], SetCell(Parts(c)[loc[0]], loc[1..], u))
  }

  /** Node `p` is the last of a list below `c`: nothing comes behind it. */
  predicate LastBelow(c: Cell, p: nat) {
    var ks := Parts(c);
    (ks != [] && ks[|ks| - 1].id == p) || exists i :: 0 <= i < |ks| && LastBelow(ks[i], p)
  }

  /** The same for a tree in nobody's list, whose root has nothing behind it either. */
  predicate LastIn(c: Cell, p: nat) {
    c.id == p || LastBelow(c, p)
  }

  // ----- the list operations do not look at the nodes

  lemma MarkMaps(ms: seq<Entry<Cell>>)
    ensures MarkMembers(ms) == Mapped(Marks, ms)
  {
    hide Marks;
  }

  lemma MarkFinds(ms: seq<Entry<Cell>>, name: string)
    ensures FindName(MarkMembers(ms), name) == FindName(ms, name)
  {
    hide *;
    MarkMaps(ms);
    MappedFind(Marks, ms, name);
  }

  lemma MarkWithout(ms: seq<Entry<Cell>>, i: nat)
    requires i < |ms|
    ensures MarkMembers(Without(ms, i)) == Without(MarkMembers(ms), i)
  {
    hide *;
    MarkMaps(ms);
    MarkMaps(Without(ms, i));
    MappedWithout(Marks, ms, i);
  }

  lemma MarkWithoutItem(xs: seq<Cell>, i: nat)
    requires i < |xs|
    ensures MarkItems(Without(xs, i)) == Without(MarkItems(xs), i)
  {
    hide Marks, Without;
    WithoutIndex(xs, i);
    WithoutIndex(MarkItems(xs), i);
  }

  lemma MarkSorts(ms: seq<Entry<Cell>>)
    ensures MarkMembers(Sort(ms)) == Sort(MarkMembers(ms))
    ensures FirstIsLeast(MarkMembers(ms)) <==> FirstIsLeast(ms)
  {
    hide *;
    MarkMaps(ms);
    MarkMaps(Sort(ms));
    MappedSort(Marks, ms);
    MappedOrder(Marks, ms);
  }

  // ----- sorting and comparing in place

  lemma OneLastLeast<T>(ms: seq<Entry<T>>, j: nat, k: nat)
    requires LastLeast(ms, j) && LastLeast(ms, k)
    ensures j == k && j < |ms| && (j == 0 ==> FirstIsLeast(ms))
  {
    var a, b := if k < j then k else j, if k < j then j else k;
    if a < b {
      assert Before(ms[a], ms[b]) && CaseOrder(ms[b].name, ms[a].name) <= 0;
      CaseOrderReversed(ms[a].name, ms[b].name);
    }
    hide CaseOrder;
  }

  /** If the first member does not stay the first, exactly one comes first instead, and it has one
      before it. */
  lemma LeastIsBehind<T>(ms: seq<Entry<T>>)
    requires !FirstIsLeast(ms)
    ensures exists j: nat :: LastLeast(ms, j)
    ensures forall j: nat :: LastLeast(ms, j) ==> 0 < j < |ms| && Sort(ms) != [] && Sort(ms)[0] == ms[j]
  {
    assert ms != [];
    hide *;
    var m := SortHead(ms);
    forall k: nat | LastLeast(ms, k) ensures k == m && 0 < m { OneLastLeast(ms, m, k); }
  }

  /** What the first member of the sorted list points back to: what came before it, or what it pointed
      back to as the first. */
  ghost function SortedLink(ms: seq<Entry<Cell>>, link: Option<nat>): (r: Option<nat>)
    ensures r.Some? <==> link.Some? || !FirstIsLeast(ms)
  {
    if FirstIsLeast(ms) then link
    else
      LeastIsBehind(ms);
      var j: nat :| LastLeast(ms, j);
      Some(ms[j - 1].item.id)
  }

  /** What `cJSONUtils_Compare` leaves of its first tree. */
  ghost function VisitedCell(c: Cell, b: Json): (r: Cell)
    ensures r.id == c.id
    decreases c, 1, 0
  {
    if !SameKind(Value(c), b) then c
    else match c
      case Plain(_, _) => c
      case List(id, xs) => List(id, VisitedCells(xs, b.items))
      case Record(id, ms, link) =>
        SortKeepsMembers(ms);
        Record(id, VisitedParts(Sort(ms), Sort(b.members), c), SortedLink(ms, link))
  }

  ghost function VisitedCells(xs: seq<Cell>, ys: seq<Json>): seq<Cell>
    decreases xs, 0, 0
  {
    if xs == [] || ys == [] then xs
    else [VisitedCell(xs[0], ys[0])] +
         if Comparison(Value(xs[0]), ys[0]).code != 0 then xs[1..] else VisitedCells(xs[1..], ys[1..])
  }

  ghost function VisitedParts(fs: seq<Entry<Cell>>, ts: seq<Entry<Json>>, owner: Cell): seq<Entry<Cell>>
    requires forall e | e in fs :: e.item < owner
    decreases owner, 0, |fs|
  {
    if fs == [] || ts == [] || CaseOrder(fs[0].name, ts[0].name) != 0 then fs
    else [fs[0].(item := VisitedCell(fs[0].item, ts[0].item))] +
         if Comparison(Value(fs[0].item), ts[0].item).code != 0 then fs[1..] else VisitedParts(fs[1..], ts[1..], owner)
  }

  lemma VisitedCellIs(id: nat, ms: seq<Entry<Cell>>, link: Option<nat>, b: Json)
    requires b.Object?
    ensures (forall e | e in Sort(ms) :: e.item < Record(id, ms, link))
    ensures VisitedCell(Record(id, ms, link), b)
         == Record(id, VisitedParts(Sort(ms), Sort(b.members), Record(id, ms, link)), SortedLink(ms, link))
  {
    SortKeepsMembers(ms);
    hide Sort, SortedLink, VisitedParts, VisitedCells, MarkMembers, MarkItems, EraseMembers, EraseItems;
  }

  lemma RecordMarks(id: nat, ms: seq<Entry<Cell>>, link: Option<nat>)
    ensures Marks(Record(id, ms, link)) == Members(MarkMembers(ms), link.Some?)
  {
  }

  lemma {:induction false} VisitedRecord(id: nat, ms: seq<Entry<Cell>>, link: Option<nat>, b: Json)
    requires b.Object?
    ensures Marks(VisitedCell(Record(id, ms, link), b)) == Visited(Members(MarkMembers(ms), link.Some?), b)
    decreases Record(id, ms, link), 0, |ms| + 1
  {
    hide *;
    VisitedCellIs(id, ms, link, b);
    VisitedIs(MarkMembers(ms), link.Some?, b);
    MarkSorts(ms);
    SortedIs(MarkMembers(ms), link.Some?);
    SortKeepsMembers(ms);
    VisitedPartsMark(Sort(ms), Sort(b.members), Record(id, ms, link), Members(MarkMembers(ms), link.Some?));
    RecordMarks(id, VisitedParts(Sort(ms), Sort(b.members), Record(id, ms, link)), SortedLink(ms, link));
  }

  lemma {:induction false} VisitedMarks(c: Cell, b: Json)
    ensures Marks(VisitedCell(c, b)) == Visited(Marks(c), b)
    decreases c, 1, 0
  {
    if SameKind(Value(c), b) {
      match c {
        case Plain(_, _) =>
        case List(_, xs) =>
          VisitedCellsMark(xs, b.items);
        case Record(id, ms, link) =>
          VisitedRecord(id, ms, link, b);
      }
      hide VisitedCells, VisitedItems, VisitedParts, VisitedMembers, Sort, FirstIsLeast, SortedLink;
    }
  }

  lemma MarkItemsStep(xs: seq<Cell>)
    requires xs != []
    ensures MarkItems(xs) != [] && MarkItems(xs)[0] == Marks(xs[0]) && MarkItems(xs)[1..] == MarkItems(xs[1..])
  {
    hide Marks;
  }

  lemma MarkItemsCons(x: Cell, xs: seq<Cell>)
    ensures MarkItems([x] + xs) == [Marks(x)] + MarkItems(xs)
  {
    hide Marks;
  }

  lemma {:induction false} VisitedCellsMark(xs: seq<Cell>, ys: seq<Json>)
    ensures MarkItems(VisitedCells(xs, ys)) == VisitedItems(MarkItems(xs), ys)
    decreases xs, 0, 0
  {
    if xs != [] && ys != [] {
      MarkItemsStep(xs);
      hide Visited, VisitedCell, Marks, Comparison, MarkItems, Erase;
      VisitedMarks(xs[0], ys[0]);
      VisitedCellsMark(xs[1..], ys[1..]);
      MarkItemsCons(VisitedCell(xs[0], ys[0]), if Comparison(Value(xs[0]), ys[0]).code != 0 then xs[1..] else VisitedCells(xs[1..], ys[1..]));
    }
  }

  lemma VisitedPartsStep(fs: seq<Entry<Cell>>, ts: seq<Entry<Json>>, owner: Cell, marked: Linked)
    requires (forall e | e in fs :: e.item < owner) && (forall e | e in MarkMembers(fs) :: e.item < marked)
    requires fs != [] && ts != [] && CaseOrder(fs[0].name, ts[0].name) == 0
    ensures MarkMembers(fs) != [] && MarkMembers(fs)[1..] == MarkMembers(fs[1..])
    ensures (forall e | e in fs[1..] :: e.item < owner) && (forall e | e in MarkMembers(fs[1..]) :: e.item < marked)
    ensures fs[0].item < owner
    ensures var code := Comparison(Value(fs[0].item), ts[0].item).code;
      && VisitedParts(fs, ts, owner)
         == [fs[0].(item := VisitedCell(fs[0].item, ts[0].item))] + (if code != 0 then fs[1..] else VisitedParts(fs[1..], ts[1..], owner))
      && VisitedMembers(MarkMembers(fs), ts, marked)
         == [Entry(fs[0].name, Visited(Marks(fs[0].item), ts[0].item))]
            + (if code != 0 then MarkMembers(fs[1..]) else VisitedMembers(MarkMembers(fs[1..]), ts[1..], marked))
  {
    assert MarkMembers(fs)[1..] == MarkMembers(fs[1..]);
    assert fs[0] in fs;
    hide Marks, Visited, VisitedCell, Comparison, CaseOrder, Erase;
  }

  lemma VisitedPartsStop(fs: seq<Entry<Cell>>, ts: seq<Entry<Json>>, owner: Cell, marked: Linked)
    requires (forall e | e in fs :: e.item < owner) && (forall e | e in MarkMembers(fs) :: e.item < marked)
    requires fs == [] || ts == [] || CaseOrder(fs[0].name, ts[0].name) != 0
    ensures VisitedParts(fs, ts, owner) == fs && VisitedMembers(MarkMembers(fs), ts, marked) == MarkMembers(fs)
  {
    hide CaseOrder, Marks;
  }

  lemma {:induction false} VisitedPartsMark(fs: seq<Entry<Cell>>, ts: seq<Entry<Json>>, owner: Cell, marked: Linked)
    requires (forall e | e in fs :: e.item < owner) && (forall e | e in MarkMembers(fs) :: e.item < marked)
    ensures MarkMembers(VisitedParts(fs, ts, owner)) == VisitedMembers(MarkMembers(fs), ts, marked)
    decreases owner, 0, |fs|
  {
    hide *;
    if fs != [] && ts != [] && CaseOrder(fs[0].name, ts[0].name) == 0 {
      VisitedPartsStep(fs, ts, owner, marked);
      VisitedMarks(fs[0].item, ts[0].item);
      VisitedPartsMark(fs[1..], ts[1..], owner, marked);
      MarkCons(fs[0].(item := VisitedCell(fs[0].item, ts[0].item)),
               if Comparison(Value(fs[0].item), ts[0].item).code != 0 then fs[1..] else VisitedParts(fs[1..], ts[1..], owner));
    } else {
      VisitedPartsStop(fs, ts, owner, marked);
    }
  }

  lemma MarkCons(e: Entry<Cell>, fs: seq<Entry<Cell>>)
    ensures MarkMembers([e] + fs) == [Entry(e.name, Marks(e.item))] + MarkMembers(fs)
  {
    hide Marks;
  }
}
