/** Trees in which objects were sorted in place: by a comparison, or by generating patches. Their nodes are
    the same, and their old links stay tied. */
module NodeSorting {
  import opened Json
  import opened Sorting
  import opened Compare
  import opened Pointer
  import opened OldLinks
  import opened LinkedDiff
  import opened LinkedExact
  import opened NodeTrees
  import opened NodeLinks

  // ----- sorting keeps identities, and ties the link it leaves

  ghost function IndexIn<T>(s: seq<T>, x: T): (r: nat)
    requires x in s
    ensures r < |s| && s[r] == x
  {
    var i :| 0 <= i < |s| && s[i] == x;
    i
  }

  lemma OneItem(id: nat, ms: seq<Entry<Cell>>, link: Option<nat>, a: nat, b: nat)
    requires Unique(Record(id, ms, link)) && a < |ms| && b < |ms| && ms[a].item.id == ms[b].item.id
    ensures a == b
  {
    var c := Record(id, ms, link);
    assert Parts(c)[a] == ms[a].item && Parts(c)[b] == ms[b].item;
    hide Unique, Has, Marks;
    if a != b {
      ApartEither(c, a, b);
      HasRoot(ms[a].item);
      HasRoot(ms[b].item);
      ApartBoth(ms[a].item, ms[b].item, ms[a].item.id);
    }
  }

  lemma SortedOnce(id: nat, ms: seq<Entry<Cell>>, link: Option<nat>, a: nat, b: nat)
    requires Unique(Record(id, ms, link)) && a < b < |Sort(ms)|
    ensures Sort(ms)[a] != Sort(ms)[b]
  {
    hide *;
    if Sort(ms)[a] == Sort(ms)[b] {
      TwiceInSeq(Sort(ms), a, b);
      SortPermutes(ms);
      TwoPositions(ms, Sort(ms)[a]);
      var i, j :| 0 <= i < j < |ms| && ms[i] == Sort(ms)[a] && ms[j] == Sort(ms)[a];
      OneItem(id, ms, link, i, j);
    }
  }

  lemma RecordParts(id: nat, ms: seq<Entry<Cell>>, link: Option<nat>)
    ensures var c := Record(id, ms, link);
      |Parts(c)| == |ms| && forall a :: 0 <= a < |ms| ==> Parts(c)[a] == ms[a].item
  {
    hide Marks;
  }

  lemma SortedFrom(id: nat, ms: seq<Entry<Cell>>, link: Option<nat>, l: Option<nat>) returns (fs: seq<nat>)
    requires Unique(Record(id, ms, link))
    ensures From(Record(id, ms, link), Record(id, Sort(ms), l), fs, |ms|) && |Sort(ms)| == |ms|
  {
    hide *;
    var c, d := Record(id, ms, link), Record(id, Sort(ms), l);
    SortKeepsMembers(ms);
    RecordParts(id, ms, link);
    RecordParts(id, Sort(ms), l);
    fs := seq(|ms|, a requires 0 <= a < |ms| => IndexIn(ms, Sort(ms)[a]));
    forall a, b | 0 <= a < b < |ms| ensures fs[a] != fs[b] { SortedOnce(id, ms, link, a, b); }
    FromBy(c, d, fs, |ms|);
  }

  lemma SortedHas(id: nat, ms: seq<Entry<Cell>>, link: Option<nat>, l: Option<nat>, x: nat)
    requires Unique(Record(id, ms, link))
    ensures Has(Record(id, ms, link), x) <==> Has(Record(id, Sort(ms), l), x)
  {
    var c, d := Record(id, ms, link), Record(id, Sort(ms), l);
    RecordParts(id, ms, link);
    RecordParts(id, Sort(ms), l);
    SortKeepsMembers(ms);
    hide Sort, Unique, Parts, Marks;
    var fs := SortedFrom(id, ms, link, l);
    if Has(d, x) { HasFrom(c, d, fs, |ms|, x); }
    if HasBelow(c, x) {
      var a :| 0 <= a < |ms| && Has(Parts(c)[a], x);
      assert ms[a] in Sort(ms);
      var b := IndexIn(Sort(ms), ms[a]);
      assert Parts(d)[b] == Parts(c)[a];
    }
  }

  /** A later node of the list stays behind the first one. */
  lemma LaterSorted(id: nat, ms: seq<Entry<Cell>>, link: Option<nat>, p: nat)
    requires Unique(Record(id, ms, link)) && ms != []
    requires exists j :: 0 <= j < |ms| && ms[j].item.id == p && Sort(ms) != [] && Sort(ms)[0] != ms[j]
    ensures Later(Sort(ms), p)
  {
    var j :| 0 <= j < |ms| && ms[j].item.id == p && Sort(ms)[0] != ms[j];
    SortKeepsMembers(ms);
    var k := IndexIn(Sort(ms), ms[j]);
    hide Sort, Unique, Marks;
    assert k > 0;
  }

  lemma LeastHead<T>(ms: seq<Entry<T>>)
    requires FirstIsLeast(ms) && ms != []
    ensures Sort(ms) != [] && Sort(ms)[0] == ms[0]
  {
    hide Sort, CaseOrder;
    var j := SortHead(ms);
    if j > 0 {
      assert Before(ms[0], ms[j]) && CaseOrder(ms[j].name, ms[0].name) <= 0;
      CaseOrderReversed(ms[0].name, ms[j].name);
    }
  }

  lemma SortedLinkAt(ms: seq<Entry<Cell>>, link: Option<nat>) returns (j: nat)
    requires !FirstIsLeast(ms)
    ensures 0 < j < |ms| && Sort(ms) != [] && Sort(ms)[0] == ms[j] && SortedLink(ms, link) == Some(ms[j - 1].item.id)
  {
    hide LastLeast, Sort, FirstIsLeast;
    LeastIsBehind(ms);
    j :| LastLeast(ms, j) && SortedLink(ms, link) == Some(ms[j - 1].item.id);
  }

  lemma SortedLinkStays(ms: seq<Entry<Cell>>, link: Option<nat>)
    requires FirstIsLeast(ms)
    ensures SortedLink(ms, link) == link
  {
    hide FirstIsLeast;
  }

  lemma LaterAt(ms: seq<Entry<Cell>>, p: nat) returns (j: nat)
    requires Later(ms, p)
    ensures 0 < j < |ms| && ms[j].item.id == p
  {
    j :| 0 < j < |ms| && ms[j].item.id == p;
  }

  lemma TiedHereBy(id: nat, ms: seq<Entry<Cell>>, l: Option<nat>, live: iset<nat>, n: nat)
    ensures TiedHere(Record(id, ms, l), live, n) <==> (l.Some? ==> l.value < n && (Later(ms, l.value) || l.value !in live))
  {
    hide Later;
  }

  lemma SortedTied(id: nat, ms: seq<Entry<Cell>>, link: Option<nat>, live: iset<nat>, n: nat)
    requires Unique(Record(id, ms, link)) && NumberedUnder(Record(id, ms, link), n) && TiedHere(Record(id, ms, link), live, n)
    ensures TiedHere(Record(id, Sort(ms), SortedLink(ms, link)), live, n)
  {
    hide *;
    TiedHereBy(id, ms, link, live, n);
    TiedHereBy(id, Sort(ms), SortedLink(ms, link), live, n);
    if FirstIsLeast(ms) {
      SortedLinkStays(ms, link);
      if link.Some? && Later(ms, link.value) {
        var j := LaterAt(ms, link.value);
        LeastHead(ms);
        if ms[0] == ms[j] { OneItem(id, ms, link, 0, j); }
        LaterSorted(id, ms, link, link.value);
      }
    } else {
      var j := SortedLinkAt(ms, link);
      if ms[j - 1] == ms[j] { OneItem(id, ms, link, j - 1, j); }
      LaterSorted(id, ms, link, ms[j - 1].item.id);
      RecordParts(id, ms, link);
      HasPart(Record(id, ms, link), j - 1);
      BelowNext(Record(id, ms, link), n);
    }
  }

  // ----- trees in which objects were sorted

  /** Some objects have been sorted in place; nothing else has changed. */
  ghost predicate Resorted(c: Cell, d: Cell)
    decreases c, 1
  {
    d.id == c.id &&
    match c
    case Plain(_, _) => d == c
    case List(_, xs) => d.List? && |d.items| == |xs| && forall i :: 0 <= i < |xs| ==> Resorted(xs[i], d.items[i])
    case Record(_, ms, link) =>
      && d.Record?
      && ((d.link == link && MembersResorted(ms, d.members, c)) || (d.link == SortedLink(ms, link) && MembersResorted(Sort(ms), d.members, c)))
  }

  ghost predicate MembersResorted(ms: seq<Entry<Cell>>, ns: seq<Entry<Cell>>, owner: Cell)
    decreases owner, 0
  {
    && |ns| == |ms|
    && forall i :: 0 <= i < |ms| ==> ns[i].name == ms[i].name && ms[i].item < owner && Resorted(ms[i].item, ns[i].item)
  }

  lemma ResortedId(c: Cell, d: Cell)
    requires Resorted(c, d)
    ensures d.id == c.id
  {
  }

  /** Every part is resorted. */
  ghost predicate PartsResorted(c: Cell, d: Cell) {
    && d.id == c.id && |Parts(d)| == |Parts(c)|
    && forall a :: 0 <= a < |Parts(c)| ==> Resorted(Parts(c)[a], Parts(d)[a])
  }

  lemma MembersArePartsResorted(id: nat, ms: seq<Entry<Cell>>, ns: seq<Entry<Cell>>, owner: Cell, link: Option<nat>)
    requires MembersResorted(ms, ns, owner)
    ensures PartsResorted(Record(id, ms, link), Record(id, ns, link))
    ensures forall a :: 0 <= a < |ms| ==> Parts(Record(id, ms, link))[a] < owner
  {
    hide Resorted, Marks;
  }

  lemma ListPartsResorted(c: Cell, d: Cell)
    requires Resorted(c, d) && !c.Record?
    ensures PartsResorted(c, d)
  {
  }

  /** The sorted object on the way, if it was sorted. */
  lemma ResortedBy(id: nat, ms: seq<Entry<Cell>>, link: Option<nat>, d: Cell) returns (e: Cell)
    requires Resorted(Record(id, ms, link), d)
    ensures e == Record(id, ms, link) || e == Record(id, Sort(ms), SortedLink(ms, link))
    ensures d.Record? && d == Record(id, d.members, e.link) && PartsResorted(e, d)
    ensures MembersResorted(e.members, d.members, Record(id, ms, link))
    ensures forall a :: 0 <= a < |Parts(e)| ==> Parts(e)[a] < Record(id, ms, link)
  {
    var c := Record(id, ms, link);
    hide SortedLink, Sort, Marks, Parts, MembersResorted, PartsResorted;
    if d.link == link && MembersResorted(ms, d.members, c) {
      e := c;
      MembersArePartsResorted(id, ms, d.members, c, link);
      RecordParts(id, ms, link);
    } else {
      e := Record(id, Sort(ms), SortedLink(ms, link));
      MembersArePartsResorted(id, Sort(ms), d.members, c, SortedLink(ms, link));
      RecordParts(id, Sort(ms), SortedLink(ms, link));
    }
  }

  lemma PartResorted(c: Cell, d: Cell, a: nat)
    requires PartsResorted(c, d) && (a < |Parts(c)| || a < |Parts(d)|)
    ensures d.id == c.id && |Parts(d)| == |Parts(c)| && Resorted(Parts(c)[a], Parts(d)[a])
  {
    hide Resorted, Parts;
  }

  lemma {:induction false} ResortedHas(c: Cell, d: Cell, x: nat)
    requires Unique(c) && Resorted(c, d)
    ensures Has(d, x) <==> Has(c, x)
    decreases c, 1
  {
    hide *;
    if c.Record? {
      var e := ResortedBy(c.id, c.members, c.link, d);
      SortedUnique(c.id, c.members, c.link);
      SortedHas(c.id, c.members, c.link, SortedLink(c.members, c.link), x);
      PartsHave(c, e, d, x);
    } else {
      ListPartsResorted(c, d);
      PartsSmaller(c);
      PartsHave(c, c, d, x);
    }
  }

  lemma PartsSmaller(c: Cell)
    ensures forall a :: 0 <= a < |Parts(c)| ==> Parts(c)[a] < c
  {
  }

  lemma SortedUnique(id: nat, ms: seq<Entry<Cell>>, link: Option<nat>)
    requires Unique(Record(id, ms, link))
    ensures Unique(Record(id, Sort(ms), SortedLink(ms, link)))
  {
    hide *;
    var fs := SortedFrom(id, ms, link, SortedLink(ms, link));
    RecordParts(id, Sort(ms), SortedLink(ms, link));
    UniqueFrom(Record(id, ms, link), Record(id, Sort(ms), SortedLink(ms, link)), fs, |ms|);
  }

  lemma {:induction false} PartsHave(c: Cell, e: Cell, d: Cell, x: nat)
    requires Unique(e) && PartsResorted(e, d) && forall a :: 0 <= a < |Parts(e)| ==> Parts(e)[a] < c
    ensures Has(d, x) <==> Has(e, x)
    decreases c, 0
  {
    hide *;
    SameRoot(e, d);
    if Has(d, x) && x != d.id {
      var a := PartOf(d, x);
      PartResorted(e, d, a);
      UniquePart(e, a);
      ResortedHas(Parts(e)[a], Parts(d)[a], x);
      HasIn(e, a, x);
    } else if Has(e, x) && x != e.id {
      var a := PartOf(e, x);
      PartResorted(e, d, a);
      UniquePart(e, a);
      ResortedHas(Parts(e)[a], Parts(d)[a], x);
      HasIn(d, a, x);
    } else {
      HasRoot(d);
      HasRoot(e);
    }
  }

  lemma SameRoot(e: Cell, d: Cell)
    requires PartsResorted(e, d)
    ensures d.id == e.id && |Parts(d)| == |Parts(e)|
  {
    hide Parts;
  }

  lemma HasIn(c: Cell, a: nat, x: nat)
    requires a < |Parts(c)| && Has(Parts(c)[a], x)
    ensures Has(c, x)
  {
  }

  lemma {:induction false} ResortedUnique(c: Cell, d: Cell)
    requires Unique(c) && Resorted(c, d)
    ensures Unique(d)
    decreases c, 1
  {
    hide *;
    if c.Record? {
      var e := ResortedBy(c.id, c.members, c.link, d);
      SortedUnique(c.id, c.members, c.link);
      PartsUnique(c, e, d);
    } else {
      ListPartsResorted(c, d);
      PartsSmaller(c);
      PartsUnique(c, c, d);
    }
  }

  lemma {:induction false} PartsUnique(c: Cell, e: Cell, d: Cell)
    requires Unique(e) && PartsResorted(e, d) && forall a :: 0 <= a < |Parts(e)| ==> Parts(e)[a] < c
    ensures Unique(d)
    decreases c, 0
  {
    hide *;
    SameRoot(e, d);
    forall a | 0 <= a < |Parts(d)| ensures Unique(Parts(d)[a]) && !Has(Parts(d)[a], d.id) {
      PartResorted(e, d, a);
      UniquePart(e, a);
      ResortedUnique(Parts(e)[a], Parts(d)[a]);
      ResortedHas(Parts(e)[a], Parts(d)[a], d.id);
    }
    forall a, b | 0 <= a < b < |Parts(d)| ensures Apart(Parts(d)[a], Parts(d)[b]) {
      PartResorted(e, d, a);
      PartResorted(e, d, b);
      UniquePart(e, a);
      UniquePart(e, b);
      ApartEither(e, a, b);
      forall x: nat ensures !(Has(Parts(d)[a], x) && Has(Parts(d)[b], x)) {
        ResortedHas(Parts(e)[a], Parts(d)[a], x);
        ResortedHas(Parts(e)[b], Parts(d)[b], x);
        ApartBoth(Parts(e)[a], Parts(e)[b], x);
      }
      ApartBy(Parts(d)[a], Parts(d)[b]);
    }
    UniqueBy(d);
  }

  lemma ApartBy(a: Cell, b: Cell)
    requires forall x: nat :: !(Has(a, x) && Has(b, x))
    ensures Apart(a, b)
  {
    hide Has;
  }

  lemma LaterResorted(ms: seq<Entry<Cell>>, ns: seq<Entry<Cell>>, owner: Cell, p: nat)
    requires MembersResorted(ms, ns, owner) && Later(ms, p)
    ensures Later(ns, p)
  {
    var j := LaterAt(ms, p);
    ResortedId(ms[j].item, ns[j].item);
    hide Resorted;
  }

  lemma {:induction false} ResortedTied(c: Cell, d: Cell, live: iset<nat>, n: nat)
    requires Unique(c) && Resorted(c, d) && NumberedUnder(c, n) && Tied(c, live, n)
    ensures Tied(d, live, n)
    decreases c, 1
  {
    hide *;
    TiedHereOf(c, live, n);
    if c.Record? {
      var id, ms, link := c.id, c.members, c.link;
      var e := ResortedBy(id, ms, link, d);
      SortedUnique(id, ms, link);
      SortedTied(id, ms, link, live, n);
      TiedHereBy(id, e.members, e.link, live, n);
      TiedHereBy(id, d.members, e.link, live, n);
      if e.link.Some? && Later(e.members, e.link.value) { LaterResorted(e.members, d.members, c, e.link.value); }
      SortedPartsTied(id, ms, link, e, live, n);
      PartsTied(c, e, d, live, n);
    } else {
      ListPartsResorted(c, d);
      PartsSmaller(c);
      forall a | 0 <= a < |Parts(c)| ensures Tied(Parts(c)[a], live, n) && NumberedUnder(Parts(c)[a], n) {
        TiedPart(c, a, live, n);
        NumberedPart(c, a, n);
      }
      OnlyRecordsTied(d, live, n);
      ListStays(c, d);
      PartsTied(c, c, d, live, n);
    }
  }

  lemma ListStays(c: Cell, d: Cell)
    requires Resorted(c, d) && !c.Record?
    ensures !d.Record?
  {
  }

  lemma OnlyRecordsTied(d: Cell, live: iset<nat>, n: nat)
    ensures !d.Record? ==> TiedHere(d, live, n)
  {
  }

  lemma NumberedPart(c: Cell, a: nat, n: nat)
    requires NumberedUnder(c, n) && a < |Parts(c)|
    ensures NumberedUnder(Parts(c)[a], n)
  {
    forall x: nat | Has(Parts(c)[a], x) ensures x < n { HasIn(c, a, x); }
  }

  lemma SortedPartsTied(id: nat, ms: seq<Entry<Cell>>, link: Option<nat>, e: Cell, live: iset<nat>, n: nat)
    requires Unique(Record(id, ms, link)) && NumberedUnder(Record(id, ms, link), n) && Tied(Record(id, ms, link), live, n)
    requires e == Record(id, ms, link) || e == Record(id, Sort(ms), SortedLink(ms, link))
    ensures forall a :: 0 <= a < |Parts(e)| ==> Tied(Parts(e)[a], live, n) && NumberedUnder(Parts(e)[a], n)
  {
    hide *;
    var c := Record(id, ms, link);
    var fs := SortedFrom(id, ms, link, SortedLink(ms, link));
    RecordParts(id, ms, link);
    RecordParts(id, Sort(ms), SortedLink(ms, link));
    forall a | 0 <= a < |Parts(e)| ensures Tied(Parts(e)[a], live, n) && NumberedUnder(Parts(e)[a], n) {
      if e != c {
        FromSize(c, e, fs, |ms|);
        FromAt(c, e, fs, |ms|, a);
      }
      var b := if e == c then a else fs[a];
      TiedPart(c, b, live, n);
      NumberedPart(c, b, n);
    }
  }

  lemma {:induction false} PartsTied(c: Cell, e: Cell, d: Cell, live: iset<nat>, n: nat)
    requires Unique(e) && PartsResorted(e, d) && TiedHere(d, live, n)
    requires forall a :: 0 <= a < |Parts(e)| ==> Parts(e)[a] < c && Tied(Parts(e)[a], live, n) && NumberedUnder(Parts(e)[a], n)
    ensures Tied(d, live, n)
    decreases c, 0
  {
    hide *;
    SameRoot(e, d);
    forall a | 0 <= a < |Parts(d)| ensures Tied(Parts(d)[a], live, n) {
      PartResorted(e, d, a);
      UniquePart(e, a);
      ResortedTied(Parts(e)[a], Parts(d)[a], live, n);
    }
    TiedBy(d, live, n);
  }

  lemma {:induction false} ResortedSelf(c: Cell)
    ensures Resorted(c, c)
  {
    match c
    case Plain(_, _) =>
    case List(_, xs) => forall i | 0 <= i < |xs| ensures Resorted(xs[i], xs[i]) { ResortedSelf(xs[i]); }
    case Record(_, ms, _) =>
      forall i | 0 <= i < |ms| ensures ms[i].item < c && Resorted(ms[i].item, ms[i].item) { ResortedSelf(ms[i].item); }
  }

  lemma MembersSelf(fs: seq<Entry<Cell>>, owner: Cell)
    requires forall e | e in fs :: e.item < owner
    ensures MembersResorted(fs, fs, owner)
  {
    forall i | 0 <= i < |fs| ensures fs[i].item < owner && Resorted(fs[i].item, fs[i].item) {
      assert fs[i] in fs;
      ResortedSelf(fs[i].item);
    }
  }

  lemma MembersCons(f: Entry<Cell>, x: Cell, fs: seq<Entry<Cell>>, ns: seq<Entry<Cell>>, owner: Cell)
    requires f.item < owner && Resorted(f.item, x) && MembersResorted(fs, ns, owner)
    ensures MembersResorted([f] + fs, [f.(item := x)] + ns, owner)
  {
    hide Resorted;
  }

  lemma RecordResorted(id: nat, ms: seq<Entry<Cell>>, link: Option<nat>, ns: seq<Entry<Cell>>)
    requires MembersResorted(Sort(ms), ns, Record(id, ms, link))
    ensures Resorted(Record(id, ms, link), Record(id, ns, SortedLink(ms, link)))
  {
    hide MembersResorted, SortedLink, Sort;
  }

  ghost predicate ItemsResorted(xs: seq<Cell>, ys: seq<Cell>) {
    |ys| == |xs| && forall i :: 0 <= i < |xs| ==> Resorted(xs[i], ys[i])
  }

  lemma ItemsSelf(xs: seq<Cell>)
    ensures ItemsResorted(xs, xs)
  {
    forall i | 0 <= i < |xs| ensures Resorted(xs[i], xs[i]) { ResortedSelf(xs[i]); }
  }

  lemma ItemsCons(x: Cell, y: Cell, xs: seq<Cell>, ys: seq<Cell>)
    requires Resorted(x, y) && ItemsResorted(xs, ys)
    ensures ItemsResorted([x] + xs, [y] + ys)
  {
    hide Resorted;
  }

  lemma ListResorted(id: nat, xs: seq<Cell>, ys: seq<Cell>)
    requires ItemsResorted(xs, ys)
    ensures Resorted(List(id, xs), List(id, ys))
  {
  }

  lemma {:induction false} VisitedResorted(c: Cell, b: Json)
    ensures Resorted(c, VisitedCell(c, b))
    decreases c, 1, 0
  {
    if SameKind(Value(c), b) && !c.Plain? {
      match c {
        case List(id, xs) =>
          VisitedItemsResorted(xs, b.items);
          ListResorted(id, xs, VisitedCells(xs, b.items));
          hide Resorted, ItemsResorted, VisitedCells;
        case Record(id, ms, link) =>
          hide Resorted, MembersResorted, VisitedParts, VisitedCells, VisitedCell, Sort, SortedLink;
          VisitedCellIs(id, ms, link, b);
          SortKeepsMembers(ms);
          VisitedMembersResorted(Sort(ms), Sort(b.members), c);
          RecordResorted(id, ms, link, VisitedParts(Sort(ms), Sort(b.members), c));
      }
    } else {
      ResortedSelf(c);
      hide Resorted;
    }
  }

  lemma {:induction false} VisitedItemsResorted(xs: seq<Cell>, ys: seq<Json>)
    ensures ItemsResorted(xs, VisitedCells(xs, ys))
    decreases xs, 0, 0
  {
    ItemsSelf(xs);
    if xs != [] && ys != [] {
      hide Resorted, ItemsResorted, VisitedCell, Comparison, Marks, Erase;
      VisitedResorted(xs[0], ys[0]);
      VisitedItemsResorted(xs[1..], ys[1..]);
      ItemsSelf(xs[1..]);
      assert [xs[0]] + xs[1..] == xs;
      ItemsCons(xs[0], VisitedCell(xs[0], ys[0]), xs[1..], xs[1..]);
      ItemsCons(xs[0], VisitedCell(xs[0], ys[0]), xs[1..], VisitedCells(xs[1..], ys[1..]));
    }
  }

  lemma VisitedPartsIs(fs: seq<Entry<Cell>>, ts: seq<Entry<Json>>, owner: Cell)
    requires forall e | e in fs :: e.item < owner
    ensures fs != [] ==> fs[0].item < owner && forall e | e in fs[1..] :: e.item < owner
    ensures VisitedParts(fs, ts, owner) ==
      if fs == [] || ts == [] || CaseOrder(fs[0].name, ts[0].name) != 0 then fs
      else [fs[0].(item := VisitedCell(fs[0].item, ts[0].item))]
           + (if Comparison(Value(fs[0].item), ts[0].item).code != 0 then fs[1..] else VisitedParts(fs[1..], ts[1..], owner))
  {
    hide VisitedCell, Comparison, CaseOrder, Marks, Erase;
  }

  lemma {:induction false} VisitedMembersResorted(fs: seq<Entry<Cell>>, ts: seq<Entry<Json>>, owner: Cell)
    requires forall e | e in fs :: e.item < owner
    ensures MembersResorted(fs, VisitedParts(fs, ts, owner), owner)
    decreases owner, 0, |fs|
  {
    hide *;
    MembersSelf(fs, owner);
    VisitedPartsIs(fs, ts, owner);
    if fs != [] && ts != [] && CaseOrder(fs[0].name, ts[0].name) == 0 {
      VisitedResorted(fs[0].item, ts[0].item);
      VisitedMembersResorted(fs[1..], ts[1..], owner);
      MembersSelf(fs[1..], owner);
      assert [fs[0]] + fs[1..] == fs;
      MembersCons(fs[0], VisitedCell(fs[0].item, ts[0].item), fs[1..], fs[1..], owner);
      MembersCons(fs[0], VisitedCell(fs[0].item, ts[0].item), fs[1..], VisitedParts(fs[1..], ts[1..], owner), owner);
    }
  }

  // ----- what generating leaves of the first tree

  /** What `cJSONUtils_CompareToPatch` leaves of its first tree. */
  ghost function LeftCell(c: Cell, b: Json): (r: Cell)
    ensures r.id == c.id
    decreases c, 1, 0
  {
    if !SameKind(Value(c), b) then c
    else match c
      case Plain(_, _) => c
      case List(id, xs) => List(id, LeftCells(xs, b.items))
      case Record(id, ms, link) =>
        SortKeepsMembers(ms);
        Record(id, LeftParts(Sort(ms), Sort(b.members), c), SortedLink(ms, link))
  }

  ghost function LeftCells(xs: seq<Cell>, ys: seq<Json>): seq<Cell>
    decreases xs, 0, 0
  {
    if xs == [] || ys == [] then xs else [LeftCell(xs[0], ys[0])] + LeftCells(xs[1..], ys[1..])
  }

  ghost function LeftParts(fs: seq<Entry<Cell>>, ts: seq<Entry<Json>>, owner: Cell): seq<Entry<Cell>>
    requires forall e | e in fs :: e.item < owner
    decreases owner, 0, |fs| + |ts|
  {
    if fs == [] || ts == [] then fs
    else
      var diff := CaseOrder(fs[0].name, ts[0].name);
      if diff == 0 then [fs[0].(item := LeftCell(fs[0].item, ts[0].item))] + LeftParts(fs[1..], ts[1..], owner)
      else if diff < 0 then [fs[0]] + LeftParts(fs[1..], ts, owner)
      else LeftParts(fs, ts[1..], owner)
  }

  lemma LeftCellIs(id: nat, ms: seq<Entry<Cell>>, link: Option<nat>, b: Json)
    requires b.Object?
    ensures (forall e | e in Sort(ms) :: e.item < Record(id, ms, link))
    ensures LeftCell(Record(id, ms, link), b)
         == Record(id, LeftParts(Sort(ms), Sort(b.members), Record(id, ms, link)), SortedLink(ms, link))
  {
    SortKeepsMembers(ms);
    hide Sort, SortedLink, LeftParts, LeftCells, MarkMembers, MarkItems, EraseMembers, EraseItems;
  }

  /** One round of the walk over the members. */
  lemma LeftPartsStep(fs: seq<Entry<Cell>>, ts: seq<Entry<Json>>, owner: Cell)
    requires (forall e | e in fs :: e.item < owner) && fs != [] && ts != []
    ensures fs[0].item < owner && forall e | e in fs[1..] :: e.item < owner
    ensures var diff := CaseOrder(fs[0].name, ts[0].name);
      LeftParts(fs, ts, owner) ==
      if diff == 0 then [fs[0].(item := LeftCell(fs[0].item, ts[0].item))] + LeftParts(fs[1..], ts[1..], owner)
      else if diff < 0 then [fs[0]] + LeftParts(fs[1..], ts, owner)
      else LeftParts(fs, ts[1..], owner)
  {
    assert fs[0] in fs;
    hide LeftCell, CaseOrder;
  }

  lemma NothingLeft(fs: seq<Entry<Cell>>, ts: seq<Entry<Json>>, owner: Cell, marked: Linked)
    requires (forall e | e in fs :: e.item < owner) && (forall e | e in MarkMembers(fs) :: e.item < marked)
    requires fs == [] || ts == []
    ensures LeftParts(fs, ts, owner) == fs && LeftMembers(MarkMembers(fs), ts, marked) == MarkMembers(fs)
  {
    hide Marks;
  }

  lemma MarkedTail(fs: seq<Entry<Cell>>, marked: Linked)
    requires fs != [] && forall e | e in MarkMembers(fs) :: e.item < marked
    ensures MarkMembers(fs) != [] && MarkMembers(fs)[0] == Entry(fs[0].name, Marks(fs[0].item))
    ensures MarkMembers(fs)[1..] == MarkMembers(fs[1..]) && forall e | e in MarkMembers(fs[1..]) :: e.item < marked
  {
    assert MarkMembers(fs)[1..] == MarkMembers(fs[1..]);
    hide Marks;
  }

  lemma {:induction false} LeftMarks(c: Cell, b: Json)
    ensures Marks(LeftCell(c, b)) == Left(Marks(c), b)
    decreases c, 1, 0
  {
    if SameKind(Value(c), b) {
      match c {
        case Plain(_, _) =>
        case List(_, xs) =>
          LeftCellsMark(xs, b.items);
        case Record(id, ms, link) =>
          LeftRecord(id, ms, link, b);
      }
      hide LeftCells, LeftItems, LeftParts, LeftMembers, Sort, FirstIsLeast, SortedLink;
    }
  }

  lemma {:induction false} LeftRecord(id: nat, ms: seq<Entry<Cell>>, link: Option<nat>, b: Json)
    requires b.Object?
    ensures Marks(LeftCell(Record(id, ms, link), b)) == Left(Members(MarkMembers(ms), link.Some?), b)
    decreases Record(id, ms, link), 0, |ms| + |b.members| + 1
  {
    hide *;
    var c, t := Record(id, ms, link), Members(MarkMembers(ms), link.Some?);
    LeftCellIs(id, ms, link, b);
    LeftIs(t, b);
    MarkSorts(ms);
    SortedIs(MarkMembers(ms), link.Some?);
    SortKeepsMembers(ms);
    SortKeepsMembers(b.members);
    LeftPartsMark(Sort(ms), Sort(b.members), c, t);
    RecordMarks(id, LeftParts(Sort(ms), Sort(b.members), c), SortedLink(ms, link));
  }

  lemma {:induction false} LeftCellsMark(xs: seq<Cell>, ys: seq<Json>)
    ensures MarkItems(LeftCells(xs, ys)) == LeftItems(MarkItems(xs), ys)
    decreases xs, 0, 0
  {
    if xs != [] && ys != [] {
      MarkItemsStep(xs);
      hide Left, LeftCell, Marks, MarkItems, Erase;
      LeftMarks(xs[0], ys[0]);
      LeftCellsMark(xs[1..], ys[1..]);
      MarkItemsCons(LeftCell(xs[0], ys[0]), LeftCells(xs[1..], ys[1..]));
    }
  }

  lemma {:induction false} LeftPartsMark(fs: seq<Entry<Cell>>, ts: seq<Entry<Json>>, owner: Cell, marked: Linked)
    requires (forall e | e in fs :: e.item < owner) && (forall e | e in MarkMembers(fs) :: e.item < marked)
    ensures MarkMembers(LeftParts(fs, ts, owner)) == LeftMembers(MarkMembers(fs), ts, marked)
    decreases owner, 0, |fs| + |ts|
  {
    hide *;
    if fs != [] && ts != [] {
      LeftPartsStep(fs, ts, owner);
      MarkedTail(fs, marked);
      LeftUnfolds(MarkMembers(fs), ts, marked);
      var diff := CaseOrder(fs[0].name, ts[0].name);
      if diff > 0 {
        LeftPartsMark(fs, ts[1..], owner, marked);
      } else {
        if diff == 0 { LeftMarks(fs[0].item, ts[0].item); }
        var x := if diff == 0 then LeftCell(fs[0].item, ts[0].item) else fs[0].item;
        var rest := if diff == 0 then ts[1..] else ts;
        LeftPartsMark(fs[1..], rest, owner, marked);
        MarkCons(fs[0].(item := x), LeftParts(fs[1..], rest, owner));
      }
    } else {
      NothingLeft(fs, ts, owner, marked);
    }
  }

  lemma {:induction false} LeftResorted(c: Cell, b: Json)
    ensures Resorted(c, LeftCell(c, b))
    decreases c, 1, 0
  {
    if SameKind(Value(c), b) && !c.Plain? {
      match c {
        case List(id, xs) =>
          LeftItemsResorted(xs, b.items);
          ListResorted(id, xs, LeftCells(xs, b.items));
          hide Resorted, ItemsResorted, LeftCells;
        case Record(id, ms, link) =>
          hide Resorted, MembersResorted, LeftParts, LeftCells, LeftCell, Sort, SortedLink;
          LeftCellIs(id, ms, link, b);
          SortKeepsMembers(ms);
          SortKeepsMembers(b.members);
          LeftMembersResorted(Sort(ms), Sort(b.members), c);
          RecordResorted(id, ms, link, LeftParts(Sort(ms), Sort(b.members), c));
      }
    } else {
      ResortedSelf(c);
      hide Resorted;
    }
  }

  lemma {:induction false} LeftItemsResorted(xs: seq<Cell>, ys: seq<Json>)
    ensures ItemsResorted(xs, LeftCells(xs, ys))
    decreases xs, 0, 0
  {
    ItemsSelf(xs);
    if xs != [] && ys != [] {
      hide Resorted, ItemsResorted, LeftCell, Marks, Erase;
      LeftResorted(xs[0], ys[0]);
      LeftItemsResorted(xs[1..], ys[1..]);
      assert [xs[0]] + xs[1..] == xs;
      ItemsCons(xs[0], LeftCell(xs[0], ys[0]), xs[1..], LeftCells(xs[1..], ys[1..]));
    }
  }

  lemma {:induction false} LeftMembersResorted(fs: seq<Entry<Cell>>, ts: seq<Entry<Json>>, owner: Cell)
    requires forall e | e in fs :: e.item < owner
    ensures MembersResorted(fs, LeftParts(fs, ts, owner), owner)
    decreases owner, 0, |fs| + |ts|
  {
    MembersSelf(fs, owner);
    if fs != [] && ts != [] {
      hide *;
      LeftPartsStep(fs, ts, owner);
      assert [fs[0]] + fs[1..] == fs;
      var diff := CaseOrder(fs[0].name, ts[0].name);
      if diff > 0 {
        LeftMembersResorted(fs, ts[1..], owner);
      } else {
        ResortedSelf(fs[0].item);
        if diff == 0 { LeftResorted(fs[0].item, ts[0].item); }
        var x := if diff == 0 then LeftCell(fs[0].item, ts[0].item) else fs[0].item;
        var rest := if diff == 0 then ts[1..] else ts;
        LeftMembersResorted(fs[1..], rest, owner);
        MembersCons(fs[0], x, fs[1..], LeftParts(fs[1..], rest, owner), owner);
      }
    }
  }
}
