/** Trees made of terminated strings stay so under every edit of the patch engine. */
module CTrees {
  import opened Json
  import opened Text
  import opened Sorting
  import opened Compare
  import opened Pointer
  import opened Patch

  lemma {:induction false} DecodeNoNul(s: string)
    requires NoNul(s) && Decode(s).Some?
    ensures NoNul(Decode(s).value)
  {
    if s != [] { DecodeNoNul(s[if s[0] == '~' then 2 else 1..]); }
  }

  lemma ChildPrintable(v: Json, i: nat)
    requires Printable(v) && i < |Children(v)|
    ensures Printable(Children(v)[i])
  {
    match v
    case Array(xs) => assert xs[i] in xs;
    case Object(ms) => assert ms[i] in ms;
    case _ =>
  }

  lemma {:induction false} AtPrintable(v: Json, loc: Loc)
    requires Printable(v) && ValidLoc(v, loc)
    ensures Printable(At(v, loc))
    decreases |loc|
  {
    if loc != [] {
      ChildPrintable(v, loc[0]);
      AtPrintable(Children(v)[loc[0]], loc[1..]);
    }
  }

  lemma {:induction false} SetAtPrintable(v: Json, loc: Loc, w: Json)
    requires Printable(v) && ValidLoc(v, loc) && Printable(w)
    ensures Printable(SetAt(v, loc, w))
    decreases |loc|
  {
    if loc != [] {
      ChildPrintable(v, loc[0]);
      SetAtPrintable(Children(v)[loc[0]], loc[1..], w);
      var i, c := loc[0], SetAt(Children(v)[loc[0]], loc[1..], w);
      match v {
        case Array(xs) =>
          forall x | x in xs[i := c] ensures Printable(x) {}
        case Object(ms) =>
          assert ms[i] in ms;
          forall m | m in ms[i := ms[i].(item := c)] ensures NoNul(m.name) && Printable(m.item) {}
        case _ =>
      }
    }
  }

  lemma DetachChildPrintable(node: Json, name: string)
    requires Printable(node)
    ensures var (rest, item) := DetachChild(node, name); Printable(rest) && (item.Some? ==> Printable(item.value))
  {
  }

  lemma AddChildPrintable(node: Json, name: string, value: Json)
    requires Printable(node) && NoNul(name) && Printable(value)
    ensures Printable(AddChild(node, name, value))
  {
  }

  lemma {:induction false} ComparisonPrintable(a: Json, b: Json)
    requires Printable(a) && Printable(b)
    ensures Printable(Comparison(a, b).a) && Printable(Comparison(a, b).b)
    decreases a, 1, 0
  {
    if SameKind(a, b) {
      match a {
        case Array(xs) => ItemsPrintable(xs, b.items);
        case Object(ms) =>
          SortKeepsMembers(ms);
          SortKeepsMembers(b.members);
          MembersPrintable(Sort(ms), Sort(b.members), a);
        case _ =>
      }
    }
  }

  lemma {:induction false} ItemsPrintable(xs: seq<Json>, ys: seq<Json>)
    requires Printable(Array(xs)) && Printable(Array(ys))
    ensures var r := CompareItems(xs, ys); Printable(Array(r.a)) && Printable(Array(r.b))
    decreases xs, 0, 0
  {
    if xs != [] && ys != [] {
      PrintableItemsTail(xs);
      PrintableItemsTail(ys);
      hide Printable, Comparison;
      ComparisonPrintable(xs[0], ys[0]);
      ItemsPrintable(xs[1..], ys[1..]);
      var r := Comparison(xs[0], ys[0]);
      var rest := CompareItems(xs[1..], ys[1..]);
      PrintableItemsCons(r.a, if r.code != 0 then xs[1..] else rest.a);
      PrintableItemsCons(r.b, if r.code != 0 then ys[1..] else rest.b);
    }
  }

  lemma PrintableItemsTail(xs: seq<Json>)
    requires xs != [] && Printable(Array(xs))
    ensures Printable(xs[0]) && Printable(Array(xs[1..]))
  {
    assert xs[0] in xs;
  }

  lemma PrintableItemsCons(x: Json, xs: seq<Json>)
    requires Printable(x) && Printable(Array(xs))
    ensures Printable(Array([x] + xs))
  {
  }

  lemma {:induction false} MembersPrintable(fs: seq<Entry<Json>>, ts: seq<Entry<Json>>, owner: Json)
    requires forall e | e in fs :: e.item < owner
    requires Printable(Object(fs)) && Printable(Object(ts))
    ensures var r := CompareMembers(fs, ts, owner); Printable(Object(r.a)) && Printable(Object(r.b))
    decreases owner, 0, |fs|
  {
    if fs != [] && ts != [] && CaseOrder(fs[0].name, ts[0].name) == 0 {
      PrintableTail(fs);
      PrintableTail(ts);
      hide Printable, NoNul, CaseOrder, Comparison;
      ComparisonPrintable(fs[0].item, ts[0].item);
      MembersPrintable(fs[1..], ts[1..], owner);
      var r := Comparison(fs[0].item, ts[0].item);
      var rest := CompareMembers(fs[1..], ts[1..], owner);
      PrintableCons(fs[0].name, r.a, if r.code != 0 then fs[1..] else rest.a);
      PrintableCons(ts[0].name, r.b, if r.code != 0 then ts[1..] else rest.b);
    }
  }

  lemma PrintableTail(es: seq<Entry<Json>>)
    requires es != [] && Printable(Object(es))
    ensures NoNul(es[0].name) && Printable(es[0].item) && Printable(Object(es[1..]))
  {
    assert es[0] in es;
    hide NoNul;
  }

  lemma PrintableCons(name: string, v: Json, es: seq<Entry<Json>>)
    requires NoNul(name) && Printable(v) && Printable(Object(es))
    ensures Printable(Object([Entry(name, v)] + es))
  {
    hide NoNul;
  }
}
