/** JSON Pointer: escaping of names, printing and reading of indices, and resolution. */
module Pointer {
  import opened Json
  import opened Numerals

  /** A node of a tree, named by the child index taken at every level: its identity. */
  type Loc = seq<nat>

  // ----- escaping of names

  function Encode(s: string): string {
    if s == [] then ""
    else (if s[0] == '/' then "~1" else if s[0] == '~' then "~0" else [s[0]]) + Encode(s[1..])
  }

  /** In-place decoding; `None` when a final '~' makes the cursor step over the terminator. */
  function Decode(s: string): Option<string> {
    if s == [] then Some("")
    else if s[0] != '~' then
      (match Decode(s[1..]) case Some(r) => Some([s[0]] + r) case None => None)
    else if |s| == 1 then None
    else (match Decode(s[2..]) case Some(r) => Some([if s[1] == '0' then '~' else '/'] + r) case None => None)
  }

  lemma {:induction false} DecodeEncode(s: string)
    ensures Decode(Encode(s)) == Some(s)
    ensures '/' !in Encode(s)
  {
    if s != [] {
      DecodeEncode(s[1..]);
      var e := Encode(s);
      if s[0] == '/' || s[0] == '~' {
        assert e[2..] == Encode(s[1..]);
      } else {
        assert e[0] == s[0] && e[1..] == Encode(s[1..]);
      }
      assert s == [s[0]] + s[1..];
    }
  }

  /** `cJSONUtils_Pstrcasecmp`: does a name match the reference token the pointer starts with? */
  predicate TokenMatches(name: string, ptr: string)
    decreases |name|
  {
    if name == [] || ptr == [] || ptr[0] == '/' then (ptr == [] || ptr[0] == '/') == (name == [])
    else if ptr[0] == '~' then
      && |ptr| > 1
      && ((ptr[1] == '0' && name[0] == '~') || (ptr[1] == '1' && name[0] == '/'))
      && TokenMatches(name[1..], ptr[2..])
    else Lower(name[0]) == Lower(ptr[0]) && TokenMatches(name[1..], ptr[1..])
  }

  predicate EndsToken(rest: string) {
    rest == [] || rest[0] == '/'
  }

  /** The coded text of a name starts with the text for its first character. */
  lemma EncodeHead(s: string, rest: string)
    requires s != []
    ensures var ptr, more := Encode(s) + rest, Encode(s[1..]) + rest;
      if s[0] == '/' || s[0] == '~' then
        |ptr| > 1 && ptr[0] == '~' && ptr[1] == (if s[0] == '/' then '1' else '0') && ptr[2..] == more
      else ptr != [] && ptr[0] == s[0] && ptr[1..] == more
  {
    assert Encode(s) + rest == (if s[0] == '/' then "~1" else if s[0] == '~' then "~0" else [s[0]]) + (Encode(s[1..]) + rest);
    hide Encode;
  }

  lemma LettersMatch(a: char, b: char)
    ensures Lower('/') == '/' && Lower('~') == '~'
    ensures b == '/' || b == '~' ==> (Lower(a) == Lower(b) <==> a == b)
  {
  }

  lemma {:induction false} TokenMatchesEncoded(name: string, other: string, rest: string)
    requires EndsToken(rest)
    ensures TokenMatches(name, Encode(other) + rest) <==> LowerName(name) == LowerName(other)
    decreases |name|
  {
    var ptr := Encode(other) + rest;
    if other == [] {
      assert ptr == rest;
      assert |LowerName(name)| == |name|;
    } else if name == [] {
      assert |LowerName(other)| == |other|;
    } else {
      TokenMatchesEncoded(name[1..], other[1..], rest);
      LowerNameHead(name);
      LowerNameHead(other);
      LettersMatch(name[0], other[0]);
      EncodeHead(other, rest);
      hide Encode, Lower, LowerName;
    }
  }

  // ----- indices in pointers

  predicate IsSpace(c: char) {
    c == ' ' || '\t' as int <= c as int <= '\r' as int
  }

  /** `atoi`: leading white space, one sign, then digits. */
  function Atoi(s: string): int {
    if s != [] && IsSpace(s[0]) then Atoi(s[1..])
    else if s != [] && s[0] == '-' then -(ReadDigits(s[1..], 0).0 as int)
    else if s != [] && s[0] == '+' then ReadDigits(s[1..], 0).0
    else ReadDigits(s, 0).0
  }

  /** On every text: white space, at most one sign, and the digits up to the first character that is none. Text
      that has no digits there is 0. */
  lemma {:induction false} AtoiText(w: string, sign: string, ds: string, rest: string)
    requires (forall c :: c in w ==> IsSpace(c)) && sign in {"", "+", "-"} && AllDigits(ds) && !StartsDigit(rest)
    requires sign == "" && ds == "" && rest != [] ==> !IsSpace(rest[0]) && rest[0] != '-' && rest[0] != '+'
    ensures Atoi(w + (sign + (ds + rest))) == if sign == "-" then -(Decimal(ds) as int) else Decimal(ds)
    decreases w
  {
    var s := sign + (ds + rest);
    if w == [] {
      assert w + s == s;
      ReadNumeral(ds, 0, rest);
      hide ReadDigits, Continued;
      if sign != "" { assert s[0] == sign[0] && s[1..] == ds + rest; }
      else if ds != "" { assert s[0] == ds[0] && ds[0] in ds && s == ds + rest; }
      else { assert s == rest; }
    } else {
      assert w[0] in w && (w + s)[0] == w[0] && (w + s)[1..] == w[1..] + s;
      AtoiText(w[1..], sign, ds, rest);
    }
  }

  lemma AtoiOfDigits(n: nat)
    ensures Atoi(Digits(n)) == n
  {
    DigitsDecimal(n);
    assert Digits(n) == "" + ("" + (Digits(n) + ""));
    AtoiText("", "", Digits(n), "");
  }

  // ----- resolution

  function DropToken(ptr: string): (r: string)
    ensures |r| <= |ptr|
    ensures EndsToken(r)
  {
    if EndsToken(ptr) then ptr else DropToken(ptr[1..])
  }

  function FindToken(ms: seq<Entry<Json>>, ptr: string): (r: nat)
    ensures r <= |ms|
  {
    if ms == [] || TokenMatches(ms[0].name, ptr) then 0 else 1 + FindToken(ms[1..], ptr)
  }

  function Under(i: nat, r: Option<Loc>): Option<Loc> {
    match r case None => None case Some(loc) => Some([i] + loc)
  }

  /** `cJSONUtils_GetPointer`: the node a pointer leads to from `v`. */
  function Resolve(v: Json, ptr: string): Option<Loc>
    decreases |ptr|
  {
    if ptr == [] || ptr[0] != '/' then Some([])
    else match v
      case Array(xs) =>
        var (which, rest) := ReadDigits(ptr[1..], 0);
        if !EndsToken(rest) || which >= |xs| then None
        else Under(which, Resolve(xs[which], rest))
      case Object(ms) =>
        var i := FindToken(ms, ptr[1..]);
        if i >= |ms| then None
        else Under(i, Resolve(ms[i].item, DropToken(ptr[1..])))
      case _ => None
  }

  // ----- nodes of a tree

  function Children(v: Json): (r: seq<Json>)
    ensures v.Array? ==> r == v.items
    ensures v.Object? ==> |r| == |v.members| && forall i :: 0 <= i < |r| ==> r[i] == v.members[i].item
    ensures forall x :: x in r ==> x < v
  {
    match v
    case Array(xs) => xs
    case Object(ms) => seq(|ms|, i requires 0 <= i < |ms| => ms[i].item)
    case _ => []
  }

  ghost predicate ValidLoc(v: Json, loc: Loc)
    decreases |loc|
  {
    loc == [] || (loc[0] < |Children(v)| && ValidLoc(Children(v)[loc[0]], loc[1..]))
  }

  function At(v: Json, loc: Loc): Json
    requires ValidLoc(v, loc)
    decreases |loc|
  {
    if loc == [] then v else At(Children(v)[loc[0]], loc[1..])
  }

  function WithChild(v: Json, i: nat, w: Json): Json
    requires i < |Children(v)|
  {
    match v
    case Array(xs) => Array(xs[i := w])
    case Object(ms) => Object(ms[i := ms[i].(item := w)])
    case _ => v
  }

  /** The tree after the node at `loc` was changed into `w` in place. */
  function SetAt(v: Json, loc: Loc, w: Json): Json
    requires ValidLoc(v, loc)
    decreases |loc|
  {
    if loc == [] then w
    else WithChild(v, loc[0], SetAt(Children(v)[loc[0]], loc[1..], w))
  }

  lemma {:induction false} ResolveIsValid(v: Json, ptr: string)
    ensures Resolve(v, ptr).Some? ==> ValidLoc(v, Resolve(v, ptr).value)
    decreases |ptr|
  {
    if Resolve(v, ptr).Some? && ptr != [] && ptr[0] == '/' {
      match v {
        case Array(xs) =>
          var (which, rest) := ReadDigits(ptr[1..], 0);
          ResolveIsValid(xs[which], rest);
        case Object(ms) =>
          ResolveIsValid(ms[FindToken(ms, ptr[1..])].item, DropToken(ptr[1..]));
        case _ =>
      }
    }
  }

  // ----- paths made of reference tokens

  /** A step of a path as it is written: a member name, an array index, or the end of an array. */
  datatype Token = Name(name: string) | Index(i: nat) | End

  function TokenText(t: Token): string {
    match t
    case Name(n) => Encode(n)
    case Index(i) => Digits(i)
    case End => "-"
  }

  function PathText(ts: seq<Token>): string {
    if ts == [] then "" else "/" + TokenText(ts[0]) + PathText(ts[1..])
  }

  lemma {:induction false} PathTextAppend(ts: seq<Token>, t: Token)
    ensures PathText(ts + [t]) == PathText(ts) + "/" + TokenText(t)
  {
    hide TokenText;
    if ts == [] {
      assert ts + [t] == [t];
      assert PathText([t]) == PathText(ts) + "/" + TokenText(t);
    } else {
      PathTextAppend(ts[1..], t);
      assert (ts + [t])[1..] == ts[1..] + [t];
      assert PathText(ts + [t]) == "/" + TokenText(ts[0]) + (PathText(ts[1..]) + "/" + TokenText(t));
      hide PathText;
    }
  }

  lemma {:induction false} SlashNotInToken(t: Token)
    ensures '/' !in TokenText(t)
  {
    match t
    case Name(n) => DecodeEncode(n);
    case Index(i) => DigitsAreDigits(i);
    case End =>
  }

  lemma PathEndsToken(ts: seq<Token>)
    ensures EndsToken(PathText(ts))
  {
  }

  lemma {:induction false} DropTokenOf(t: string, rest: string)
    requires '/' !in t && EndsToken(rest)
    ensures DropToken(t + rest) == rest
  {
    if t == [] {
      assert t + rest == rest;
    } else {
      assert (t + rest)[0] == t[0] && (t + rest)[1..] == t[1..] + rest;
      DropTokenOf(t[1..], rest);
    }
  }

  lemma {:induction false} FindTokenOf(ms: seq<Entry<Json>>, name: string, rest: string)
    requires EndsToken(rest)
    ensures FindToken(ms, Encode(name) + rest) == FindName(ms, name)
  {
    if ms != [] {
      TokenMatchesEncoded(ms[0].name, name, rest);
      CaseOrderZero(ms[0].name, name);
      FindTokenOf(ms[1..], name, rest);
    }
  }

  /** One step of resolution along a path of tokens. */
  lemma ResolveStep(v: Json, ts: seq<Token>)
    requires ts != []
    ensures v.Array? && ts[0].Index? ==>
              Resolve(v, PathText(ts)) ==
              if ts[0].i < |v.items| then Under(ts[0].i, Resolve(v.items[ts[0].i], PathText(ts[1..]))) else None
    ensures v.Object? && ts[0].Name? ==>
              var k := FindName(v.members, ts[0].name);
              Resolve(v, PathText(ts)) ==
              if k < |v.members| then Under(k, Resolve(v.members[k].item, PathText(ts[1..]))) else None
  {
    var rest := PathText(ts[1..]);
    var tail := TokenText(ts[0]) + rest;
    PathEndsToken(ts[1..]);
    assert PathText(ts) == "/" + tail;
    assert PathText(ts)[1..] == tail;
    match ts[0] {
      case Index(i) =>
        ReadDigitsOfDigits(i, 0, rest);
        assert ReadDigits(rest, i) == (i, rest);
      case Name(n) =>
        if v.Object? { FindTokenOf(v.members, n, rest); }
        SlashNotInToken(ts[0]);
        DropTokenOf(TokenText(ts[0]), rest);
      case End =>
    }
  }

  // ----- building a pointer to a node and resolving it again

  /** The tokens written for the node at `loc`. */
  function TokensTo(v: Json, loc: Loc): (r: seq<Token>)
    requires ValidLoc(v, loc)
    ensures |r| == |loc|
    decreases |loc|
  {
    if loc == [] then []
    else
      [if v.Object? then Name(v.members[loc[0]].name) else Index(loc[0])]
      + TokensTo(Children(v)[loc[0]], loc[1..])
  }

  /** `cJSONUtils_FindPointerFromObjectTo`. */
  function PointerTo(v: Json, loc: Loc): string
    requires ValidLoc(v, loc)
  {
    PathText(TokensTo(v, loc))
  }

  /** No step to `loc` passes an earlier sibling whose name matches ignoring case. */
  ghost predicate NotHidden(v: Json, loc: Loc)
    requires ValidLoc(v, loc)
    decreases |loc|
  {
    loc == [] ||
    (&& (v.Object? ==> FindName(v.members, v.members[loc[0]].name) == loc[0])
     && NotHidden(Children(v)[loc[0]], loc[1..]))
  }

  lemma UnderIs(k: nat, r: Option<Loc>, loc: Loc)
    requires loc != []
    ensures Under(k, r) == Some(loc) <==> k == loc[0] && r == Some(loc[1..])
  {
    assert [loc[0]] + loc[1..] == loc;
    if Under(k, r) == Some(loc) { assert ([k] + r.value)[0] == k && ([k] + r.value)[1..] == r.value; }
  }

  /** What the definitions say of the first step. */
  lemma OnTheWay(v: Json, loc: Loc)
    requires loc != [] && ValidLoc(v, loc)
    ensures loc[0] < |Children(v)| && ValidLoc(Children(v)[loc[0]], loc[1..])
    ensures var ts := TokensTo(v, loc);
      && ts != [] && PointerTo(v, loc) == PathText(ts)
      && PathText(ts[1..]) == PointerTo(Children(v)[loc[0]], loc[1..])
      && (v.Array? ==> ts[0] == Index(loc[0]) && Children(v) == v.items)
      && (v.Object? ==> loc[0] < |v.members| && ts[0] == Name(v.members[loc[0]].name)
                        && v.members[loc[0]].item == Children(v)[loc[0]])
      && (v.Array? || v.Object?)
    ensures NotHidden(v, loc) <==> (v.Object? ==> FindName(v.members, v.members[loc[0]].name) == loc[0])
                                   && NotHidden(Children(v)[loc[0]], loc[1..])
  {
    assert TokensTo(v, loc)[1..] == TokensTo(Children(v)[loc[0]], loc[1..]);
    hide FindName, PathText;
  }

  /** The pointer built for a node leads back to that node exactly when no name on the
      way is hidden by an earlier one. */
  lemma {:induction false} PointerRoundTrip(v: Json, loc: Loc)
    requires ValidLoc(v, loc)
    ensures Resolve(v, PointerTo(v, loc)) == Some(loc) <==> NotHidden(v, loc)
    decreases |loc|
  {
    if loc != [] {
      hide *;
      OnTheWay(v, loc);
      var ts := TokensTo(v, loc);
      var child := Children(v)[loc[0]];
      ResolveStep(v, ts);
      PointerRoundTrip(child, loc[1..]);
      UnderIs(loc[0], Resolve(child, PathText(ts[1..])), loc);
      if v.Object? {
        var k := FindName(v.members, ts[0].name);
        if k < |v.members| { UnderIs(k, Resolve(v.members[k].item, PathText(ts[1..])), loc); }
      }
    }
  }

  lemma {:induction false} WellNamedNotHidden(v: Json, loc: Loc)
    requires WellNamed(v) && ValidLoc(v, loc)
    ensures NotHidden(v, loc)
    decreases |loc|
  {
    if loc != [] {
      var child := Children(v)[loc[0]];
      match v {
        case Array(xs) => assert child in xs;
        case Object(ms) => assert ms[loc[0]] in ms;
        case _ =>
      }
      WellNamedNotHidden(child, loc[1..]);
    }
  }

  /** RFC 6901, sections 3 and 4: with names distinct ignoring case every node is found. */
  lemma PointerFindsEveryNode(v: Json, loc: Loc)
    requires WellNamed(v) && ValidLoc(v, loc)
    ensures Resolve(v, PointerTo(v, loc)) == Some(loc)
  {
    WellNamedNotHidden(v, loc);
    PointerRoundTrip(v, loc);
  }
}
