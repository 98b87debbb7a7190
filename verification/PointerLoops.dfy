/** The character loops of `cJSON_Utils.c`: comparing, escaping, unescaping and following pointers. */
module PointerLoops {
  import opened Json
  import opened Numerals
  import opened Parse
  import opened Text
  import opened Parser
  import opened Strings
  import opened Pointer
  import opened CTrees

  // ----- comparing

  /** `cJSONUtils_strcasecmp`. */
  method Strcasecmp(s1: string, s2: string) returns (r: int)
    requires NoNul(s1) && NoNul(s2)
    ensures r == 0 <==> CaseOrder(s1, s2) == 0
    ensures r < 0 <==> CaseOrder(s1, s2) < 0
  {
    var i := 0;
    assert s1[0..] == s1 && s2[0..] == s2;
    Parser.At(s1, i);
    Parser.At(s2, i);
    while Lower(CharAt(s1, i)) == Lower(CharAt(s2, i))
      invariant i <= |s1| && i <= |s2| && CaseOrder(s1[i..], s2[i..]) == CaseOrder(s1, s2)
      invariant CharAt(s1, i) == '\0' <==> i == |s1|
      invariant CharAt(s2, i) == '\0' <==> i == |s2|
      decreases |s1| - i
    {
      Parser.At(s1, i);
      Parser.At(s2, i);
      if CharAt(s1, i) == '\0' { return 0; }
      i := i + 1;
      Parser.At(s1, i);
      Parser.At(s2, i);
    }
    Parser.At(s1, i);
    Parser.At(s2, i);
    r := Lower(CharAt(s1, i)) as int - Lower(CharAt(s2, i)) as int;
  }

  /** `cJSONUtils_Pstrcasecmp` on the text `e[k..]`. */
  method MissesToken(a: string, e: string, k: nat) returns (miss: bool)
    requires NoNul(a) && NoNul(e) && k <= |e|
    ensures miss == !TokenMatches(a, e[k..])
  {
    var i: nat, j: nat := 0, k;
    assert a[0..] == a;
    Parser.At(a, i);
    Parser.At(e, j);
    while CharAt(a, i) != '\0' && CharAt(e, j) != '\0' && CharAt(e, j) != '/'
      invariant i <= |a| && j <= |e| && TokenMatches(a[i..], e[j..]) == TokenMatches(a, e[k..])
      invariant CharAt(a, i) == '\0' <==> i == |a|
      invariant CharAt(e, j) == '\0' <==> j == |e|
      decreases |a| - i
    {
      Parser.At(a, i);
      Parser.At(e, j);
      if CharAt(e, j) == '~' {
        Parser.At(e, j + 1);
        if !(CharAt(e, j + 1) == '0' && CharAt(a, i) == '~') && !(CharAt(e, j + 1) == '1' && CharAt(a, i) == '/') {
          return true;
        }
        assert e[j..][2..] == e[j + 2..];
        j := j + 1;
      } else if Lower(CharAt(a, i)) != Lower(CharAt(e, j)) {
        return true;
      }
      i, j := i + 1, j + 1;
      Parser.At(a, i);
      Parser.At(e, j);
    }
    Parser.At(a, i);
    Parser.At(e, j);
    miss := (CharAt(e, j) != '\0' && CharAt(e, j) != '/') != (CharAt(a, i) != '\0');
  }

  // ----- escaping

  /** `cJSONUtils_PointerEncodedstrlen`. */
  method EncodedLength(s: string) returns (l: nat)
    ensures l == |Encode(s)|
  {
    l := 0;
    var i := 0;
    while i < |s|
      invariant i <= |s| && l + |Encode(s[i..])| == |Encode(s)|
    {
      assert s[i..][1..] == s[i + 1..];
      if s[i] == '~' || s[i] == '/' { l := l + 1; }
      i, l := i + 1, l + 1;
    }
  }

  /** `cJSONUtils_PointerEncodedstrcpy`. */
  method PutEncoded(d: array<char>, w0: nat, s: string)
    requires w0 + |Encode(s)| < d.Length
    modifies d
    ensures d[..w0] == old(d[..w0]) && Spells(d, w0, Encode(s))
  {
    ghost var before := d[..w0];
    var w: nat, i: nat := w0, 0;
    assert s[0..] == s;
    while i < |s|
      invariant i <= |s| && w + |Encode(s[i..])| == w0 + |Encode(s)| < d.Length
      invariant d[..w] + Encode(s[i..]) == before + Encode(s)
    {
      assert s[i..][1..] == s[i + 1..];
      var code := if s[i] == '/' then "~1" else if s[i] == '~' then "~0" else [s[i]];
      Assoc(d[..w], code, Encode(s[i + 1..]));
      w := PutText(d, w, code);
      i := i + 1;
    }
    assert d[..w] + "" == d[..w];
    d[w] := '\0';
    SpellsAfter(d, w0, before, Encode(s));
  }

  /** A path with one more token: the allocated size is exactly what is written. */
  method JoinPath(path: string, suffix: string) returns (newpath: array<char>)
    ensures fresh(newpath) && newpath.Length == |path| + |Encode(suffix)| + 2
    ensures Spells(newpath, 0, path + "/" + Encode(suffix)) && newpath[..newpath.Length - 1] == path + "/" + Encode(suffix)
  {
    hide *;
    var l := EncodedLength(suffix);
    newpath := new char[|path| + l + 2];
    var w := PutText(newpath, 0, path);
    w := PutText(newpath, w, "/");
    PutEncoded(newpath, w, suffix);
    Joined(newpath, w, path + "/", Encode(suffix));
  }

  lemma Joined(a: array<char>, w: nat, front: string, t: string)
    requires w + |t| + 1 == a.Length && a[..w] == front && Spells(a, w, t)
    ensures Spells(a, 0, front + t) && a[..a.Length - 1] == front + t
  {
    assert a[..w + |t|] == a[..w] + a[w..w + |t|];
    assert a[0..w + |t|] == a[..w + |t|];
  }

  /** The name is decoded up to the cursors; from the read cursor on it is as it was. */
  ghost predicate Decoding(a: array<char>, at: nat, w: nat, r: nat, t: string, before: string)
    reads a
  {
    && at <= w <= r <= at + |t| < a.Length && a[at + |t|] == '\0'
    && (forall k :: r <= k < at + |t| ==> a[k] == t[k - at])
    && Decode(t).Some? && Decode(t[r - at..]).Some?
    && a[..w] + Decode(t[r - at..]).value == before + Decode(t).value
  }

  lemma DecodeStep(t: string, i: nat)
    requires i < |t| && Decode(t[i..]).Some?
    ensures t[i] != '~' ==> Decode(t[i + 1..]).Some? && Decode(t[i..]).value == [t[i]] + Decode(t[i + 1..]).value
    ensures t[i] == '~' ==>
      && i + 1 < |t| && Decode(t[i + 2..]).Some?
      && Decode(t[i..]).value == [if t[i + 1] == '0' then '~' else '/'] + Decode(t[i + 2..]).value
  {
    var u := t[i..];
    assert u[1..] == t[i + 1..];
    if u[0] == '~' && |u| > 1 { assert u[1] == t[i + 1] && u[2..] == t[i + 2..]; }
  }

  /** Writes one character of the name, reading one or two. */
  method DecodeOne(a: array<char>, at: nat, w0: nat, r0: nat, ghost t: string, ghost before: string) returns (w: nat, r: nat)
    requires Decoding(a, at, w0, r0, t, before) && r0 < at + |t|
    modifies a
    ensures Decoding(a, at, w, r, t, before) && r0 < r
  {
    DecodeStep(t, r0 - at);
    hide Decode;
    ghost var done := a[..w0];
    var c := a[r0];
    r := r0;
    if c == '~' {
      r := r + 1;
      c := if a[r] == '0' then '~' else '/';
    }
    a[w0] := c;
    w, r := w0 + 1, r + 1;
    assert a[..w] == done + [c];
    Assoc(done, [c], Decode(t[r - at..]).value);
  }

  /** `cJSONUtils_InplaceDecodePointerString`: the write cursor is never ahead of the read cursor. */
  method DecodeInPlace(a: array<char>, at: nat, ghost t: string)
    requires Spells(a, at, t) && NoNul(t) && Decode(t).Some?
    modifies a
    ensures a[..at] == old(a[..at]) && Spells(a, at, Decode(t).value)
  {
    var w, r := at, at;
    ghost var before := a[..at];
    assert t[0..] == t;
    assert forall k :: at <= k < at + |t| ==> a[k] == a[at..at + |t|][k - at];
    hide Decode;
    while a[r] != '\0'
      invariant Decoding(a, at, w, r, t, before)
      decreases at + |t| - r
    {
      w, r := DecodeOne(a, at, w, r, t, before);
    }
    DecodedAll(t);
    assert a[..w] + "" == a[..w];
    a[w] := '\0';
    SpellsAfter(a, at, before, Decode(t).value);
  }

  lemma DecodedAll(t: string)
    ensures t[|t|..] == "" && Decode("") == Some("")
  {
  }

  // ----- following a pointer

  /** The loop over the members: the first whose name the token at `k` matches. */
  method FindMember(ms: seq<Entry<Json>>, e: string, k: nat) returns (i: nat)
    requires NoNul(e) && k <= |e| && forall m :: m in ms ==> NoNul(m.name)
    ensures i == FindToken(ms, e[k..])
  {
    i := 0;
    assert ms[0..] == ms;
    hide TokenMatches;
    while i < |ms|
      invariant i <= |ms| && i + FindToken(ms[i..], e[k..]) == FindToken(ms, e[k..])
    {
      assert ms[i..][0] == ms[i] && ms[i..][1..] == ms[i + 1..];
      assert ms[i] in ms;
      var misses := MissesToken(ms[i].name, e, k);
      if !misses { return; }
      i := i + 1;
    }
  }

  method SkipToken(e: string, k: nat) returns (j: nat)
    requires NoNul(e) && k <= |e|
    ensures k <= j <= |e| && e[j..] == DropToken(e[k..])
  {
    j := k;
    Parser.At(e, j);
    while CharAt(e, j) != '\0' && CharAt(e, j) != '/'
      invariant k <= j <= |e| && DropToken(e[j..]) == DropToken(e[k..])
      invariant CharAt(e, j) == '\0' <==> j == |e|
      decreases |e| - j
    {
      Parser.At(e, j);
      j := j + 1;
      Parser.At(e, j);
    }
    Parser.At(e, j);
  }

  /** `cJSON_GetArrayItem`: how far the walk gets. */
  method GetArrayItem(xs: seq<Json>, item: nat) returns (c: nat)
    ensures c == if item < |xs| then item else |xs|
  {
    c := 0;
    var left := item;
    while c < |xs| && left > 0
      invariant c <= |xs| && c + left == item
    {
      left := left - 1;
      c := c + 1;
    }
  }

  /** A result found below the node at `loc`. */
  function Below(loc: Loc, r: Option<Loc>): Option<Loc> {
    match r case None => None case Some(l) => Some(loc + l)
  }

  lemma BelowUnder(loc: Loc, i: nat, r: Option<Loc>)
    ensures Below(loc, Under(i, r)) == Below(loc + [i], r)
  {
    if r.Some? { assert loc + ([i] + r.value) == loc + [i] + r.value; }
  }

  /** One round of the loop: the token after the slash at `p0`; no child if there is none. */
  method FollowToken(node: Json, e: string, p0: nat) returns (child: Option<nat>, p: nat)
    requires NoNul(e) && p0 < |e| && e[p0] == '/' && Printable(node)
    ensures p0 < p <= |e|
    ensures child.None? ==> Resolve(node, e[p0..]) == None
    ensures child.Some? ==>
      && child.value < |Children(node)|
      && Resolve(node, e[p0..]) == Under(child.value, Resolve(Children(node)[child.value], e[p..]))
  {
    assert e[p0..][1..] == e[p0 + 1..];
    child, p := None, p0 + 1;
    hide ReadDigits, DropToken, FindToken;
    match node {
      case Array(xs) =>
        var which;
        which, p := DigitsAt(e, p, 0);
        Parser.At(e, p);
        if CharAt(e, p) != '\0' && CharAt(e, p) != '/' { return None, p; }
        var c := GetArrayItem(xs, which);
        if c < |xs| { child := Some(c); }
      case Object(ms) =>
        assert forall m :: m in ms ==> NoNul(m.name);
        var i := FindMember(ms, e, p);
        p := SkipToken(e, p);
        if i < |ms| { child := Some(i); }
      case _ =>
    }
  }

  /** `cJSONUtils_GetPointer`. */
  method GetPointer(v: Json, pointer: string) returns (found: Option<Loc>)
    requires NoNul(pointer) && Printable(v)
    ensures found == Resolve(v, pointer)
  {
    var node, loc: Loc, p: nat := v, [], 0;
    assert pointer[0..] == pointer;
    if Resolve(v, pointer).Some? { assert [] + Resolve(v, pointer).value == Resolve(v, pointer).value; }
    while p < |pointer| && pointer[p] == '/'
      invariant p <= |pointer| && Printable(node)
      invariant Resolve(v, pointer) == Below(loc, Resolve(node, pointer[p..]))
      decreases |pointer| - p
    {
      hide Resolve, Printable;
      var child, next := FollowToken(node, pointer, p);
      if child.None? { return None; }
      BelowUnder(loc, child.value, Resolve(Children(node)[child.value], pointer[next..]));
      ChildPrintable(node, child.value);
      loc, node, p := loc + [child.value], Children(node)[child.value], next;
    }
    assert loc + [] == loc;
    found := Some(loc);
  }

  // ----- building a pointer

  /** The pointer to a target at or below `here`; none if the target is elsewhere. */
  ghost function PointerBelow(v: Json, here: Loc, target: Loc): Option<string> {
    if here <= target && ValidLoc(v, target[|here|..]) then Some(PointerTo(v, target[|here|..])) else None
  }

  lemma PointerBelowChild(v: Json, here: Loc, target: Loc, c: nat)
    requires c < |Children(v)|
    ensures var r := PointerBelow(Children(v)[c], here + [c], target);
      if r.None? then here < target && target[|here|] == c ==> PointerBelow(v, here, target) == None
      else
        && here < target && target[|here|] == c
        && PointerBelow(v, here, target)
           == Some("/" + (if v.Object? then Encode(v.members[c].name) else Digits(c)) + r.value)
  {
    if here <= target && here != target && target[|here|] == c {
      var loc := target[|here|..];
      assert here + [c] <= target && loc[0] == c && loc[1..] == target[|here + [c]|..];
      if ValidLoc(v, loc) {
        var ts := TokensTo(v, loc);
        assert ts[1..] == TokensTo(Children(v)[c], loc[1..]);
      }
    }
  }

  /** `cJSONUtils_FindPointerFromObjectTo` at the node `here`: it searches every child in turn. */
  method FindPointer(v: Json, here: Loc, target: Loc) returns (found: Option<string>)
    ensures found == PointerBelow(v, here, target)
    decreases v
  {
    if here == target { return Some(""); }
    var children := Children(v);
    var c := 0;
    while c < |children|
      invariant c <= |children|
      invariant here < target && target[|here|] < c ==> PointerBelow(v, here, target) == None
    {
      PointerBelowChild(v, here, target, c);
      found := FindPointer(children[c], here + [c], target);
      if found.Some? {
        match v {
          case Array(_) => return Some("/" + Digits(c) + found.value);
          case Object(ms) => return Some("/" + Encode(ms[c].name) + found.value);
          case _ =>
        }
      }
      c := c + 1;
    }
    found := None;
  }
}
