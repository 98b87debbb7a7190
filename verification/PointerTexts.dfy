/** What the pointer functions make of any text, also of one that no pointer is written as. */
module PointerTexts {
  import opened Json
  import opened Numerals
  import opened Pointer
  import opened Patch

  // ----- escapes

  lemma EncodeOne(c: char, s: string)
    ensures Encode([c]) == if c == '~' then "~0" else if c == '/' then "~1" else [c]
    ensures Encode("") == "" && Encode([c] + s) == Encode([c]) + Encode(s)
  {
    assert ([c] + s)[1..] == s;
    assert [c][1..] == [];
  }

  /** Escaping goes character by character, as section 3 of RFC 6901 writes it. */
  lemma {:induction false} EncodeAppend(a: string, b: string)
    ensures Encode(a + b) == Encode(a) + Encode(b)
    ensures Encode("~") == "~0" && Encode("/") == "~1" && forall c :: c != '~' && c != '/' ==> Encode([c]) == [c]
  {
    hide *;
    forall c: char ensures Encode([c]) == if c == '~' then "~0" else if c == '/' then "~1" else [c] { EncodeOne(c, ""); }
    if a == [] {
      EncodeOne('~', "");
      assert a + b == b && "" + Encode(b) == Encode(b);
    } else {
      EncodeAppend(a[1..], b);
      EncodeOne(a[0], a[1..] + b);
      EncodeOne(a[0], a[1..]);
      assert a + b == [a[0]] + (a[1..] + b) && a == [a[0]] + a[1..];
      assert Encode([a[0]]) + (Encode(a[1..]) + Encode(b)) == (Encode([a[0]]) + Encode(a[1..])) + Encode(b);
    }
  }

  /** A character as it is, or a tilde and the character behind it. */
  datatype Bit = Kept(c: char) | Tilde(c: char)

  predicate AreBits(bs: seq<Bit>) {
    forall b :: b in bs && b.Kept? ==> b.c != '~'
  }

  function BitsText(bs: seq<Bit>): string {
    if bs == [] then "" else (if bs[0].Kept? then [bs[0].c] else ['~', bs[0].c]) + BitsText(bs[1..])
  }

  /** A tilde and a zero stand for a tilde, a tilde and anything else for a slash. */
  function BitsValue(bs: seq<Bit>): string {
    if bs == [] then ""
    else [if bs[0].Kept? then bs[0].c else if bs[0].c == '0' then '~' else '/'] + BitsValue(bs[1..])
  }

  lemma {:induction false} BitsDecoded(bs: seq<Bit>)
    requires AreBits(bs)
    ensures Decode(BitsText(bs)) == Some(BitsValue(bs))
  {
    if bs != [] {
      var n := if bs[0].Kept? then 1 else 2;
      assert BitsText(bs)[n..] == BitsText(bs[1..]);
      BitsDecoded(bs[1..]);
    }
  }

  lemma DecodeTail(s: string)
    requires Decode(s).Some? && s != []
    ensures var n := if s[0] == '~' then 2 else 1; n <= |s| && Decode(s[n..]).Some? && s == s[..n] + s[n..]
  {
  }

  lemma BitsCons(b: Bit, bs: seq<Bit>)
    requires AreBits(bs) && (b.Kept? ==> b.c != '~')
    ensures AreBits([b] + bs) && BitsText([b] + bs) == (if b.Kept? then [b.c] else ['~', b.c]) + BitsText(bs)
  {
    assert ([b] + bs)[1..] == bs;
  }

  lemma {:induction false} BitsOf(s: string) returns (bs: seq<Bit>)
    requires Decode(s).Some?
    ensures AreBits(bs) && s == BitsText(bs)
    decreases |s|
  {
    hide Decode, BitsText, AreBits;
    if s == [] {
      NoBits();
      return [];
    }
    DecodeTail(s);
    var n := if s[0] == '~' then 2 else 1;
    var more := BitsOf(s[n..]);
    var b := if s[0] == '~' then Tilde(s[1]) else Kept(s[0]);
    BitsCons(b, more);
    bs := [b] + more;
    assert s[..n] == if b.Kept? then [b.c] else ['~', b.c];
  }

  lemma NoBits()
    ensures AreBits([]) && BitsText([]) == ""
  {
  }

  /** Decoding succeeds exactly on texts without a lone tilde at the end, and takes every escape for a slash but "~0". */
  lemma DecodesExactly(s: string, r: string)
    ensures Decode(s) == Some(r) <==> exists bs :: AreBits(bs) && s == BitsText(bs) && r == BitsValue(bs)
  {
    hide *;
    if Decode(s) == Some(r) {
      var bs := BitsOf(s);
      BitsDecoded(bs);
    }
    if bs :| AreBits(bs) && s == BitsText(bs) && r == BitsValue(bs) { BitsDecoded(bs); }
  }

  // ----- matching a name

  /** The token at the start of `ptr` is the name, written with escapes and in any case. */
  ghost predicate Names(name: string, ptr: string, other: string, rest: string) {
    ptr == Encode(other) + rest && EndsToken(rest) && LowerName(other) == LowerName(name)
  }

  lemma {:induction false} TokenRead(name: string, ptr: string) returns (other: string, rest: string)
    requires TokenMatches(name, ptr)
    ensures Names(name, ptr, other, rest)
    decreases |name|
  {
    if name == [] {
      assert Encode("") + ptr == ptr;
      return "", ptr;
    }
    var n := if ptr[0] == '~' then 2 else 1;
    other, rest := TokenRead(name[1..], ptr[n..]);
    var c := if ptr[0] != '~' then ptr[0] else if ptr[1] == '0' then '~' else '/';
    NamesMore(name, ptr, c, n, other, rest);
    other := [c] + other;
  }

  lemma NamesMore(name: string, ptr: string, c: char, n: nat, other: string, rest: string)
    requires name != [] && n <= |ptr| && Names(name[1..], ptr[n..], other, rest)
    requires Lower(c) == Lower(name[0]) && ptr[..n] == if c == '~' then "~0" else if c == '/' then "~1" else [c]
    ensures Names(name, ptr, [c] + other, rest)
  {
    EncodeAppend([c], other);
    LowerNameHead(name);
    LowerNameHead([c] + other);
    assert ([c] + other)[1..] == other;
    assert ptr == ptr[..n] + ptr[n..];
    hide Encode, LowerName, Lower;
    assert Encode([c] + other) + rest == Encode([c]) + (Encode(other) + rest);
  }

  /** A name matches exactly if the token is that name, ignoring case, with its escapes. */
  lemma TokenMatchesExactly(name: string, ptr: string)
    ensures TokenMatches(name, ptr) <==> exists other: string, rest: string :: Names(name, ptr, other, rest)
  {
    hide *;
    if TokenMatches(name, ptr) { var other, rest := TokenRead(name, ptr); }
    if other: string, rest: string :| Names(name, ptr, other, rest) {
      NamesIs(name, ptr, other, rest);
      TokenMatchesEncoded(name, other, rest);
    }
  }

  lemma NamesIs(name: string, ptr: string, other: string, rest: string)
    requires Names(name, ptr, other, rest)
    ensures ptr == Encode(other) + rest && EndsToken(rest) && LowerName(other) == LowerName(name)
  {
    hide Encode, LowerName;
  }

  // ----- resolving

  /** A text that does not start with a slash leads to the value itself. Otherwise the first token of an array must be made
      of digits and is the index they stand for, 0 if there are none; of an object it names a member, the first that
      matches. */
  lemma ResolveText(v: Json, ptr: string, t: string, rest: string)
    requires '/' !in t && EndsToken(rest)
    ensures !StartsSlash(ptr) ==> Resolve(v, ptr) == Some([])
    ensures v.Array? ==>
      (Resolve(v, "/" + (t + rest)) ==
       if AllDigits(t) && Decimal(t) < |v.items| then Under(Decimal(t), Resolve(v.items[Decimal(t)], rest)) else None)
    ensures v.Object? ==> var i := FindToken(v.members, t + rest);
      && Resolve(v, "/" + (t + rest)) == (if i < |v.members| then Under(i, Resolve(v.members[i].item, rest)) else None)
      && (forall k :: 0 <= k < i ==> !TokenMatches(v.members[k].name, t + rest))
      && (i < |v.members| ==> TokenMatches(v.members[i].name, t + rest))
    ensures !v.Array? && !v.Object? ==> Resolve(v, "/" + (t + rest)) == None
  {
    var s := "/" + (t + rest);
    assert s[1..] == t + rest;
    match v
    case Array(xs) =>
      ReadToken(t, rest);
      hide ReadDigits, Continued, AllDigits;
    case Object(ms) =>
      DropTokenOf(t, rest);
      FirstToken(ms, t + rest);
      hide FindToken, TokenMatches, DropToken;
    case _ =>
  }

  predicate StartsSlash(ptr: string) {
    ptr != [] && ptr[0] == '/'
  }

  lemma ReadToken(t: string, rest: string)
    requires '/' !in t && EndsToken(rest)
    ensures var (n, r) := ReadDigits(t + rest, 0);
      if AllDigits(t) then n == Decimal(t) && r == rest else !EndsToken(r)
  {
    if AllDigits(t) {
      ReadNumeral(t, 0, rest);
      hide ReadDigits;
    } else {
      var p := NumeralRead(t + rest, 0);
      hide ReadDigits;
      var r := ReadDigits(t + rest, 0).1;
      var s := t + rest;
      assert s == p + r && s[..|t|] == t;
      ShorterRead(t, rest, p, r);
      assert s[|p|] == t[|p|] && t[|p|] in t;
    }
  }

  lemma ShorterRead(t: string, rest: string, p: string, r: string)
    requires t + rest == p + r && AllDigits(p)
    ensures |p| < |t| || AllDigits(t)
  {
    if |p| >= |t| {
      forall i | 0 <= i < |t| ensures IsDigit(t[i]) {
        assert (t + rest)[i] == t[i] && (p + r)[i] == p[i] && p[i] in p;
      }
    }
  }

  lemma {:induction false} FirstToken(ms: seq<Entry<Json>>, ptr: string)
    ensures var i := FindToken(ms, ptr);
      (forall k :: 0 <= k < i ==> !TokenMatches(ms[k].name, ptr)) && (i < |ms| ==> TokenMatches(ms[i].name, ptr))
  {
    hide TokenMatches;
    if ms != [] { FirstToken(ms[1..], ptr); }
  }

  // ----- cutting a path

  /** The path is cut at its last slash, and what follows is decoded; a path without one has no parts. */
  lemma SplitsExactly(path: string, parent: string, t: string)
    requires '/' !in t
    ensures SplitPath(parent + ("/" + t)) == match Decode(t) case None => None case Some(name) => Some((parent, name))
    ensures '/' !in path ==> SplitPath(path) == None
  {
    var s := parent + ("/" + t);
    LastSlashAt(parent, t);
    hide LastSlash, Decode;
    assert s[|parent| + 1..] == t && s[..|parent|] == parent;
    if '/' !in path { NoSlash(path); }
  }

  lemma {:induction false} LastSlashAt(parent: string, t: string)
    requires '/' !in t
    ensures LastSlash(parent + ("/" + t)) == Some(|parent|)
    decreases |t|
  {
    var s := parent + ("/" + t);
    if t != [] {
      var u := t[..|t| - 1];
      assert s[..|s| - 1] == parent + ("/" + u) && s[|s| - 1] == t[|t| - 1] && t[|t| - 1] in t;
      LastSlashAt(parent, u);
    }
  }

  lemma {:induction false} NoSlash(s: string)
    requires '/' !in s
    ensures LastSlash(s) == None
  {
    if s != [] {
      assert s[|s| - 1] in s;
      NoSlash(s[..|s| - 1]);
    }
  }
}
