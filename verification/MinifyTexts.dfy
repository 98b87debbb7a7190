/** What minifying keeps of any text: the text as pieces, written down apart from the loops. */
module MinifyTexts {
  import opened Json
  import opened Text
  import opened Parse
  import opened RoundTrip
  import opened Minify

  /** A blank, a comment up to the end of the line, a comment between stars, a comment of one star that counts for
      both ends, a literal, or another character. */
  datatype Piece = White(c: char) | Line(p: string) | Block(p: string) | Star | Literal(b: string) | Other(c: char)

  /** A star followed by a slash. */
  ghost predicate HasEnd(q: string) {
    exists i :: EndsAt(q, i)
  }

  ghost predicate EndsAt(q: string, i: nat) {
    i + 1 < |q| && q[i] == '*' && q[i + 1] == '/'
  }

  /** Every quote, and every backslash, stands behind a backslash of its own. */
  predicate IsBody(b: string)
    decreases |b|
  {
    || b == []
    || (b[0] != '\"' && b[0] != '\\' && IsBody(b[1..]))
    || (b[0] == '\\' && |b| > 1 && IsBody(b[2..]))
  }

  /** A comment between stars ends at its first star that a slash follows, the one it starts with included. */
  ghost predicate IsPiece(x: Piece, rest: string) {
    match x
    case White(c) => c in {' ', '\t', '\r', '\n'}
    case Line(p) => '\n' !in p && (rest == [] || rest[0] == '\n')
    case Block(p) => !HasEnd("*" + p)
    case Star => true
    case Literal(b) => IsBody(b)
    case Other(c) =>
      c !in {' ', '\t', '\r', '\n', '\"'} && (c == '/' ==> rest == [] || (rest[0] != '/' && rest[0] != '*'))
  }

  function PieceText(x: Piece): string {
    match x
    case White(c) => [c]
    case Line(p) => "//" + p
    case Block(p) => "/*" + (p + "*/")
    case Star => "/*/"
    case Literal(b) => "\"" + (b + "\"")
    case Other(c) => [c]
  }

  function PieceKept(x: Piece): string {
    match x
    case Literal(b) => "\"" + (b + "\"")
    case Other(c) => [c]
    case _ => ""
  }

  function PiecesText(xs: seq<Piece>): string {
    if xs == [] then "" else PieceText(xs[0]) + PiecesText(xs[1..])
  }

  function PiecesKept(xs: seq<Piece>): string {
    if xs == [] then "" else PieceKept(xs[0]) + PiecesKept(xs[1..])
  }

  ghost predicate ArePieces(xs: seq<Piece>) {
    xs == [] || (IsPiece(xs[0], PiecesText(xs[1..])) && ArePieces(xs[1..]))
  }

  // ----- the loops over comments and literals

  lemma {:induction false} LineEndOf(p: string, rest: string)
    requires '\n' !in p && (rest == [] || rest[0] == '\n')
    ensures LineEnd(p + rest) == rest
  {
    if p == [] {
      assert p + rest == rest;
    } else {
      assert p[0] in p && (p + rest)[1..] == p[1..] + rest;
      LineEndOf(p[1..], rest);
    }
  }

  lemma EndLater(q: string)
    requires q != []
    ensures HasEnd(q) <==> EndsAt(q, 0) || HasEnd(q[1..])
  {
    forall i: nat ensures EndsAt(q, i + 1) <==> EndsAt(q[1..], i) {}
    if i: nat :| EndsAt(q, i) && i > 0 { assert EndsAt(q[1..], i - 1); }
    if i: nat :| EndsAt(q[1..], i) { assert EndsAt(q, i + 1); }
  }

  lemma CommentStep(c: char, t: string)
    ensures CommentEnd([c] + t) == if c == '*' && Starts(t, '/') then Some(t[1..]) else CommentEnd(t)
  {
    assert ([c] + t)[1..] == t;
    if t != [] { assert ([c] + t)[2..] == t[1..]; }
  }

  lemma {:induction false} CommentEndOf(q: string, rest: string)
    requires !HasEnd(q)
    ensures CommentEnd(q + ("*/" + rest)) == Some(rest)
  {
    hide *;
    var k := "*/" + rest;
    if q == [] {
      assert q + k == ['*'] + ("/" + rest) && ("/" + rest)[1..] == rest;
      CommentStep('*', "/" + rest);
      SlashStarts(rest);
    } else {
      EndLater(q);
      assert q + k == [q[0]] + (q[1..] + k);
      CommentStep(q[0], q[1..] + k);
      NotHere(q, k);
      CommentEndOf(q[1..], rest);
    }
  }

  lemma SlashStarts(rest: string)
    ensures Starts("/" + rest, '/')
  {
  }

  lemma NotHere(q: string, k: string)
    requires q != [] && !EndsAt(q, 0) && k != [] && k[0] == '*'
    ensures !(q[0] == '*' && Starts(q[1..] + k, '/'))
  {
    assert |q| > 1 ==> (q[1..] + k)[0] == q[1];
    assert |q| == 1 ==> (q[1..] + k)[0] == '*';
  }

  lemma {:induction false} LiteralEndOf(b: string, rest: string)
    requires IsBody(b)
    ensures LiteralEnd(b + ("\"" + rest)) == Some(|b| + 1)
    decreases |b|
  {
    var k := "\"" + rest;
    if b == [] {
      assert b + k == k;
    } else {
      var n := if b[0] == '\\' then 2 else 1;
      assert (b + k)[n..] == b[n..] + k && (b + k)[0] == b[0];
      LiteralEndOf(b[n..], rest);
    }
  }

  // ----- minifying piece by piece

  lemma NothingKept(r: Option<string>)
    ensures Cons("", r) == r
  {
    if r.Some? { assert "" + r.value == r.value; }
  }

  lemma LineVanishes(p: string, rest: string)
    requires '\n' !in p && (rest == [] || rest[0] == '\n')
    ensures Minified("//" + p + rest) == Minified(rest)
  {
    var s := "//" + p + rest;
    assert s[1..][0] == '/';
    assert s == ("//" + p) + rest && '\n' !in "//" + p;
    LineEndOf("//" + p, rest);
    hide LineEnd;
  }

  lemma BlockVanishes(p: string, rest: string)
    requires !HasEnd("*" + p)
    ensures Minified("/*" + (p + "*/") + rest) == Minified(rest)
  {
    var s := "/*" + (p + "*/") + rest;
    var q := "*" + p;
    assert s[0] == '/' && s[1..] == q + ("*/" + rest) && s[1..][0] == '*';
    CommentEndOf(q, rest);
    assert CommentEnd(s) == CommentEnd(s[1..]);
    hide CommentEnd;
  }

  lemma StarVanishes(rest: string)
    ensures Minified("/*/" + rest) == Minified(rest)
  {
    var s := "/*/" + rest;
    assert s[0] == '/' && s[1..] == "" + ("*/" + rest) && s[1..][0] == '*';
    CommentEndOf("", rest);
    assert CommentEnd(s) == CommentEnd(s[1..]);
    hide CommentEnd;
  }

  lemma LiteralStays(b: string, rest: string)
    requires IsBody(b)
    ensures Minified("\"" + (b + "\"") + rest) == Cons("\"" + (b + "\""), Minified(rest))
  {
    var l := "\"" + (b + "\"");
    var s := l + rest;
    assert s[0] == '\"' && s[1..] == b + ("\"" + rest);
    LiteralEndOf(b, rest);
    assert s[..|b| + 2] == l && s[|b| + 2..] == rest;
    hide LiteralEnd;
  }

  lemma OneMinified(c: char, rest: string)
    requires c != '\"' && (c == '/' ==> rest == [] || (rest[0] != '/' && rest[0] != '*'))
    ensures Minified([c] + rest) == if IsBlank(c) then Minified(rest) else Cons([c], Minified(rest))
  {
    assert ([c] + rest)[1..] == rest;
    hide LineEnd, CommentEnd, LiteralEnd;
  }

  lemma PieceMinified(x: Piece, rest: string)
    requires IsPiece(x, rest)
    ensures Minified(PieceText(x) + rest) == Cons(PieceKept(x), Minified(rest))
  {
    hide Minified, HasEnd, IsBody;
    NothingKept(Minified(rest));
    match x
    case White(c) => OneMinified(c, rest);
    case Line(p) => LineVanishes(p, rest);
    case Block(p) => BlockVanishes(p, rest);
    case Star => StarVanishes(rest);
    case Literal(b) => LiteralStays(b, rest);
    case Other(c) => OneMinified(c, rest);
  }

  lemma {:induction false} PiecesMinified(xs: seq<Piece>)
    requires ArePieces(xs)
    ensures Minified(PiecesText(xs)) == Some(PiecesKept(xs))
  {
    if xs != [] {
      hide Minified, IsPiece, PieceText, PieceKept;
      PiecesMinified(xs[1..]);
      PieceMinified(xs[0], PiecesText(xs[1..]));
    }
  }

  // ----- every text that is minified has pieces

  lemma {:induction false} LineCut(s: string) returns (p: string)
    ensures s == p + LineEnd(s) && '\n' !in p && (LineEnd(s) == [] || LineEnd(s)[0] == '\n')
  {
    p := "";
    if s != [] && s[0] != '\n' {
      var q := LineCut(s[1..]);
      p := [s[0]] + q;
      assert s == [s[0]] + s[1..];
    }
  }

  lemma {:induction false} CommentCut(s: string) returns (q: string)
    requires CommentEnd(s).Some?
    ensures s == q + ("*/" + CommentEnd(s).value) && !HasEnd(q)
    ensures q == [] || q[0] == s[0]
  {
    if s[0] == '*' && Starts(s[1..], '/') {
      assert s == "*/" + s[2..];
      return "";
    }
    var p := CommentCut(s[1..]);
    q := [s[0]] + p;
    assert s == [s[0]] + s[1..];
    assert q[1..] == p;
    EndLater(q);
    assert p != [] ==> s[1..][0] == p[0];
  }

  lemma LiteralStep(s: string) returns (n: nat)
    requires LiteralEnd(s).Some?
    ensures s != [] && (s[0] == '\"' ==> LiteralEnd(s) == Some(1)) && n == (if s[0] == '\\' then 2 else 1) && n <= |s|
    ensures s[0] != '\"' ==> LiteralEnd(s[n..]).Some? && LiteralEnd(s).value == n + LiteralEnd(s[n..]).value
  {
    n := if s[0] == '\\' then 2 else 1;
  }

  lemma BodyStep(u: string, d: string)
    requires IsBody(d) && ((|u| == 1 && u[0] != '\"' && u[0] != '\\') || (|u| == 2 && u[0] == '\\'))
    ensures IsBody(u + d)
  {
    assert (u + d)[|u|..] == d;
  }

  lemma {:induction false} LiteralCut(s: string) returns (b: string)
    requires LiteralEnd(s).Some?
    ensures LiteralEnd(s).value == |b| + 1 <= |s| && IsBody(b) && s == b + ("\"" + s[|b| + 1..])
    decreases |s|
  {
    hide *;
    var n := LiteralStep(s);
    if s[0] == '\"' {
      assert s == "\"" + s[1..];
      EmptyBody();
      return "";
    }
    var d := LiteralCut(s[n..]);
    BodyStep(s[..n], d);
    b := s[..n] + d;
    LiteralWhole(s, n, d);
  }

  lemma EmptyBody()
    ensures IsBody("")
  {
  }

  lemma LiteralWhole(s: string, n: nat, d: string)
    requires n <= |s| && |d| + 1 <= |s[n..]| && s[n..] == d + ("\"" + s[n..][|d| + 1..])
    ensures var b := s[..n] + d; |b| + 1 <= |s| && s == b + ("\"" + s[|b| + 1..])
  {
    assert s == s[..n] + s[n..];
    assert s[|s[..n] + d| + 1..] == s[n..][|d| + 1..];
  }

  lemma FirstPiece(s: string) returns (x: Piece, rest: string)
    requires s != [] && Minified(s).Some?
    ensures s == PieceText(x) + rest && IsPiece(x, rest) && |rest| < |s| && Minified(rest).Some?
  {
    var c, more := s[0], s[1..];
    assert s == [c] + more;
    if c == '/' && Starts(more, '/') {
      x, rest := LinePiece(s);
    } else if c == '/' && Starts(more, '*') {
      x, rest := BlockPiece(s);
    } else if c == '\"' {
      x, rest := LiteralPiece(s);
    } else {
      x, rest := if IsBlank(c) then White(c) else Other(c), more;
    }
    hide Minified, HasEnd, IsBody, PieceText, PieceKept;
    if Minified(rest).None? { PieceMinified(x, rest); }
  }

  lemma LinePiece(s: string) returns (x: Piece, rest: string)
    requires s != [] && s[0] == '/' && Starts(s[1..], '/')
    ensures s == PieceText(x) + rest && IsPiece(x, rest) && |rest| < |s|
  {
    var p := LineCut(s);
    hide LineEnd;
    rest := LineEnd(s);
    assert p[0] == '/' && p[1] == '/' && p == "//" + p[2..];
    x := Line(p[2..]);
  }

  lemma BlockPiece(s: string) returns (x: Piece, rest: string)
    requires s != [] && s[0] == '/' && Starts(s[1..], '*') && CommentEnd(s).Some?
    ensures s == PieceText(x) + rest && IsPiece(x, rest) && |rest| < |s|
  {
    assert CommentEnd(s) == CommentEnd(s[1..]);
    var q := CommentCut(s[1..]);
    rest := CommentEnd(s).value;
    hide CommentEnd, HasEnd;
    assert s == "/" + s[1..];
    if q == [] {
      x := Star;
    } else {
      assert q == "*" + q[1..];
      x := Block(q[1..]);
    }
  }

  lemma LiteralPiece(s: string) returns (x: Piece, rest: string)
    requires s != [] && s[0] == '\"' && LiteralEnd(s[1..]).Some?
    ensures s == PieceText(x) + rest && IsPiece(x, rest) && |rest| < |s|
  {
    var b := LiteralCut(s[1..]);
    hide LiteralEnd, IsBody;
    rest := s[|b| + 2..];
    assert rest == s[1..][|b| + 1..] && s == "\"" + s[1..];
    x := Literal(b);
  }

  lemma {:induction false} PiecesOf(s: string) returns (xs: seq<Piece>)
    requires Minified(s).Some?
    ensures ArePieces(xs) && s == PiecesText(xs)
    decreases |s|
  {
    if s == [] { return []; }
    var x, rest := FirstPiece(s);
    hide Minified, IsPiece, PieceText;
    var ys := PiecesOf(rest);
    xs := [x] + ys;
    assert xs[1..] == ys;
  }

  /** A text is minified exactly if it is made of pieces, that is, if its literals and comments end; and what is kept
      are its literals and the characters outside of comments that are not blank. */
  lemma MinifiesExactly(s: string, r: string)
    ensures Minified(s) == Some(r) <==> exists xs :: ArePieces(xs) && s == PiecesText(xs) && r == PiecesKept(xs)
  {
    hide *;
    if Minified(s) == Some(r) {
      var xs := PiecesOf(s);
      PiecesMinified(xs);
    }
    if xs :| ArePieces(xs) && s == PiecesText(xs) && r == PiecesKept(xs) {
      PiecesMinified(xs);
    }
  }

  /** Comments vanish: to the end of the line, and between stars unless the comment has its end inside. */
  lemma CommentsVanish(p: string, k: string)
    ensures '\n' !in p ==> Minified("//" + p + "\n" + k) == Minified(k)
    ensures !HasEnd("*" + p) ==> Minified("/*" + (p + "*/") + k) == Minified(k)
  {
    hide *;
    if '\n' !in p {
      LineVanishes(p, "\n" + k);
      assert "//" + p + "\n" + k == "//" + p + ("\n" + k);
      OneMinified('\n', k);
      NewlineBlank();
    }
    if !HasEnd("*" + p) { BlockVanishes(p, k); }
  }

  lemma NewlineBlank()
    ensures IsBlank('\n')
  {
  }

  /** The comment between stars has its end inside exactly if a star is followed by a slash in it, or if it goes on
      with a slash. */
  lemma StarEnds(p: string)
    ensures HasEnd("*" + p) <==> HasEnd(p) || (p != [] && p[0] == '/')
  {
    EndLater("*" + p);
    assert ("*" + p)[1..] == p;
    assert EndsAt("*" + p, 0) <==> p != [] && p[0] == '/';
  }
}
