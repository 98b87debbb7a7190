/** `cJSON_Minify` on the character array itself: one read cursor, one write cursor. */
module MinifyInPlace {
  import opened Json
  import opened Text
  import opened Parse
  import opened Minify

  /** `a` holds the string `s` and its terminator. */
  ghost predicate Holds(a: array<char>, s: string)
    reads a
  {
    |s| < a.Length && a[..|s|] == s && a[|s|] == '\0' && NoNul(s)
  }

  /** The write cursor has not passed the read cursor, `done` was written, and what is still
      to be read is as it was. */
  ghost predicate Unread(a: array<char>, t: string, r: nat, w: nat, done: string)
    reads a
  {
    && w <= r <= |t| < a.Length && w == |done|
    && a[..w] == done && a[|t|] == '\0'
    && forall k :: r <= k < |t| ==> a[k] == t[k]
  }

  lemma UnreadHead(a: array<char>, t: string, r: nat, w: nat, done: string)
    requires Unread(a, t, r, w, done) && NoNul(t)
    ensures r <= |t| < a.Length && (a[r] == '\0' <==> r == |t|) && (r < |t| ==> a[r] == t[r])
  {
    if r < |t| { assert t[r] in t; }
  }

  lemma UnreadAt(a: array<char>, t: string, r: nat, w: nat, done: string)
    requires Unread(a, t, r, w, done) && r < |t|
    ensures r < a.Length && a[r] == t[r]
  {
  }

  /** Copies one character and moves both cursors. */
  method CopyOne(a: array<char>, r: nat, w: nat, ghost t: string, ghost done: string)
    requires Unread(a, t, r, w, done) && r < |t|
    modifies a
    ensures Unread(a, t, r + 1, w + 1, done + [t[r]])
  {
    a[w] := a[r];
    assert a[..w + 1] == done + [t[r]];
  }

  /** The same inside a literal that was copied from `r0` up to `r`. */
  method CopyOn(a: array<char>, r: nat, w: nat, ghost t: string, ghost done: string, ghost r0: nat)
    requires r0 <= r < |t| && Unread(a, t, r, w, done + t[r0..r])
    modifies a
    ensures Unread(a, t, r + 1, w + 1, done + t[r0..r + 1])
  {
    CopyOne(a, r, w, t, done + t[r0..r]);
    assert done + t[r0..r] + [t[r]] == done + t[r0..r + 1];
  }

  lemma LiteralEndStep(t: string, r: nat, end: nat)
    requires r <= |t| && r <= end && LiteralEnd(t[r..]) == Some(end - r)
    ensures r < |t|
    ensures t[r] == '\"' ==> end == r + 1
    ensures t[r] == '\\' ==> r + 2 <= |t| && r + 2 <= end && LiteralEnd(t[r + 2..]) == Some(end - (r + 2))
    ensures t[r] != '\"' && t[r] != '\\' ==> r + 1 <= end && LiteralEnd(t[r + 1..]) == Some(end - (r + 1))
  {
    var u := t[r..];
    assert u != [] && u[0] == t[r] && u[1..] == t[r + 1..];
    if u[0] == '\\' {
      assert |u| > 1;
      assert u[2..] == t[r + 2..];
    }
  }

  /** One character of a literal, or an escape with the character after it. */
  method CopyUnit(a: array<char>, r0: nat, w0: nat, ghost t: string, ghost done: string, ghost start: nat, ghost end: nat)
    returns (r: nat, w: nat)
    requires start <= r0 < |t| && r0 <= end && LiteralEnd(t[r0..]) == Some(end - r0) && t[r0] != '\"'
    requires Unread(a, t, r0, w0, done + t[start..r0])
    modifies a
    ensures r0 < r <= |t| && r <= end && LiteralEnd(t[r..]) == Some(end - r)
    ensures Unread(a, t, r, w, done + t[start..r])
  {
    hide *;
    LiteralEndStep(t, r0, end);
    UnreadAt(a, t, r0, w0, done + t[start..r0]);
    r, w := r0, w0;
    if a[r] == '\\' {
      CopyOn(a, r, w, t, done, start);
      r, w := r + 1, w + 1;
    }
    CopyOn(a, r, w, t, done, start);
    r, w := r + 1, w + 1;
  }

  /** A string literal is copied character by character, escapes in pairs. */
  method CopyLiteral(a: array<char>, r0: nat, w0: nat, ghost t: string, ghost done: string) returns (r: nat, w: nat)
    requires Unread(a, t, r0, w0, done) && NoNul(t)
    requires r0 < |t| && t[r0] == '\"' && LiteralEnd(t[r0 + 1..]).Some?
    modifies a
    ensures r == r0 + 1 + LiteralEnd(t[r0 + 1..]).value
    ensures Unread(a, t, r, w, done + t[r0..r])
  {
    hide *;
    ghost var end := r0 + 1 + LiteralEnd(t[r0 + 1..]).value;
    LiteralBegins(t, r0, done);
    CopyOn(a, r0, w0, t, done, r0);
    r, w := r0 + 1, w0 + 1;
    UnreadHead(a, t, r, w, done + t[r0..r]);
    while a[r] != '\0' && a[r] != '\"'
      invariant r0 < r <= |t| && r <= end && LiteralEnd(t[r..]) == Some(end - r)
      invariant Unread(a, t, r, w, done + t[r0..r])
      invariant |t| < a.Length && (a[r] == '\0' <==> r == |t|) && (r < |t| ==> a[r] == t[r])
      decreases |t| - r
    {
      r, w := CopyUnit(a, r, w, t, done, r0, end);
      UnreadHead(a, t, r, w, done + t[r0..r]);
    }
    LiteralEndStep(t, r, end);
    CopyOn(a, r, w, t, done, r0);
    r, w := r + 1, w + 1;
  }

  lemma LiteralBegins(t: string, r: nat, done: string)
    requires r < |t|
    ensures done + t[r..r] == done
  {
  }

  method SkipLine(a: array<char>, r0: nat, ghost t: string, ghost w: nat, ghost done: string) returns (r: nat)
    requires Unread(a, t, r0, w, done) && NoNul(t)
    ensures r0 <= r <= |t| && t[r..] == LineEnd(t[r0..])
  {
    r := r0;
    while a[r] != '\0' && a[r] != '\n'
      invariant r0 <= r <= |t| && LineEnd(t[r..]) == LineEnd(t[r0..])
      decreases |t| - r
    {
      assert t[r..][1..] == t[r + 1..];
      r := r + 1;
    }
  }

  method SkipComment(a: array<char>, r0: nat, ghost t: string, ghost w: nat, ghost done: string) returns (r: nat)
    requires Unread(a, t, r0, w, done) && NoNul(t)
    requires CommentEnd(t[r0..]).Some?
    ensures r0 <= r <= |t| && Some(t[r..]) == CommentEnd(t[r0..])
  {
    r := r0;
    while a[r] != '\0' && !(a[r] == '*' && a[r + 1] == '/')
      invariant r0 <= r <= |t| && CommentEnd(t[r..]) == CommentEnd(t[r0..])
      decreases |t| - r
    {
      assert t[r..][1..] == t[r + 1..];
      r := r + 1;
    }
    assert r < |t|;
    assert t[r..][1..] == t[r + 1..] && t[r..][2..] == t[r + 2..];
    r := r + 2;
  }

  lemma MinifyStep(t: string, done: string, r: nat, next: nat, piece: string)
    requires r <= next <= |t|
    requires Minified(t) == Cons(done, Minified(t[r..]))
    requires Minified(t[r..]) == Cons(piece, Minified(t[next..]))
    ensures Minified(t) == Cons(done + piece, Minified(t[next..]))
  {
    ConsCons(done, piece, Minified(t[next..]));
  }

  /** Invariant of the loop: what is written, and what is left to read. */
  ghost predicate Minifying(a: array<char>, t: string, r: nat, w: nat, done: string)
    reads a
  {
    Unread(a, t, r, w, done) && NoNul(done) && Minified(t) == Cons(done, Minified(t[r..]))
  }

  lemma MinifyBegins(a: array<char>, t: string)
    requires Holds(a, t) && Minified(t).Some?
    ensures NoNul(t) && Minifying(a, t, 0, 0, "")
  {
    assert t[0..] == t;
    assert Cons("", Minified(t)) == Minified(t) by { assert "" + Minified(t).value == Minified(t).value; }
  }

  lemma MinifyingHead(a: array<char>, t: string, r: nat, w: nat, done: string)
    requires Minifying(a, t, r, w, done) && NoNul(t)
    ensures r <= |t| < a.Length && w < a.Length && (a[r] == '\0' <==> r == |t|)
  {
    hide Minified, Cons, NoNul;
    UnreadHead(a, t, r, w, done);
  }

  /** One round: a blank, a comment, a literal, or one character. */
  method MinifyTurn(a: array<char>, r0: nat, w0: nat, ghost t: string, ghost done0: string)
    returns (r: nat, w: nat, ghost done: string)
    requires Minifying(a, t, r0, w0, done0) && NoNul(t) && Minified(t).Some? && r0 < |t|
    modifies a
    ensures r0 < r <= |t| && Minifying(a, t, r, w, done)
  {
    r, w, done := r0, w0, done0;
    assert t[r..][1..] == t[r + 1..];
    assert t[r] in t;
    if IsBlank(a[r]) {
      r := r + 1;
    } else if a[r] == '/' && a[r + 1] == '/' {
      r := SkipLine(a, r, t, w, done);
    } else if a[r] == '/' && a[r + 1] == '*' {
      r := SkipComment(a, r, t, w, done);
    } else if a[r] == '\"' {
      r, w := CopyLiteral(a, r, w, t, done);
      LiteralPiece(t, r0, r);
      MinifyStep(t, done, r0, r, t[r0..r]);
      done := done + t[r0..r];
    } else {
      CopyOne(a, r, w, t, done);
      MinifyStep(t, done, r, r + 1, [t[r]]);
      done := done + [t[r]];
      r, w := r + 1, w + 1;
    }
  }

  lemma MinifyEnds(a: array<char>, t: string, w: nat, done: string)
    requires Minifying(a, t, |t|, w, done)
    ensures Minified(t) == Some(done) && w == |done| <= |t| && w < a.Length && a[..w] == done && NoNul(done)
  {
    assert t[|t|..] == "" && done + "" == done;
  }

  /** For every text on which the cursors stay inside: the array ends up with the minified
      text and a terminator. */
  method MinifyArray(a: array<char>, ghost t: string)
    requires Holds(a, t) && Minified(t).Some?
    modifies a
    ensures |Minified(t).value| <= |t| && Holds(a, Minified(t).value)
  {
    var r: nat, w: nat := 0, 0;
    ghost var done := "";
    MinifyBegins(a, t);
    MinifyingHead(a, t, r, w, done);
    hide Minifying, Minified, NoNul;
    while a[r] != '\0'
      invariant Minifying(a, t, r, w, done) && r <= |t| < a.Length && w < a.Length && (a[r] == '\0' <==> r == |t|)
      decreases |t| - r
    {
      r, w, done := MinifyTurn(a, r, w, t, done);
      MinifyingHead(a, t, r, w, done);
    }
    MinifyEnds(a, t, w, done);
    a[w] := '\0';
    assert a[..w] == done;
  }

  lemma LiteralPiece(t: string, r: nat, next: nat)
    requires r < |t| && t[r] == '\"' && LiteralEnd(t[r + 1..]).Some? && NoNul(t)
    requires next == r + 1 + LiteralEnd(t[r + 1..]).value
    ensures next <= |t| && Minified(t[r..]) == Cons(t[r..next], Minified(t[next..]))
    ensures NoNul(t[r..next])
  {
    assert t[r..][1..] == t[r + 1..];
    assert t[r..][..next - r] == t[r..next];
    assert t[r..][next - r..] == t[next..];
    forall c | c in t[r..next] ensures c in t {}
  }
}
