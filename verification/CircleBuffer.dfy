/** The circular byte buffer (`cb.c`), run by one thread, as a bounded queue of bytes. */
module CircleBuffer {

  type byte = x: int | 0 <= x < 0x100
  type int32 = x: int | -0x8000_0000 <= x < 0x8000_0000

  /** Conversion to, and arithmetic in, 32-bit unsigned integers. */
  function U32(x: int): nat {
    x % 0x1_0000_0000
  }

  function S32(x: nat): int32
    requires x < 0x1_0000_0000
  {
    if x < 0x8000_0000 then x else x - 0x1_0000_0000
  }

  lemma S32Back(x: nat)
    requires x < 0x1_0000_0000
    ensures U32(S32(x)) == x
  {
  }

  function Min(a: nat, b: nat): (r: nat)
    ensures r <= a && r <= b && (r == a || r == b)
  {
    if a < b then a else b
  }

  /** A call that asks for `asked` bytes gets as many, or all that are there if those are fewer; asking for a
      negative number is asking for all. */
  predicate Granted(n: nat, asked: int, there: nat) {
    n <= there && (0 <= asked ==> n <= asked) && (n == asked || n == there)
  }

  /** The conversion makes a negative length larger than any buffer. */
  lemma MinGrants(asked: int32, there: nat)
    requires there <= 0x8000_0000
    ensures Granted(Min(U32(asked), there), asked, there)
    ensures U32(asked) == if 0 <= asked then asked else asked + 0x1_0000_0000
  {
    if asked >= 0 { SmallRemainder(asked, 0x1_0000_0000); } else { SmallRemainder(asked + 0x1_0000_0000, 0x1_0000_0000); }
  }

  /** The bytes held in a ring, oldest first. */
  function Ring(buf: seq<byte>, readpos: nat, datalen: nat): (r: seq<byte>)
    requires readpos < |buf| && datalen <= |buf|
    ensures |r| == datalen
  {
    if readpos + datalen <= |buf| then buf[readpos..readpos + datalen]
    else buf[readpos..] + buf[..readpos + datalen - |buf|]
  }

  /** Where the byte after `pos` steps from `from` lives. */
  function Wrap(buflen: nat, from: nat, steps: nat): nat
    requires 0 < buflen && from < buflen && steps <= buflen
  {
    if from + steps < buflen then from + steps else from + steps - buflen
  }

  /** The 32-bit sum of a position and a length leads to the right position. */
  predicate SumExact(buflen: nat, pos: nat, n: nat)
    requires 0 < buflen
  {
    U32(pos + n) % buflen == (pos + n) % buflen
  }

  /** It does so for every position and length exactly for buffers of at most 2^31 bytes. */
  lemma PositionsNeverWrap(buflen: nat)
    requires 0 < buflen < 0x1_0000_0000
    ensures (forall pos: nat, n: nat :: pos < buflen && n <= buflen ==> SumExact(buflen, pos, n))
            <==> buflen <= 0x8000_0000
  {
    if buflen > 0x8000_0000 {
      SumWraps(buflen);
      assert !SumExact(buflen, buflen - 1, buflen);
    } else {
      forall pos: nat, n: nat | pos < buflen && n <= buflen
        ensures SumExact(buflen, pos, n)
      {
        assert U32(pos + n) == pos + n;
      }
    }
  }

  lemma SumWraps(buflen: nat)
    requires 0x8000_0000 < buflen < 0x1_0000_0000
    ensures !SumExact(buflen, buflen - 1, buflen)
  {
    var sum := buflen - 1 + buflen;
    assert U32(sum) == sum - 0x1_0000_0000;
    assert U32(sum) % buflen == U32(sum);
    OneTurn(buflen, buflen - 1);
  }

  lemma OneTurn(buflen: nat, r: nat)
    requires r < buflen
    ensures (r + buflen) % buflen == r
  {
    assert r + buflen == 1 * buflen + r;
  }

  lemma SmallRemainder(x: nat, m: nat)
    requires x < m
    ensures x % m == x
  {
  }

  /** A position moved forward, in 32-bit arithmetic. */
  function Forward(buflen: nat, pos: nat, n: nat): nat
    requires 0 < buflen
  {
    U32(pos + n) % buflen
  }

  lemma U32Small(x: nat)
    requires x < 0x1_0000_0000
    ensures U32(x) == x
  {
  }

  lemma Advance(buflen: nat, pos: nat, n: nat)
    requires 0 < buflen <= 0x8000_0000 && pos < buflen && n <= buflen
    ensures Forward(buflen, pos, n) == Wrap(buflen, pos, n)
  {
    SmallRemainder(pos + n, 0x1_0000_0000);
    if pos + n < buflen {
      SmallRemainder(pos + n, buflen);
    } else {
      OneTurn(buflen, pos + n - buflen);
    }
  }

  // ----- what the copies do to the ring

  lemma RingDropAt(buf: seq<byte>, readpos: nat, datalen: nat, n: nat, i: nat)
    requires readpos < |buf| && n <= datalen <= |buf| && n < |buf| && i < datalen - n
    ensures Wrap(|buf|, readpos, n) < |buf|
    ensures Ring(buf, Wrap(|buf|, readpos, n), datalen - n)[i] == Ring(buf, readpos, datalen)[n + i]
  {
    hide *;
    WrapWrap(|buf|, readpos, n, i);
    RingAt(buf, Wrap(|buf|, readpos, n), datalen - n, i);
    RingAt(buf, readpos, datalen, n + i);
  }

  /** Dropping the oldest bytes is moving the read position. */
  lemma RingDrop(buf: seq<byte>, readpos: nat, datalen: nat, n: nat)
    requires readpos < |buf| && n <= datalen <= |buf|
    ensures Ring(buf, Wrap(|buf|, readpos, n), datalen - n) == Ring(buf, readpos, datalen)[n..]
    ensures Wrap(|buf|, Wrap(|buf|, readpos, n), datalen - n) == Wrap(|buf|, readpos, datalen)
  {
    hide *;
    if n < |buf| {
      WrapWrap(|buf|, readpos, n, datalen - n);
      var r, all := Ring(buf, Wrap(|buf|, readpos, n), datalen - n), Ring(buf, readpos, datalen);
      forall i | 0 <= i < datalen - n ensures r[i] == all[n..][i] { RingDropAt(buf, readpos, datalen, n, i); }
      assert r == all[n..];
    } else {
      WrapFull(|buf|, readpos);
    }
  }

  lemma WrapFull(buflen: nat, readpos: nat)
    requires readpos < buflen
    ensures Wrap(buflen, readpos, buflen) == readpos && Wrap(buflen, readpos, 0) == readpos
  {
  }

  lemma RingTake(buf: seq<byte>, readpos: nat, datalen: nat, n: nat)
    requires readpos < |buf| && n <= datalen <= |buf|
    ensures Ring(buf, readpos, datalen)[..n] ==
            if readpos + n <= |buf| then buf[readpos..readpos + n]
            else buf[readpos..] + buf[..n - (|buf| - readpos)]
  {
  }

  /** Bytes replaced from position `at` on. */
  function Spliced(buf: seq<byte>, at: nat, src: seq<byte>): (r: seq<byte>)
    requires at + |src| <= |buf|
    ensures |r| == |buf|
  {
    buf[..at] + src + buf[at + |src|..]
  }

  /** The ring after `data` was stored at `writepos` in one or two pieces. */
  function Stored(buf: seq<byte>, writepos: nat, data: seq<byte>): (r: seq<byte>)
    requires writepos < |buf| && |data| <= |buf|
    ensures |r| == |buf|
  {
    if writepos + |data| <= |buf| then Spliced(buf, writepos, data)
    else
      var tail := |buf| - writepos;
      Spliced(Spliced(buf, writepos, data[..tail]), 0, data[tail..])
  }

  lemma RingAt(buf: seq<byte>, readpos: nat, datalen: nat, i: nat)
    requires readpos < |buf| && i < datalen <= |buf|
    ensures Wrap(|buf|, readpos, i) < |buf|
    ensures Ring(buf, readpos, datalen)[i] == buf[Wrap(|buf|, readpos, i)]
  {
  }

  /** New bytes sit from `writepos` on, around the end; the others are where they were. */
  lemma StoredAt(buf: seq<byte>, writepos: nat, data: seq<byte>, i: nat)
    requires writepos < |buf| && |data| <= |buf| && i < |buf|
    ensures Wrap(|buf|, writepos, i) < |buf|
    ensures Stored(buf, writepos, data)[Wrap(|buf|, writepos, i)] ==
            if i < |data| then data[i] else buf[Wrap(|buf|, writepos, i)]
  {
    var p := Wrap(|buf|, writepos, i);
    var tail := |buf| - writepos;
    assert p == if i < tail then writepos + i else i - tail;
    StoredPieces(buf, writepos, data);
    hide Spliced, Stored, Wrap;
    if |data| > tail {
      var once := Spliced(buf, writepos, data[..tail]);
      SplicedAt(buf, writepos, data[..tail], p);
      SplicedAt(once, 0, data[tail..], p);
    } else {
      SplicedAt(buf, writepos, data, p);
    }
  }

  lemma SplicedAt(buf: seq<byte>, at: nat, src: seq<byte>, p: nat)
    requires at + |src| <= |buf| && p < |buf|
    ensures Spliced(buf, at, src)[p] == if at <= p < at + |src| then src[p - at] else buf[p]
  {
  }

  lemma WrapWrap(buflen: nat, readpos: nat, a: nat, b: nat)
    requires readpos < buflen && a < buflen && b <= buflen
    ensures Wrap(buflen, readpos, a) < buflen
    ensures a + b <= buflen ==> Wrap(buflen, Wrap(buflen, readpos, a), b) == Wrap(buflen, readpos, a + b)
    ensures a + b >= buflen ==> Wrap(buflen, Wrap(buflen, readpos, a), b) == Wrap(buflen, readpos, a + b - buflen)
  {
  }

  lemma RingStoreAt(buf: seq<byte>, readpos: nat, datalen: nat, data: seq<byte>, i: nat)
    requires readpos < |buf| && datalen < |buf| && datalen + |data| <= |buf|
    requires i < datalen + |data|
    ensures Wrap(|buf|, readpos, datalen) < |buf|
    ensures Ring(Stored(buf, Wrap(|buf|, readpos, datalen), data), readpos, datalen + |data|)[i]
         == (Ring(buf, readpos, datalen) + data)[i]
  {
    hide Ring, Stored, Wrap;
    WrapWrap(|buf|, readpos, datalen, 0);
    var w := Wrap(|buf|, readpos, datalen);
    RingAt(Stored(buf, w, data), readpos, datalen + |data|, i);
    if i < datalen {
      RingAt(buf, readpos, datalen, i);
      StoredAt(buf, w, data, |buf| - datalen + i);
      WrapWrap(|buf|, readpos, datalen, |buf| - datalen + i);
    } else {
      StoredAt(buf, w, data, i - datalen);
      WrapWrap(|buf|, readpos, datalen, i - datalen);
    }
  }

  /** Storing bytes behind the ring appends them to the queue. */
  lemma RingStore(buf: seq<byte>, readpos: nat, datalen: nat, data: seq<byte>)
    requires readpos < |buf| && datalen < |buf| && datalen + |data| <= |buf|
    ensures Wrap(|buf|, readpos, datalen) < |buf|
    ensures Ring(Stored(buf, Wrap(|buf|, readpos, datalen), data), readpos, datalen + |data|)
         == Ring(buf, readpos, datalen) + data
    ensures Wrap(|buf|, Wrap(|buf|, readpos, datalen), |data|) == Wrap(|buf|, readpos, datalen + |data|)
  {
    hide Ring, Stored, Wrap;
    WrapWrap(|buf|, readpos, datalen, |data|);
    forall i | 0 <= i < datalen + |data|
      ensures Ring(Stored(buf, Wrap(|buf|, readpos, datalen), data), readpos, datalen + |data|)[i]
           == (Ring(buf, readpos, datalen) + data)[i]
    {
      RingStoreAt(buf, readpos, datalen, data, i);
    }
  }

  lemma SplicedFront(buf: seq<byte>, a: seq<byte>)
    requires |a| <= |buf|
    ensures Spliced(buf, 0, a) == a + buf[|a|..]
  {
  }

  lemma SplicedTwice(buf: seq<byte>, a: seq<byte>, b: seq<byte>)
    requires |a| + |b| <= |buf|
    ensures Spliced(Spliced(buf, 0, a), |a|, b) == (a + b) + buf[|a| + |b|..]
  {
  }

  /** `memcpy` into an array. */
  method Copy(dst: array<byte>, at: nat, src: seq<byte>)
    requires at + |src| <= dst.Length
    modifies dst
    ensures dst[..] == Spliced(old(dst[..]), at, src)
  {
    forall i | 0 <= i < |src| {
      dst[at + i] := src[i];
    }
  }

  /** One copy to the front of the caller's array. */
  method CopyFront(dst: array<byte>, a: seq<byte>)
    requires |a| <= dst.Length
    modifies dst
    ensures dst[..] == a + old(dst[..])[|a|..]
  {
    SplicedFront(dst[..], a);
    hide Spliced;
    Copy(dst, 0, a);
  }

  /** Two copies, one behind the other. */
  method CopyBoth(dst: array<byte>, a: seq<byte>, b: seq<byte>)
    requires |a| + |b| <= dst.Length
    modifies dst
    ensures dst[..] == (a + b) + old(dst[..])[|a| + |b|..]
  {
    SplicedTwice(dst[..], a, b);
    hide Spliced;
    Copy(dst, 0, a);
    Copy(dst, |a|, b);
  }

  /** A copy up to the end of the ring and the rest at its start. */
  method CopyAround(dst: array<byte>, at: nat, data: seq<byte>, tail: nat)
    requires at < dst.Length && tail == dst.Length - at && tail <= |data| <= dst.Length
    modifies dst
    ensures dst[..] == Spliced(Spliced(old(dst[..]), at, data[..tail]), 0, data[tail..])
  {
    hide Spliced;
    Copy(dst, at, data[..tail]);
    Copy(dst, 0, data[tail..]);
  }

  /** What storing behind the queued bytes and moving the position does. */
  lemma WriteEffect(buf: seq<byte>, readpos: nat, datalen: nat, writepos: nat, data: seq<byte>)
    requires 0 < |buf| <= 0x8000_0000 && readpos < |buf| && datalen < |buf| && datalen + |data| <= |buf|
    requires writepos == Wrap(|buf|, readpos, datalen)
    ensures writepos < |buf| && |Stored(buf, writepos, data)| == |buf|
    ensures Ring(Stored(buf, writepos, data), readpos, datalen + |data|) == Ring(buf, readpos, datalen) + data
    ensures Forward(|buf|, writepos, |data|) == Wrap(|buf|, readpos, datalen + |data|)
    ensures U32(datalen + |data|) == datalen + |data|
  {
    hide U32, Forward, Ring, Stored, Wrap;
    U32Small(datalen + |data|);
    RingStore(buf, readpos, datalen, data);
    Advance(|buf|, writepos, |data|);
  }

  /** Moving the read position over the oldest bytes. */
  lemma DropEffect(buf: seq<byte>, readpos: nat, datalen: nat, n: nat)
    requires 0 < |buf| <= 0x8000_0000 && readpos < |buf| && n <= datalen <= |buf|
    ensures var r := Forward(|buf|, readpos, n);
            && r < |buf| && U32(datalen - n) == datalen - n
            && Ring(buf, r, datalen - n) == Ring(buf, readpos, datalen)[n..]
            && Wrap(|buf|, r, datalen - n) == Wrap(|buf|, readpos, datalen)
  {
    Advance(|buf|, readpos, n);
    U32Small(datalen - n);
    RingDrop(buf, readpos, datalen, n);
    hide U32, Forward, Ring;
  }

  /** The free bytes are one span if the write position is behind the read position. */
  lemma FreeSpan(buflen: nat, readpos: nat, datalen: nat)
    requires readpos < buflen && datalen <= buflen
    ensures var w := Wrap(buflen, readpos, datalen); w < buflen && (w < readpos ==> w + (buflen - datalen) <= buflen)
  {
  }

  lemma StoredPieces(buf: seq<byte>, writepos: nat, data: seq<byte>)
    requires writepos < |buf| && |data| <= |buf|
    ensures writepos + |data| <= |buf| ==> Stored(buf, writepos, data) == Spliced(buf, writepos, data)
    ensures writepos + |data| > |buf| ==>
      var tail := |buf| - writepos;
      Stored(buf, writepos, data) == Spliced(Spliced(buf, writepos, data[..tail]), 0, data[tail..])
  {
    hide Spliced;
  }

  class Manager {
    var bufptr: array<byte>
    var buflen: nat
    var datalen: nat
    var readpos: nat
    var writepos: nat

    ghost predicate Valid()
      reads this, bufptr
    {
      && bufptr.Length == buflen && 0 < buflen <= 0x8000_0000
      && readpos < buflen && datalen <= buflen
      && writepos == Wrap(buflen, readpos, datalen)
    }

    /** The queued bytes, oldest first. */
    ghost function Contents(): (r: seq<byte>)
      requires Valid()
      reads this, bufptr
      ensures |r| == datalen
    {
      Ring(bufptr[..], readpos, datalen)
    }

    /** `cb_init` for a size it accepts. */
    constructor (size: nat)
      requires 0 < size <= 0x8000_0000
      ensures Valid() && fresh(bufptr) && buflen == size && Contents() == []
    {
      bufptr := new byte[size](_ => 0);
      buflen, datalen, readpos, writepos := size, 0, 0, 0;
    }

    predicate Full()
      reads this
    {
      buflen == datalen
    }

    predicate Empty()
      reads this
    {
      datalen == 0
    }

    method Clear()
      requires Valid()
      modifies this`readpos, this`writepos, this`datalen
      ensures Valid() && Contents() == []
    {
      readpos, writepos, datalen := 0, 0, 0;
    }

    /** `cb_write`: a negative length reads as a very large one. */
    method Write(data: seq<byte>, datlen: int32) returns (n: nat)
      requires Valid()
      requires Min(U32(datlen), buflen - datalen) <= |data|
      modifies this`writepos, this`datalen, bufptr
      ensures Valid()
      ensures n == Min(U32(datlen), old(buflen - datalen)) && Granted(n, datlen, old(buflen - datalen))
      ensures Contents() == old(Contents()) + data[..n]
    {
      assert data[..0] == [];
      MinGrants(datlen, buflen - datalen);
      if Full() { return 0; }
      U32Small(buflen - datalen);
      hide U32, Ring, Wrap;
      var tmplen := U32(buflen - datalen);
      n := if tmplen > U32(datlen) then U32(datlen) else tmplen;
      Put(data[..n]);
    }

    /** The copies, and the new position and length. */
    method Put(data: seq<byte>)
      requires Valid() && datalen < buflen && |data| <= buflen - datalen
      modifies this`writepos, this`datalen, bufptr
      ensures Valid() && Contents() == old(Contents()) + data
    {
      hide *;
      ValidIs();
      WriteEffect(bufptr[..], readpos, datalen, writepos, data);
      CopyIn(data);
      writepos := Forward(buflen, writepos, |data|);
      datalen := U32(datalen + |data|);
      ValidBy();
    }

    lemma ValidIs()
      requires Valid()
      ensures bufptr.Length == buflen && 0 < buflen <= 0x8000_0000 && readpos < buflen && datalen <= buflen && writepos < buflen
      ensures writepos == Wrap(buflen, readpos, datalen) && Contents() == Ring(bufptr[..], readpos, datalen)
    {
      hide Ring;
    }

    lemma ValidBy()
      requires bufptr.Length == buflen && 0 < buflen <= 0x8000_0000 && readpos < buflen && datalen <= buflen
      requires writepos == Wrap(buflen, readpos, datalen)
      ensures Valid() && Contents() == Ring(bufptr[..], readpos, datalen)
    {
      hide Ring, Wrap;
    }

    /** The one or two copies into the ring. */
    method CopyIn(data: seq<byte>)
      requires Valid() && |data| <= buflen - datalen
      modifies bufptr
      ensures bufptr[..] == Stored(old(bufptr[..]), writepos, data)
    {
      hide Ring, U32, Spliced, Stored, Wrap;
      FreeSpan(buflen, readpos, datalen);
      U32Small(buflen - writepos);
      StoredPieces(bufptr[..], writepos, data);
      if writepos < readpos {
        Copy(bufptr, writepos, data);
      } else {
        var tmplen := U32(buflen - writepos);
        if |data| <= tmplen {
          Copy(bufptr, writepos, data);
        } else {
          CopyAround(bufptr, writepos, data, tmplen);
        }
      }
    }

    /** `cb_read_no_offset`: look at the oldest bytes and leave them queued. */
    method Peek(outbuf: array?<byte>, len: int32) returns (n: nat)
      requires Valid() && outbuf != bufptr
      requires outbuf != null ==> Min(U32(len), datalen) <= outbuf.Length
      modifies outbuf
      ensures Valid() && Contents() == old(Contents())
      ensures n == Min(U32(len), datalen) && Granted(n, len, datalen)
      ensures outbuf != null ==> outbuf[..] == Contents()[..n] + old(outbuf[..])[n..]
    {
      MinGrants(len, datalen);
      if Empty() { return 0; }
      hide U32;
      n := if U32(len) > datalen then datalen else U32(len);
      CopyOut(outbuf, n);
    }

    /** The one or two copies out of the ring. */
    method CopyOut(outbuf: array?<byte>, n: nat)
      requires Valid() && outbuf != bufptr && n <= datalen
      requires outbuf != null ==> n <= outbuf.Length
      modifies outbuf
      ensures bufptr[..] == old(bufptr[..])
      ensures outbuf != null ==> outbuf[..] == old(Contents()[..n]) + old(outbuf[..])[n..]
    {
      if outbuf == null { return; }
      U32Small(buflen - readpos);
      RingTake(bufptr[..], readpos, datalen, n);
      ghost var taken := Contents()[..n];
      hide U32, Ring, Wrap, Contents, Valid;
      var tmplen := U32(buflen - readpos);
      if n <= tmplen {
        assert taken == bufptr[..][readpos..readpos + n];
        CopyFront(outbuf, bufptr[..][readpos..readpos + n]);
      } else {
        assert taken == bufptr[..][readpos..] + bufptr[..][..n - tmplen];
        CopyBoth(outbuf, bufptr[..][readpos..], bufptr[..][..n - tmplen]);
      }
    }

    /** `cb_read`: take the oldest bytes; without a buffer they are dropped. */
    method Read(outbuf: array?<byte>, len: int32) returns (n: nat)
      requires Valid() && outbuf != bufptr
      requires outbuf != null ==> Min(U32(len), datalen) <= outbuf.Length
      modifies this`readpos, this`datalen, outbuf
      ensures Valid()
      ensures n == Min(U32(len), old(datalen)) && Granted(n, len, old(datalen))
      ensures outbuf != null ==> outbuf[..] == old(Contents())[..n] + old(outbuf[..])[n..]
      ensures Contents() == old(Contents())[n..]
    {
      MinGrants(len, datalen);
      if Empty() { return 0; }
      hide U32, Ring, Wrap;
      n := if U32(len) > datalen then datalen else U32(len);
      CopyOut(outbuf, n);
      Drop(n);
    }

    /** The read position moves and the length shrinks. */
    method Drop(n: nat)
      requires Valid() && n <= datalen
      modifies this`readpos, this`datalen
      ensures Valid() && Contents() == old(Contents())[n..]
    {
      DropEffect(bufptr[..], readpos, datalen, n);
      hide U32, Forward, Ring, Wrap;
      readpos := Forward(buflen, readpos, n);
      datalen := U32(datalen - n);
    }

    /** `cb_read_move_offset`: drop the oldest bytes. */
    method Skip(offset: int32)
      requires Valid()
      modifies this`readpos, this`datalen
      ensures Valid()
      ensures Contents() == old(Contents())[Min(U32(offset), old(datalen))..]
      ensures Contents() == if 0 <= offset < old(datalen) then old(Contents())[offset..] else []
    {
      MinGrants(offset, datalen);
      var len := datalen;
      if len <= U32(offset) {
        readpos := writepos;
        datalen := 0;
      } else {
        hide U32, Ring, Wrap;
        Drop(U32(offset));
      }
    }

    /** Looking and then dropping as much as was seen is reading. */
    method PeekThenSkip(outbuf: array?<byte>, len: int32) returns (n: nat)
      requires Valid() && outbuf != bufptr
      requires outbuf != null ==> Min(U32(len), datalen) <= outbuf.Length
      modifies this`readpos, this`datalen, outbuf
      ensures Valid()
      ensures n == Min(U32(len), old(datalen)) && Granted(n, len, old(datalen))
      ensures outbuf != null ==> outbuf[..] == old(Contents())[..n] + old(outbuf[..])[n..]
      ensures Contents() == old(Contents())[n..]
    {
      n := Peek(outbuf, len);
      S32Back(n);
      hide U32, Ring;
      Skip(S32(n));
    }
  }
}
