/** Byte sequences cut into chunks of one fixed length: where a chunk sits in the
    flat sequence, and how a change inside one chunk shows up in it. */
module Chunks {

  type Byte = b: int | 0 <= b < 256

  /** The number of bytes in `k` chunks of `b`. Written as a sum so that proofs
      about chunk boundaries stay linear. */
  function Span(k: nat, b: nat): (n: nat) {
    if k == 0 then 0 else Span(k - 1, b) + b
  }

  lemma {:induction false} SpanIsProduct(k: nat, b: nat)
    ensures Span(k, b) == k * b
  {
    if k > 0 {
      SpanIsProduct(k - 1, b);
      assert k * b == (k - 1) * b + b;
    }
  }

  lemma {:induction false} SpanMono(i: nat, j: nat, b: nat)
    requires i <= j
    ensures Span(i, b) <= Span(j, b)
    ensures i < j ==> Span(i, b) + b <= Span(j, b)
  {
    if i < j {
      SpanMono(i, j - 1, b);
    }
  }

  /** The offset of byte `x` in its chunk, by counting down; it is `x % b`. */
  function Offset(x: nat, b: nat): (r: nat)
    requires b > 0
    ensures r < b
  {
    if x < b then x else Offset(x - b, b)
  }

  /** A number has one chunk index and one offset below `b`. */
  lemma {:induction false} SpanOffset(k: nat, r: nat, b: nat)
    requires r < b
    ensures Offset(Span(k, b) + r, b) == r
  {
    if k > 0 {
      SpanOffset(k - 1, r, b);
    }
  }

  lemma {:induction false} OffsetShift(d: nat, x: nat, b: nat)
    requires b > 0
    ensures Offset(Span(d, b) + x, b) == Offset(x, b)
  {
    if d > 0 {
      OffsetShift(d - 1, x, b);
    }
  }

  /** Every number is some whole chunks and its offset. */
  function Page(x: nat, b: nat): (k: nat)
    requires b > 0
    ensures x == Span(k, b) + Offset(x, b)
  {
    if x < b then 0 else Page(x - b, b) + 1
  }

  lemma DivModSpan(x: nat, k: nat, r: nat, b: nat)
    requires r < b && x == Span(k, b) + r
    ensures x / b == k && x % b == r
  {
    var q := x / b;
    SpanIsProduct(q, b);
    assert x == Span(q, b) + x % b;
    if k > q {
      SpanMono(q, k, b);
    } else if k < q {
      SpanMono(k, q, b);
    }
  }

  lemma OffsetIsMod(x: nat, b: nat)
    requires b > 0
    ensures Offset(x, b) == x % b && Page(x, b) == x / b
  {
    DivModSpan(x, Page(x, b), Offset(x, b), b);
  }

  /** Rounding up to whole chunks adds less than one chunk. */
  lemma CeilSpan(x: nat, b: nat)
    requires b > 0
    ensures x <= Span((x + b - 1) / b, b) < x + b
  {
    OffsetIsMod(x + b - 1, b);
  }

  lemma {:induction false} SpanAdd(i: nat, j: nat, b: nat)
    ensures Span(i + j, b) == Span(i, b) + Span(j, b)
  {
    if j > 0 {
      SpanAdd(i, j - 1, b);
    }
  }

  /** Moving `n` bytes on from a place in chunk `k0` that has the offset of `p`:
      the offset of `p + n` in the chunk `k` that holds the last of those bytes. */
  lemma OffsetAfter(p: nat, k0: nat, n: nat, k: nat, b: nat)
    requires b > 0 && n > 0 && Span(k0, b) + Offset(p, b) <= p
    requires Span(k, b) < Span(k0, b) + Offset(p, b) + n <= Span(k, b) + b
    ensures Offset(p + n, b) == 0 <==> Span(k0, b) + Offset(p, b) + n == Span(k, b) + b
    ensures Offset(p + n, b) != 0 ==> Span(k, b) + Offset(p + n, b) == Span(k0, b) + Offset(p, b) + n
    ensures Span(k, b) + Offset(p + n, b) <= p + n
  {
    var (top, q) := (Page(p, b), Span(k0, b) + Offset(p, b));
    if k0 > top {
      SpanMono(top, k0, b);
    }
    SpanAdd(top - k0, k0, b);
    OffsetShift(top - k0, q + n, b);
    var r := q + n - Span(k, b);
    if r < b {
      SpanOffset(k, r, b);
    } else {
      SpanOffset(k + 1, 0, b);
    }
  }

  /** The same for a walk that steps on to chunk `k'` when it ends on a boundary:
      the distance between the place and `p` stays the same. */
  lemma OffsetAfterStep(p: nat, k0: nat, n: nat, k': nat, b: nat)
    requires b > 0 && n > 0 && Span(k0, b) + Offset(p, b) <= p
    requires Span(k', b) <= Span(k0, b) + Offset(p, b) + n < Span(k', b) + b
    ensures Span(k', b) + Offset(p + n, b) == Span(k0, b) + Offset(p, b) + n
  {
    if Span(k', b) == Span(k0, b) + Offset(p, b) + n {
      OffsetAfter(p, k0, n, k' - 1, b);
    } else {
      OffsetAfter(p, k0, n, k', b);
    }
  }

  /** Moving on inside a chunk, or to its end. */
  lemma OffsetWithin(p: nat, n: nat, b: nat)
    requires b > 0 && Offset(p, b) + n <= b
    ensures Offset(p + n, b) == if Offset(p, b) + n == b then 0 else Offset(p, b) + n
  {
    var k := Page(p, b);
    if Offset(p, b) + n == b {
      SpanOffset(k + 1, 0, b);
    } else {
      SpanOffset(k, Offset(p, b) + n, b);
    }
  }

  /** Two multiples less than a chunk apart are equal. */
  lemma SameMultiple(x: nat, j: nat, b: nat)
    requires b > 0 && Offset(x, b) == 0 && x <= Span(j, b) < x + b
    ensures x == Span(j, b)
  {
    var k := Page(x, b);
    if k < j {
      SpanMono(k, j, b);
    } else {
      SpanMono(j, k, b);
    }
  }

  /** The bytes from `at` on replaced by `data`. */
  function Overwrite(s: seq<Byte>, at: nat, data: seq<Byte>): (r: seq<Byte>)
    requires at + |data| <= |s|
    ensures |r| == |s|
  {
    seq(|s|, i requires 0 <= i < |s| => if at <= i < at + |data| then data[i - at] else s[i])
  }

  lemma OverwriteIs(s: seq<Byte>, at: nat, data: seq<Byte>)
    requires at + |data| <= |s|
    ensures Overwrite(s, at, data) == s[..at] + data + s[at + |data|..]
  {
  }

  /** Writing the next part of `buf` behind the part already written. */
  lemma OverwriteStep(s: seq<Byte>, at: nat, buf: seq<Byte>, i: nat, n: nat)
    requires i + n <= |buf| && at + |buf| <= |s|
    ensures Overwrite(Overwrite(s, at, buf[..i]), at + i, buf[i..i + n]) == Overwrite(s, at, buf[..i + n])
  {
    var t := Overwrite(s, at, buf[..i]);
    OverwriteIs(s, at, buf[..i]);
    OverwriteIs(t, at + i, buf[i..i + n]);
    OverwriteIs(s, at, buf[..i + n]);
    assert buf[..i] + buf[i..i + n] == buf[..i + n];
  }

  /** An overwrite seen through a window beside it, or around it. */
  lemma OverwriteBeside(s: seq<Byte>, at: nat, data: seq<Byte>, lo: nat, hi: nat)
    requires at + |data| <= |s| && lo <= hi <= |s| && (hi <= at || at + |data| <= lo)
    ensures Overwrite(s, at, data)[lo..hi] == s[lo..hi]
  {
    OverwriteIs(s, at, data);
  }

  lemma OverwriteAround(s: seq<Byte>, at: nat, data: seq<Byte>, lo: nat, hi: nat)
    requires lo <= at && at + |data| <= hi <= |s|
    ensures Overwrite(s, at, data)[lo..hi] == Overwrite(s[lo..hi], at - lo, data)
  {
    OverwriteIs(s, at, data);
    OverwriteIs(s[lo..hi], at - lo, data);
  }

  /** Chunk `k` of a flat sequence; nothing if it is not all there. */
  function Chunk(flat: seq<Byte>, k: nat, b: nat): (c: seq<Byte>) {
    if Span(k, b) + b <= |flat| then flat[Span(k, b)..Span(k, b) + b] else []
  }

  lemma SliceOfChunk(flat: seq<Byte>, k: nat, off: nat, len: nat, b: nat)
    requires off + len <= b && Span(k, b) + b <= |flat|
    ensures Chunk(flat, k, b)[off..off + len] == flat[Span(k, b) + off..Span(k, b) + off + len]
  {
  }

  lemma SliceJoin(s: seq<Byte>, lo: nat, mid: nat, hi: nat)
    requires lo <= mid <= hi <= |s|
    ensures s[lo..mid] + s[mid..hi] == s[lo..hi]
  {
  }

  lemma SliceOfArray(a: array<Byte>, off: nat, len: nat)
    requires off + len <= a.Length
    ensures a[off..off + len] == a[..][off..off + len]
  {
  }

  /** Writing inside chunk `k` changes that chunk and no other. */
  lemma OverwriteChunk(flat: seq<Byte>, k: nat, off: nat, data: seq<Byte>, b: nat)
    requires off + |data| <= b && Span(k, b) + b <= |flat|
    ensures Chunk(Overwrite(flat, Span(k, b) + off, data), k, b) == Overwrite(Chunk(flat, k, b), off, data)
  {
    OverwriteAround(flat, Span(k, b) + off, data, Span(k, b), Span(k, b) + b);
  }

  lemma OverwriteOtherChunk(flat: seq<Byte>, k: nat, off: nat, data: seq<Byte>, b: nat, i: nat)
    requires off + |data| <= b && Span(k, b) + b <= |flat| && i != k
    ensures Chunk(Overwrite(flat, Span(k, b) + off, data), i, b) == Chunk(flat, i, b)
  {
    if Span(i, b) + b <= |flat| {
      SpanMono(if i < k then i else k, if i < k then k else i, b);
      OverwriteBeside(flat, Span(k, b) + off, data, Span(i, b), Span(i, b) + b);
    }
  }

  lemma OverwriteOtherChunks(flat: seq<Byte>, k: nat, off: nat, data: seq<Byte>, b: nat, after: seq<Byte>)
    requires off + |data| <= b && Span(k, b) + b <= |flat| && after == Overwrite(flat, Span(k, b) + off, data)
    ensures forall i: nat {:trigger Chunk(flat, i, b)} {:trigger Chunk(after, i, b)} | i != k ::
              Chunk(after, i, b) == Chunk(flat, i, b)
  {
    forall i: nat | i != k ensures Chunk(after, i, b) == Chunk(flat, i, b) {
      OverwriteOtherChunk(flat, k, off, data, b, i);
    }
  }

  /** One more chunk at the end leaves the others alone. */
  lemma ChunkAppend(flat: seq<Byte>, p: seq<Byte>, count: nat, b: nat)
    requires b > 0 && |flat| == Span(count, b) && |p| == b
    ensures |flat + p| == Span(count + 1, b)
    ensures forall i {:trigger Chunk(flat, i, b)} {:trigger Chunk(flat + p, i, b)} | 0 <= i < count ::
              Chunk(flat + p, i, b) == Chunk(flat, i, b)
    ensures Chunk(flat + p, count, b) == p
  {
    forall i | 0 <= i < count ensures Chunk(flat + p, i, b) == Chunk(flat, i, b) {
      SpanMono(i + 1, count, b);
    }
  }
}
