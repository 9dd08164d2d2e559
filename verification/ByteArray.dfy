/** The chunked byte buffer: a singly linked chain of equal-size nodes with a
    cursor, proved to behave like one flat byte sequence with a position. */
module ByteArrays {
  import opened Chunks

  /** How a call ends: with a value, with `std::out_of_range` thrown, or by
      dereferencing a null `m_cur`. */
  datatype Outcome<+T> = Ok(value: T) | OutOfRange | NullCursor

  const WORD: nat := 0x1_0000_0000_0000_0000

  /** `size - p` in 64 bits, for a place `p` at or beyond the size too. */
  function Left(size: nat, p: nat): nat {
    if p <= size then size - p else (size - p) % WORD
  }

  function Max(x: nat, y: nat): nat { if x < y then y else x }

  function Min(x: nat, y: nat): nat { if x < y then x else y }

  /** How `writeToFile` ends: with the bytes it sent, with a negative length handed to
      the stream, or by running off the end of the chain. */
  datatype FileOutcome = Sent(bytes: seq<Byte>) | NegativeLength | NullNode

  /** `after` is `before`, perhaps grown at its end, with `data` written at `at`:
      every other byte of `before` is still there. */
  ghost predicate Patched(before: seq<Byte>, at: nat, data: seq<Byte>, after: seq<Byte>) {
    && at <= |before| <= |after| && at + |data| <= |after|
    && after[at..at + |data|] == data
    && after[..at] == before[..at]
    && (at + |data| < |before| ==> after[at + |data|..|before|] == before[at + |data|..])
  }

  lemma PatchedByOverwrite(before: seq<Byte>, grown: seq<Byte>, at: nat, data: seq<Byte>)
    requires before <= grown && at <= |before| && at + |data| <= |grown|
    ensures Patched(before, at, data, Overwrite(grown, at, data))
  {
    OverwriteIs(grown, at, data);
  }

  lemma PatchedEnd(before: seq<Byte>, at: nat, data: seq<Byte>, after: seq<Byte>)
    requires Patched(before, at, data, after)
    ensures after[..at + |data|] == before[..at] + data
  {
    SliceJoin(after, 0, at, at + |data|);
  }

  /** A cursor on node `k` of a chain of `cap` bytes is in step with position `p`.
      At the end of the chain any cursor will do: nothing can be read there and
      growth moves the cursor. */
  ghost predicate InStep(p: nat, cap: nat, k: nat, b: nat)
    requires b > 0
  {
    p == cap || Span(k, b) + Offset(p, b) == p
  }

  /** A write of `n` bytes leaves the cursor on the node of the last byte written.
      That is in step exactly when the write ends inside a node, or at or beyond the
      old end of the chain. */
  lemma InStepAfterWrite(p: nat, k0: nat, n: nat, k: nat, b: nat, oldCap: nat, count: nat)
    requires b > 0 && n > 0 && Span(k0, b) + Offset(p, b) == p
    requires Span(k, b) < p + n <= Span(k, b) + b
    requires if p + n <= oldCap then Span(count, b) == oldCap else p + n <= Span(count, b) < p + n + b
    ensures InStep(p + n, Span(count, b), k, b) <==> Offset(p + n, b) != 0 || p + n >= oldCap
  {
    OffsetAfter(p, k0, n, k, b);
    if Offset(p + n, b) == 0 && p + n >= oldCap {
      SameMultiple(p + n, count, b);
    }
  }

  /** A chain no longer than its bytes need has no boundary strictly between
      them and its end. */
  lemma NoSpareBoundary(p: nat, n: nat, count: nat, b: nat)
    requires b > 0 && n > 0 && (count == 1 || Span(count, b) < p + b) && Offset(p + n, b) == 0
    ensures p + n >= Span(count, b)
  {
    assert Span(1, b) == b;
    if count != 1 && p + n < Span(count, b) {
      SameMultiple(p + n, count, b);
    }
  }

  class Node {
    const size: nat
    const ptr: array<Byte>
    var next: Node?
    ghost const index: nat  // its place in the chain

    constructor (s: nat, ghost k: nat)
      ensures size == s && ptr.Length == s && next == null && fresh(ptr) && index == k
    {
      size := s;
      index := k;
      ptr := new Byte[s];
      next := null;
    }
  }

  /** `memcpy` into a node's memory. */
  method CopyInto(dst: array<Byte>, off: nat, src: seq<Byte>)
    requires off + |src| <= dst.Length
    modifies dst
    ensures dst[..] == Overwrite(old(dst[..]), off, src)
  {
    forall i | 0 <= i < |src| {
      dst[off + i] := src[i];
    }
    OverwriteIs(old(dst[..]), off, src);
  }

  /** A stretch of a node's memory handed to the kernel. */
  datatype Iovec = Iovec(base: array<Byte>, off: nat, len: nat)

  ghost predicate InBounds(vs: seq<Iovec>) {
    forall i | 0 <= i < |vs| :: vs[i].off + vs[i].len <= vs[i].base.Length
  }

  /** The bytes a scatter/gather list shows, in order. */
  ghost function View(vs: seq<Iovec>): (bytes: seq<Byte>)
    requires InBounds(vs)
    reads set i | 0 <= i < |vs| :: vs[i].base
  {
    if vs == [] then [] else vs[0].base[vs[0].off..vs[0].off + vs[0].len] + View(vs[1..])
  }

  lemma ViewCons(v: Iovec, vs: seq<Iovec>)
    requires v.off + v.len <= v.base.Length && InBounds(vs)
    ensures InBounds([v] + vs)
    ensures View([v] + vs) == v.base[v.off..v.off + v.len] + View(vs)
  {
    assert ([v] + vs)[1..] == vs;
  }

  /** The list for `len` bytes from byte `off` of node `k` on: the rest of that node,
      then whole nodes, then the start of a last one. */
  ghost function Iovecs(ns: seq<Node>, k: nat, off: nat, len: nat, b: nat): (vs: seq<Iovec>)
    requires off < b
    decreases len
  {
    if len == 0 || k >= |ns| then []
    else [Iovec(ns[k].ptr, off, Min(len, b - off))] + Iovecs(ns, k + 1, 0, len - Min(len, b - off), b)
  }

  lemma IovecsStep(ns: seq<Node>, k: nat, off: nat, len: nat, b: nat)
    requires off < b && len > 0 && k < |ns|
    ensures Iovecs(ns, k, off, len, b)
         == [Iovec(ns[k].ptr, off, Min(len, b - off))] + Iovecs(ns, k + 1, 0, len - Min(len, b - off), b)
    ensures len <= b - off ==> Iovecs(ns, k, off, len, b) == [Iovec(ns[k].ptr, off, len)]
  {
  }

  lemma IovecsTail(vs: seq<Iovec>, i: nat, ns: seq<Node>, k: nat, off: nat, len: nat, b: nat)
    requires off < b && len > 0 && k < |ns| && i <= |vs| && vs[i..] == Iovecs(ns, k, off, len, b)
    ensures i < |vs| && vs[i] == Iovec(ns[k].ptr, off, Min(len, b - off))
    ensures vs[i + 1..] == Iovecs(ns, k + 1, 0, len - Min(len, b - off), b)
  {
    IovecsStep(ns, k, off, len, b);
    assert vs[i] == vs[i..][0] && vs[i + 1..] == vs[i..][1..];
  }

  class ByteArray {
    const baseSize: nat
    var position: nat
    var capacity: nat
    var size: nat
    var littleEndian: bool
    var root: Node
    var cur: Node?

    ghost var flat: seq<Byte>   // the byte sequence the chain stands for
    ghost var nodes: seq<Node>  // the chain from root on
    ghost var at: nat           // where cur is in the chain, when it is not null
    ghost var Repr: set<object>

    /** The chain is well formed and holds `flat`, chunk by chunk. */
    ghost predicate Linked()
      reads this`flat, this`nodes, this`root, this`capacity, this`Repr, Repr
    {
      && this !in Repr
      && baseSize > 0
      && |nodes| > 0 && nodes[0] == root
      && (forall i | 0 <= i < |nodes| ::
            nodes[i] in Repr && nodes[i].ptr in Repr && nodes[i].index == i
            && nodes[i].size == baseSize == nodes[i].ptr.Length)
      && (forall i, j | 0 <= i < j < |nodes| :: nodes[i].ptr != nodes[j].ptr)
      && (forall i {:trigger nodes[i].next} | 0 <= i < |nodes| - 1 :: nodes[i].next == nodes[i + 1])
      && nodes[|nodes| - 1].next == null
      && capacity == Span(|nodes|, baseSize) == |flat|
      && (forall i {:trigger Chunk(flat, i, baseSize)} {:trigger nodes[i].ptr[..]} | 0 <= i < |nodes| ::
            nodes[i].ptr[..] == Chunk(flat, i, baseSize))
    }

    /** A null cursor is only ever left at the very end of the chain; a cursor
        node never lies beyond the position it stands for. */
    ghost predicate CursorOk()
      reads this
    {
      if cur == null then position == capacity
      else at < |nodes| && cur == nodes[at] && baseSize > 0 && Physical() <= position
    }

    ghost predicate Valid()
      reads this, Repr
    {
      Linked() && position <= size <= capacity && CursorOk()
    }

    /** The byte the cursor really points at. */
    ghost function Physical(): nat
      requires baseSize > 0
      reads this
    {
      Span(at, baseSize) + Offset(position, baseSize)
    }

    /** The cursor is in step with the position. */
    ghost predicate Synced()
      requires baseSize > 0
      reads this
    {
      InStep(position, capacity, at, baseSize)
    }

    constructor (base: nat)
      requires base > 0
      ensures Appending() && fresh(Repr)
      ensures baseSize == base == capacity && position == size == 0 && !littleEndian
    {
      var n := new Node(base, 0);
      baseSize, position, capacity, size := base, 0, base, 0;
      littleEndian := false;
      root, cur := n, n;
      nodes, at, flat := [n], 0, n.ptr[..];
      Repr := {n, n.ptr};
    }

    method Clear()
      requires Valid()
      modifies this, root`next
      ensures Appending() && Repr == old(Repr)
      ensures position == size == 0 && capacity == baseSize
      ensures littleEndian == old(littleEndian)
    {
      root.next := null;
      size, capacity, position, cur := 0, root.size, 0, root;
      nodes, at, flat := [root], 0, root.ptr[..];
    }

    lemma NextNode(k: nat)
      requires Linked() && k < |nodes|
      ensures k + 1 < |nodes| ==> nodes[k].next == nodes[k + 1]
      ensures k + 1 == |nodes| ==> nodes[k].next == null
      ensures Span(k + 1, baseSize) == Span(k, baseSize) + baseSize <= capacity
      ensures k + 1 < |nodes| <==> Span(k + 1, baseSize) < capacity
    {
      SpanMono(k + 1, |nodes|, baseSize);
    }

    /** The walk from the root to the node of byte `v`; the end of the chain has none. */
    method Locate(v: nat) returns (n: Node?, ghost k: nat)
      requires Linked() && v <= capacity
      ensures n == null <==> v == capacity
      ensures v < capacity ==> k < |nodes| && n == nodes[k] && Span(k, baseSize) + Offset(v, baseSize) == v
    {
      n, k := root, 0;
      var left := v;
      while left > n.size
        invariant n != null && k < |nodes| && n == nodes[k]
        invariant 0 <= left && left + Span(k, baseSize) == v
        decreases left
      {
        NextNode(k);
        left := left - n.size;
        n, k := n.next, k + 1;
      }
      NextNode(k);
      if left == n.size {
        n, k := n.next, k + 1;
        SpanOffset(k, 0, baseSize);
      } else {
        SpanOffset(k, left, baseSize);
      }
    }

    /** Moves the position, growing the size with it but never the chain. */
    method SetPosition(v: nat) returns (r: Outcome<()>)
      requires Valid()
      modifies this`position, this`size, this`cur, this`at
      ensures Valid()
      ensures r == if v > capacity then OutOfRange else Ok(())
      ensures v > capacity ==> unchanged(this)
      ensures v <= capacity ==> position == v && size == Max(old(size), v) && Synced()
                                && (cur == null <==> v == capacity)
    {
      if capacity < v {
        return OutOfRange;
      }
      var n, k := Locate(v);
      position, size, cur, at := v, Max(size, v), n, k;
      return Ok(());
    }

    /** `memcpy` into the memory of node `k`. */
    method Put(mem: array<Byte>, ghost k: nat, off: nat, data: seq<Byte>)
      requires Linked() && k < |nodes| && mem == nodes[k].ptr && off + |data| <= baseSize
      requires Span(k, baseSize) + baseSize <= capacity
      modifies mem, this`flat
      ensures Linked()
      ensures flat == Overwrite(old(flat), Span(k, baseSize) + off, data)
    {
      CopyInto(mem, off, data);
      ghost var after := Overwrite(flat, Span(k, baseSize) + off, data);
      OverwriteChunk(flat, k, off, data, baseSize);
      OverwriteOtherChunks(flat, k, off, data, baseSize, after);
      flat := after;
    }

    /** The first `i` bytes of `buf` are in place behind `from`; the next one goes to
        byte `off` of node `k`. */
    ghost predicate Filling(k: nat, off: nat, buf: seq<Byte>, i: nat, before: seq<Byte>, from: nat)
      reads this, Repr
    {
      && Linked() && k < |nodes| && Span(k, baseSize) + baseSize <= capacity
      && off < baseSize && i < |buf| && Span(k, baseSize) + off == from + i
      && |before| == capacity && from + |buf| <= capacity
      && flat == Overwrite(before, from, buf[..i])
    }

    /** One turn of a copy loop: to the end of the node or of `buf`. */
    method FillPart(mem: array<Byte>, ghost k: nat, off: nat, buf: seq<Byte>, i: nat, len: nat,
                    ghost before: seq<Byte>, ghost from: nat)
      requires Filling(k, off, buf, i, before, from) && mem == nodes[k].ptr
      requires len == Min(|buf| - i, baseSize - off)
      modifies mem, this`flat
      ensures Linked() && flat == Overwrite(before, from, buf[..i + len])
      ensures i + len < |buf| ==> Filling(k + 1, 0, buf, i + len, before, from)
    {
      OverwriteStep(before, from, buf, i, len);
      Put(mem, k, off, buf[i..i + len]);
      NextNode(k);
      if k + 1 < |nodes| {
        NextNode(k + 1);
      }
    }

    /** Such a turn to the end of the node, and on to the next. */
    method FillNode(node: Node, ghost k: nat, off: nat, buf: seq<Byte>, i: nat, ghost before: seq<Byte>,
                    ghost from: nat)
      returns (next: Node)
      requires Filling(k, off, buf, i, before, from) && node == nodes[k] && |buf| - i > baseSize - off
      modifies node.ptr, this`flat
      ensures Filling(k + 1, 0, buf, i + baseSize - off, before, from) && next == nodes[k + 1]
    {
      FillPart(node.ptr, k, off, buf, i, baseSize - off, before, from);
      NextNode(k);
      next := node.next;
    }

    /** The copy loop of `write`: `buf` goes into the chain from byte `off` of node `k0` on,
        and the walk ends on the node that took the last byte. */
    method Fill(start: Node, ghost k0: nat, off: nat, buf: seq<Byte>) returns (n: Node, ghost k: nat)
      requires Linked() && k0 < |nodes| && start == nodes[k0]
      requires off < baseSize && |buf| > 0 && Span(k0, baseSize) + off + |buf| <= capacity
      modifies this`flat, Repr
      ensures Linked() && k < |nodes| && n == nodes[k]
      ensures flat == Overwrite(old(flat), Span(k0, baseSize) + off, buf)
      ensures Span(k, baseSize) < Span(k0, baseSize) + off + |buf| <= Span(k, baseSize) + baseSize
    {
      n, k := start, k0;
      var pos: nat, srcPos: nat := off, 0;
      ghost var (before, from) := (flat, Span(k0, baseSize) + off);
      NextNode(k);
      while |buf| - srcPos > baseSize - pos
        invariant Filling(k, pos, buf, srcPos, before, from) && n == nodes[k]
        decreases |buf| - srcPos
      {
        n := FillNode(n, k, pos, buf, srcPos, before, from);
        k, pos, srcPos := k + 1, 0, srcPos + baseSize - pos;
      }
      FillLast(n.ptr, k, pos, buf, srcPos, before, from);
    }

    /** The last turn, to the end of `buf`. */
    method FillLast(mem: array<Byte>, ghost k: nat, off: nat, buf: seq<Byte>, i: nat, ghost before: seq<Byte>,
                    ghost from: nat)
      requires Filling(k, off, buf, i, before, from) && mem == nodes[k].ptr && |buf| - i <= baseSize - off
      modifies mem, this`flat
      ensures Linked() && flat == Overwrite(before, from, buf)
      ensures Span(k, baseSize) < from + |buf| <= Span(k, baseSize) + baseSize
    {
      assert buf[..|buf|] == buf;
      FillPart(mem, k, off, buf, i, |buf| - i, before, from);
    }

    /** One more node behind the last one. */
    method Link(last: Node) returns (n: Node)
      requires Linked() && last == nodes[|nodes| - 1]
      modifies this`nodes, this`capacity, this`flat, this`Repr, last`next
      ensures Linked() && fresh(Repr - old(Repr)) && old(Repr) <= Repr
      ensures nodes == old(nodes) + [n] && capacity == old(capacity) + baseSize && fresh(n)
      ensures old(flat) <= flat
    {
      n := new Node(baseSize, |nodes|);
      last.next := n;
      ChunkAppend(flat, n.ptr[..], |nodes|, baseSize);
      Repr := Repr + {n, n.ptr};
      flat, nodes, capacity := flat + n.ptr[..], nodes + [n], capacity + baseSize;
    }

    /** The last node of the chain, walking from a node of it. */
    method LastFrom(start: Node, ghost k: nat) returns (last: Node)
      requires Linked() && k < |nodes| && start == nodes[k]
      ensures last == nodes[|nodes| - 1]
    {
      last := start;
      ghost var j := k;
      while last.next != null
        invariant j < |nodes| && last == nodes[j]
        decreases |nodes| - j
      {
        NextNode(j);
        last, j := last.next, j + 1;
      }
      NextNode(j);
    }

    /** `count` new nodes behind the last one; `first` is the first of them. */
    method Extend(from: Node, count: nat) returns (first: Node?)
      requires Linked() && from == nodes[|nodes| - 1]
      modifies this`nodes, this`capacity, this`flat, this`Repr, from`next
      ensures Linked() && fresh(Repr - old(Repr)) && old(Repr) <= Repr
      ensures |nodes| == |old(nodes)| + count && old(nodes) <= nodes
      ensures old(flat) <= flat
      ensures count > 0 ==> first == nodes[|old(nodes)|]
    {
      var last := from;
      first := null;
      for i := 0 to count
        invariant Linked() && fresh(Repr - old(Repr)) && old(Repr) <= Repr
        invariant |nodes| == |old(nodes)| + i && old(nodes) <= nodes
        invariant last == nodes[|nodes| - 1] && (last == from || fresh(last))
        invariant old(flat) <= flat
        invariant if i == 0 then first == null else first == nodes[|old(nodes)|]
      {
        last := Link(last);
        if first == null {
          first := last;
        }
      }
    }

    /** Room for `need` more bytes behind the chain, rounded up to whole nodes. */
    method Grow(need: nat) returns (first: Node)
      requires Linked() && need > 0 && cur != null && at < |nodes| && cur == nodes[at]
      modifies this`nodes, this`capacity, this`flat, this`Repr, Repr
      ensures Linked() && fresh(Repr - old(Repr)) && old(Repr) <= Repr
      ensures |nodes| > |old(nodes)| && old(nodes) <= nodes && old(flat) <= flat
      ensures first == nodes[|old(nodes)|]
      ensures old(capacity) + need <= capacity < old(capacity) + need + baseSize
    {
      var count := (need + baseSize - 1) / baseSize;
      CeilSpan(need, baseSize);
      SpanAdd(|nodes|, count, baseSize);
      var last := LastFrom(cur, at);
      first := Extend(last, count);
    }

    /** Puts the cursor on the node whose first byte is at the position. */
    method PointAt(n: Node, ghost k: nat)
      requires Linked() && position <= size <= capacity
      requires k < |nodes| && n == nodes[k] && Span(k, baseSize) == position
      modifies this`cur, this`at
      ensures Valid() && cur == n && at == k && Physical() == position
    {
      SpanOffset(k, 0, baseSize);
      cur, at := n, k;
    }

    /** Makes room for `n` bytes from the position on, with as few nodes as possible. */
    method AddCapacity(n: nat)
      requires Valid() && (cur != null || position + n <= capacity)
      modifies this`nodes, this`capacity, this`flat, this`Repr, this`cur, this`at, Repr
      ensures Valid() && fresh(Repr - old(Repr)) && old(Repr) <= Repr
      ensures old(nodes) <= nodes && old(flat) <= flat
      ensures if position + n <= old(capacity) then capacity == old(capacity)
              else position + n <= capacity < position + n + baseSize
      ensures n > 0 && position == old(capacity) ==> cur != null && at == |old(nodes)| && Physical() == position
      ensures n == 0 || position < old(capacity) ==> cur == old(cur) && at == old(at)
    {
      if n == 0 {
        return;
      }
      var room := capacity - position;
      if room >= n {
        return;
      }
      var first := Grow(n - room);
      if room == 0 {
        PointAt(first, |old(nodes)|);
      }
    }

    /** Where the next byte written or read really goes: growth at the end of the
        chain puts the cursor right again, otherwise it is where the cursor points. */
    ghost function Target(): nat
      requires baseSize > 0
      reads this
    {
      if position == capacity then position else Physical()
    }

    /** Writes `buf` at the cursor, growing the chain as needed. With a cursor in step
        this is a write at the position. The cursor is then in step again exactly when
        the write ends inside a node, or at or beyond the old end of the chain. */
    method Write(buf: seq<Byte>) returns (r: Outcome<()>)
      requires Valid()
      modifies this, Repr
      ensures Valid() && fresh(Repr - old(Repr)) && littleEndian == old(littleEndian)
      ensures r == if buf != [] && old(cur) == null then NullCursor else Ok(())
      ensures buf == [] || r != Ok(()) ==> unchanged(this)
      ensures buf != [] && r == Ok(()) ==> Wrote(buf)
    {
      if buf == [] {
        return Ok(());
      }
      if cur == null {
        return NullCursor;
      }
      GrowAndWrite(buf);
      return Ok(());
    }

    method GrowAndWrite(buf: seq<Byte>)
      requires Valid() && buf != [] && cur != null
      modifies this, Repr
      ensures Valid() && fresh(Repr - old(Repr)) && littleEndian == old(littleEndian) && Wrote(buf)
    {
      ghost var (before, target, cap, synced) := (flat, Target(), capacity, Synced());
      AddCapacity(|buf|);
      WriteGrown(buf, before, target, cap, synced);
    }

    method WriteGrown(buf: seq<Byte>, ghost before: seq<Byte>, ghost target: nat, ghost cap: nat, ghost synced: bool)
      requires Valid() && buf != [] && cur != null && position + |buf| <= capacity
      requires before <= flat && target == Physical() <= |before|
      requires synced ==> target == position
      requires synced ==> if position + |buf| <= cap then capacity == cap else capacity < position + |buf| + baseSize
      modifies this`position, this`size, this`cur, this`at, this`flat, Repr
      ensures Valid() && cur != null && position == old(position) + |buf| && size == Max(old(size), position)
      ensures Patched(before, target, buf, flat)
      ensures synced ==> (Synced() <==> Offset(position, baseSize) != 0 || position >= cap)
    {
      ghost var (grown, k0) := (flat, at);
      WriteHere(buf);
      PatchedByOverwrite(before, grown, target, buf);
      if synced {
        InStepAfterWrite(old(position), k0, |buf|, at, baseSize, cap, |nodes|);
      }
    }

    /** What a write of one or more bytes does to the buffer. */
    twostate predicate Wrote(buf: seq<Byte>)
      requires baseSize > 0
      reads this
    {
      && position == old(position) + |buf| && size == Max(old(size), position) && cur != null
      && Patched(old(flat), old(Target()), buf, flat)
      && (if position <= old(capacity) then capacity == old(capacity) else position <= capacity < position + baseSize)
      && (old(Synced()) ==> old(Target()) == old(position)
                            && (Synced() <==> Offset(position, baseSize) != 0 || position >= old(capacity)))
    }

    method OffsetOf(p: nat) returns (off: nat)
      requires baseSize > 0
      ensures off == Offset(p, baseSize)
    {
      off := p % baseSize;
      OffsetIsMod(p, baseSize);
    }

    /** The part of `write` after the chain has been grown. */
    method WriteHere(buf: seq<Byte>)
      requires Valid() && buf != [] && cur != null && position + |buf| <= capacity
      modifies this`position, this`size, this`cur, this`at, this`flat, Repr
      ensures Valid() && cur != null
      ensures position == old(position) + |buf| && size == Max(old(size), position)
      ensures flat == Overwrite(old(flat), old(Physical()), buf)
      ensures Span(at, baseSize) < old(Physical()) + |buf| <= Span(at, baseSize) + baseSize
    {
      var off := OffsetOf(position);
      ghost var k0 := at;
      var n, k := Fill(cur, at, off, buf);
      MoveTo(|buf|, n, k, k0);
    }

    /** The cursor and the position after a copy that began in node `k0` and ended in node `k`. */
    method MoveTo(len: nat, n: Node, ghost k: nat, ghost k0: nat)
      requires Linked() && position <= size <= capacity && position + len <= capacity && len > 0
      requires k < |nodes| && n == nodes[k] && Span(k0, baseSize) + Offset(position, baseSize) <= position
      requires Span(k, baseSize) < Span(k0, baseSize) + Offset(position, baseSize) + len <= Span(k, baseSize) + baseSize
      modifies this`position, this`size, this`cur, this`at
      ensures Valid() && cur == n && at == k && position == old(position) + len && size == Max(old(size), position)
    {
      OffsetAfter(position, k0, len, k, baseSize);
      Advance(len, n, k);
    }

    method Advance(n: nat, node: Node?, ghost k: nat)
      requires Linked() && position + n <= capacity && size <= capacity
      requires if node == null then position + n == capacity
               else k < |nodes| && node == nodes[k]
                    && Span(k, baseSize) + Offset(position + n, baseSize) <= position + n
      modifies this`position, this`size, this`cur, this`at
      ensures Valid() && position == old(position) + n && size == Max(old(size), position) && cur == node && at == k
    {
      position, size, cur, at := position + n, Max(size, position + n), node, k;
    }

    /** The memory of a node is its stretch of the flat sequence. */
    lemma NodeBytes(k: nat, off: nat, len: nat)
      requires Linked() && k < |nodes| && off + len <= baseSize
      ensures Span(k, baseSize) + baseSize <= capacity
      ensures nodes[k].ptr[off..off + len] == flat[Span(k, baseSize) + off..Span(k, baseSize) + off + len]
    {
      NextNode(k);
      SliceOfArray(nodes[k].ptr, off, len);
      SliceOfChunk(flat, k, off, len, baseSize);
    }

    /** The copy loop of the two reads: `n` bytes from byte `off` of node `k0` on;
        the last of them is the one before byte `end` of node `k`. */
    method Gather(start: Node, ghost k0: nat, off: nat, n: nat)
      returns (out: seq<Byte>, last: Node, ghost k: nat, end: nat)
      requires Linked() && k0 < |nodes| && start == nodes[k0] && off < baseSize && n > 0
      requires Span(k0, baseSize) + off + n <= capacity
      ensures out == flat[Span(k0, baseSize) + off..Span(k0, baseSize) + off + n]
      ensures k < |nodes| && last == nodes[k]
      ensures 0 < end <= baseSize && Span(k, baseSize) + end == Span(k0, baseSize) + off + n
    {
      var npos: nat, left: nat := off, n;
      ghost var from := Span(k0, baseSize) + off;
      out, last, k := [], start, k0;
      NextNode(k);
      while left > last.size - npos
        invariant Gathered(last, k, npos, left, out, from, n)
        decreases left
      {
        out := GatherNode(last, k, npos, left, out, from, n);
        left := left - (last.size - npos);
        last, k, npos := last.next, k + 1, 0;
      }
      NodeBytes(k, npos, left);
      SliceJoin(flat, from, from + n - left, from + n);
      out, end := out + last.ptr[npos..npos + left], npos + left;
    }

    /** Reads `n` bytes from the cursor on. The lag of the cursor, if any, stays the same. */
    method Read(n: nat) returns (r: Outcome<seq<Byte>>)
      requires Valid()
      modifies this`position, this`size, this`cur, this`at
      ensures Valid() && size == old(size)
      ensures n > old(size) - old(position) ==> r == OutOfRange
      ensures n <= old(size) - old(position) && old(cur) == null ==> r == NullCursor
      ensures n <= old(size) - old(position) && old(cur) != null ==>
        old(Physical()) + n <= capacity && r == Ok(flat[old(Physical())..old(Physical()) + n])
      ensures n == 0 || !r.Ok? ==> unchanged(this)
      ensures r.Ok? ==> position == old(position) + n && (old(Synced()) ==> Synced())
      ensures r.Ok? && n > 0 && old(Synced()) ==> (cur == null <==> position == capacity)
    {
      if n > size - position {
        return OutOfRange;
      }
      if cur == null {
        return NullCursor;
      }
      if n == 0 {
        assert flat[Physical()..Physical() + n] == [];
        return Ok([]);
      }
      var out := Take(n);
      return Ok(out);
    }

    /** A read that ends with a node goes on to the next one. */
    method StepOn(n: Node, ghost k: nat, end: nat) returns (next: Node?, ghost k': nat)
      requires Linked() && k < |nodes| && n == nodes[k] && 0 < end <= baseSize
      ensures Span(k', baseSize) <= Span(k, baseSize) + end < Span(k', baseSize) + baseSize
      ensures if Span(k, baseSize) + end == capacity then next == null else k' < |nodes| && next == nodes[k']
    {
      NextNode(k);
      next, k' := n, k;
      if end == n.size {
        next, k' := n.next, k + 1;
      }
    }

    /** The next `n` bytes at the cursor, and where the cursor goes after them. */
    method Peek(n: nat) returns (out: seq<Byte>, next: Node?, ghost k: nat)
      requires Valid() && cur != null && 0 < n <= size - position
      ensures Physical() + n <= capacity && out == flat[Physical()..Physical() + n]
      ensures if Physical() + n == capacity then next == null else k < |nodes| && next == nodes[k]
      ensures Span(k, baseSize) + Offset(position + n, baseSize) == Physical() + n
    {
      var npos := OffsetOf(position);
      var bytes, last, j, end := Gather(cur, at, npos, n);
      out := bytes;
      next, k := StepOn(last, j, end);
      OffsetAfterStep(position, at, n, k, baseSize);
    }

    /** The part of `read` that copies and moves on. */
    method Take(n: nat) returns (out: seq<Byte>)
      requires Valid() && cur != null && 0 < n <= size - position
      modifies this`position, this`size, this`cur, this`at
      ensures Valid() && size == old(size) && position == old(position) + n
      ensures old(Physical()) + n <= capacity && out == flat[old(Physical())..old(Physical()) + n]
      ensures cur == null <==> old(Physical()) + n == capacity
      ensures cur != null ==> Physical() == old(Physical()) + n
    {
      var bytes, next, k := Peek(n);
      out := bytes;
      Advance(n, next, k);
    }

    /** The list shows bytes `lo` to `hi` of the flat sequence. */
    ghost predicate Shows(vs: seq<Iovec>, lo: nat, hi: nat)
      reads this`flat, set i | 0 <= i < |vs| :: vs[i].base
    {
      InBounds(vs) && lo <= hi <= |flat| && View(vs) == flat[lo..hi]
    }

    lemma ShowsCons(k: nat, off: nat, c: nat, rest: seq<Iovec>, lo: nat, hi: nat)
      requires Linked() && k < |nodes| && off + c <= baseSize && lo == Span(k, baseSize) + off
      requires Shows(rest, lo + c, hi)
      ensures Shows([Iovec(nodes[k].ptr, off, c)] + rest, lo, hi)
    {
      NodeBytes(k, off, c);
      SliceJoin(flat, lo, lo + c, hi);
      ViewCons(Iovec(nodes[k].ptr, off, c), rest);
    }

    /** A list cut from the chain shows that stretch of the flat sequence. */
    lemma InChain(k: nat, off: nat, len: nat)
      requires Linked() && len > 0 && Span(k, baseSize) + off + len <= capacity
      ensures k < |nodes| && Span(k + 1, baseSize) <= capacity
    {
      if |nodes| <= k {
        SpanMono(|nodes|, k, baseSize);
      }
      NextNode(k);
    }

    lemma {:induction false} IovecsShow(vs: seq<Iovec>, k: nat, off: nat, len: nat, lo: nat)
      requires Linked() && off < baseSize && lo == Span(k, baseSize) + off && lo + len <= capacity
      requires vs == Iovecs(nodes, k, off, len, baseSize)
      ensures Shows(vs, lo, lo + len)
      decreases len
    {
      if len == 0 {
        return;
      }
      InChain(k, off, len);
      IovecsStep(nodes, k, off, len, baseSize);
      var (c, rest) := (Min(len, baseSize - off), vs[1..]);
      if c == len {
        assert Shows([], lo + len, lo + len);
      } else {
        IovecsShow(rest, k + 1, 0, len - c, lo + c);
      }
      ShowsCons(k, off, c, rest, lo, lo + len);
    }

    /** All but the last `left` of `n` bytes are in the list; the next is byte `npos` of node `k`. */
    ghost predicate CutSoFar(node: Node?, k: nat, npos: nat, left: nat, vs: seq<Iovec>, from: nat, n: nat,
                             all: seq<Iovec>)
      reads this, Repr
    {
      && Linked() && k < |nodes| && node == nodes[k] && npos < baseSize && 0 < left <= n
      && Span(k, baseSize) + npos == from + n - left && vs + Iovecs(nodes, k, npos, left, baseSize) == all
    }

    /** The loop that cuts a list, for a walk that may run off the end of the chain. */
    method CutToEnd(start: Node, ghost k0: nat, off: nat, n: nat, ghost all: seq<Iovec>)
      returns (r: Outcome<seq<Iovec>>)
      requires Linked() && k0 < |nodes| && start == nodes[k0] && off < baseSize && n > 0
      requires all == Iovecs(nodes, k0, off, n, baseSize)
      ensures r == if Span(k0, baseSize) + off + n <= capacity then Ok(all) else NullCursor
    {
      var node: Node?, npos: nat, left: nat, vs := start, off, n, [];
      ghost var (k: nat, from) := (k0, Span(k0, baseSize) + off);
      while left > baseSize - npos
        invariant CutSoFar(node, k, npos, left, vs, from, n, all)
        decreases left
      {
        vs := CutNode(node, k, npos, left, vs, from, n, all);
        left := left - (baseSize - npos);
        node, npos, k := node.next, 0, k + 1;
        if node == null {
          return NullCursor;
        }
      }
      NextNode(k);
      IovecsStep(nodes, k, npos, left, baseSize);
      return Ok(vs + [Iovec(node.ptr, npos, left)]);
    }

    /** One turn of that loop, to the end of a node. */
    method CutNode(node: Node, ghost k: nat, npos: nat, ghost left: nat, vs: seq<Iovec>,
                   ghost from: nat, ghost n: nat, ghost all: seq<Iovec>)
      returns (vs': seq<Iovec>)
      requires CutSoFar(node, k, npos, left, vs, from, n, all) && left > baseSize - npos
      ensures if node.next == null then from + n > capacity
              else CutSoFar(node.next, k + 1, 0, left - (baseSize - npos), vs', from, n, all)
    {
      NextNode(k);
      IovecsStep(nodes, k, npos, left, baseSize);
      var v := Iovec(node.ptr, npos, baseSize - npos);
      vs' := vs + [v];
      ghost var rest := Iovecs(nodes, k + 1, 0, left - (baseSize - npos), baseSize);
      assert vs + ([v] + rest) == vs + [v] + rest;
    }

    /** The list shows the bytes it was cut for. */
    method CutShownToEnd(start: Node, ghost k0: nat, off: nat, n: nat, ghost from: nat)
      returns (r: Outcome<seq<Iovec>>)
      requires Linked() && k0 < |nodes| && start == nodes[k0] && off < baseSize && n > 0
      requires from == Span(k0, baseSize) + off
      ensures if from + n <= capacity then r.Ok? && Shows(r.value, from, from + n) else r == NullCursor
    {
      ghost var all := Iovecs(nodes, k0, off, n, baseSize);
      r := CutToEnd(start, k0, off, n, all);
      if r.Ok? {
        IovecsShow(all, k0, off, n, from);
      }
    }

    /** The unread bytes, at most `len` of them, from the cursor on. */
    method GetReadBuffers(len: nat) returns (vs: seq<Iovec>, n: nat)
      requires Valid()
      ensures n == Min(size - position, len)
      ensures n == 0 ==> vs == []
      ensures n > 0 ==> cur != null && Shows(vs, Physical(), Physical() + n)
    {
      n := Min(size - position, len);
      if n == 0 {
        return [], 0;
      }
      UnreadInChain();
      vs := CutFromCursor(n);
    }

    method CutFromCursor(n: nat) returns (vs: seq<Iovec>)
      requires Valid() && n > 0 && cur != null && Physical() + n <= capacity
      ensures Shows(vs, Physical(), Physical() + n)
    {
      var npos := OffsetOf(position);
      var r := CutShownToEnd(cur, at, npos, n, Physical());
      vs := r.value;
    }

    /** While anything is unread there is a cursor, and all of it lies in the chain. */
    lemma UnreadInChain()
      requires Valid() && position < size
      ensures cur != null && at < |nodes| && cur == nodes[at] && Physical() + (size - position) <= capacity
    {
    }

    /** At most `len` bytes from `p` on, found from the root: the cursor plays no part. Beyond
        the size the difference wraps; then the list is what was asked for as long as it
        stays in the chain, and the walk runs off the end otherwise. */
    method GetReadBuffersAt(len: nat, p: nat) returns (r: Outcome<seq<Iovec>>, n: nat)
      requires Valid()
      ensures n == Min(Left(size, p), len)
      ensures n == 0 ==> r == Ok([])
      ensures n > 0 && p + n <= capacity ==> r.Ok? && Shows(r.value, p, p + n)
      ensures n > 0 && p + n > capacity ==> r == NullCursor
    {
      n := Min(Left(size, p), len);
      if n == 0 {
        return Ok([]), 0;
      }
      r := CutFrom(p, n);
    }

    /** The list for `n` bytes from byte `p` on. */
    method CutFrom(p: nat, n: nat) returns (r: Outcome<seq<Iovec>>)
      requires Linked() && n > 0
      ensures if p + n <= capacity then r.Ok? && Shows(r.value, p, p + n) else r == NullCursor
    {
      var npos := OffsetOf(p);
      var node, k := NodeOf(p);
      if node == null {
        return NullCursor;
      }
      r := CutShownToEnd(node, k, npos, n, p);
    }

    /** Steps `p / baseSize` nodes on from the root, to null beyond the end of the chain. */
    method NodeOf(p: nat) returns (node: Node?, ghost k: nat)
      requires Linked()
      ensures node == null <==> p >= capacity
      ensures node != null ==> k < |nodes| && node == nodes[k] && Span(k, baseSize) + Offset(p, baseSize) == p
    {
      node, k := root, 0;
      var count: nat := p / baseSize;
      OffsetIsMod(p, baseSize);
      ghost var page := Page(p, baseSize);
      while count > 0
        invariant k + count == page && k < |nodes| && node == nodes[k]
      {
        NextNode(k);
        SpanMono(k + 1, page, baseSize);
        node, k, count := node.next, k + 1, count - 1;
        if node == null {
          return;
        }
      }
      NextNode(k);
    }

    /** Room for `len` bytes behind the position, as a list for the kernel to fill. */
    method GetWriteBuffers(len: nat) returns (r: Outcome<seq<Iovec>>)
      requires Valid()
      modifies this`nodes, this`capacity, this`flat, this`Repr, this`cur, this`at, Repr
      ensures Valid() && fresh(Repr - old(Repr))
      ensures len > 0 && old(cur) == null <==> r == NullCursor
      ensures r.Ok? || r == NullCursor
      ensures len == 0 ==> r == Ok([])
      ensures len == 0 || !r.Ok? ==> unchanged(this)
      ensures len > 0 && r.Ok? ==>
        && cur != null && old(flat) <= flat && Physical() == old(Target()) && Physical() + len <= capacity
        && r.value == Iovecs(nodes, at, Offset(position, baseSize), len, baseSize)
        && (if position + len <= old(capacity) then capacity == old(capacity)
            else position + len <= capacity < position + len + baseSize)
    {
      if len == 0 {
        return Ok([]);
      }
      if cur == null {
        return NullCursor;
      }
      AddCapacity(len);
      var npos := OffsetOf(position);
      r := CutToEnd(cur, at, npos, len, Iovecs(nodes, at, npos, len, baseSize));
    }

    /** The first `got` bytes of `data` are in place and list entry `i` takes the next ones. */
    ghost predicate Scattering(vs: seq<Iovec>, i: nat, k: nat, off: nat, left: nat, data: seq<Byte>, got: nat,
                               before: seq<Byte>, from: nat)
      reads this, Repr
    {
      Filling(k, off, data, got, before, from) && left >= |data| - got
      && i <= |vs| && vs[i..] == Iovecs(nodes, k, off, left, baseSize)
    }

    /** Fills one entry of the list. */
    method ScatterPart(vs: seq<Iovec>, i: nat, data: seq<Byte>, got: nat, ghost k: nat, ghost off: nat,
                       ghost left: nat, ghost before: seq<Byte>, ghost from: nat)
      returns (part: nat, ghost left': nat)
      requires Scattering(vs, i, k, off, left, data, got, before, from)
      modifies this`flat, Repr
      ensures Linked() && 0 < part <= |data| - got
      ensures if got + part == |data| then flat == Overwrite(before, from, data)
              else Scattering(vs, i + 1, k + 1, 0, left', data, got + part, before, from)
    {
      IovecsTail(vs, i, nodes, k, off, left, baseSize);
      part := Min(|data| - got, vs[i].len);
      left' := left - vs[i].len;
      assert data[..|data|] == data;
      FillPart(vs[i].base, k, vs[i].off, data, got, part, before, from);
    }

    /** What `readv` does to such a list: the received bytes fill its first bytes in order. */
    method Scatter(vs: seq<Iovec>, data: seq<Byte>, ghost len: nat)
      requires Valid() && cur != null && 0 < |data| <= len && Physical() + len <= capacity
      requires vs == Iovecs(nodes, at, Offset(position, baseSize), len, baseSize)
      modifies this`flat, Repr
      ensures Valid() && flat == Overwrite(old(flat), Physical(), data)
    {
      ghost var (k: nat, off: nat, left: nat) := (at, Offset(position, baseSize), len);
      ghost var (before, from) := (flat, Physical());
      var i: nat, got: nat := 0, 0;
      NextNode(k);
      while got < |data|
        invariant got <= |data| && Linked()
        invariant if got == |data| then flat == Overwrite(before, from, data)
                  else Scattering(vs, i, k, off, left, data, got, before, from)
        decreases |data| - got
      {
        var part, left' := ScatterPart(vs, i, data, got, k, off, left, before, from);
        got, i, k, off, left := got + part, i + 1, k + 1, 0, left';
      }
    }

    /** The positional read. It takes the offset from `p` but the node from the cursor,
        so it reads what was asked for exactly when `p` lies in the cursor's node. */
    method ReadAt(n: nat, p: nat) returns (r: Outcome<seq<Byte>>)
      requires Valid()
      ensures n > Left(size, p) ==> r == OutOfRange
      ensures n <= Left(size, p) && cur == null ==> r == NullCursor
      ensures n <= Left(size, p) && cur != null ==>
        var from := Span(at, baseSize) + Offset(p, baseSize);
        if from + n <= capacity then r == Ok(flat[from..from + n]) else n > 0 && r == NullCursor
    {
      if n > Left(size, p) {
        return OutOfRange;
      }
      if cur == null {
        return NullCursor;
      }
      var npos := OffsetOf(p);
      NextNode(at);
      if n == 0 {
        assert flat[Span(at, baseSize) + npos..Span(at, baseSize) + npos + n] == [];
        return Ok([]);
      }
      r := GatherToEnd(cur, at, npos, n);
    }

    /** All but `left` of `n` bytes from `from` on are copied; the next is byte `npos` of node `k`. */
    ghost predicate Gathered(node: Node?, k: nat, npos: nat, left: nat, out: seq<Byte>, from: nat, n: nat)
      reads this, Repr
    {
      && Linked() && k < |nodes| && node == nodes[k] && npos < baseSize && 0 < left <= n
      && Span(k, baseSize) + npos == from + n - left && Span(k, baseSize) + baseSize <= capacity
      && out == flat[from..from + n - left]
    }

    /** Copies the rest of a node. */
    method GatherNode(node: Node, ghost k: nat, npos: nat, ghost left: nat, out: seq<Byte>, ghost from: nat,
                      ghost n: nat)
      returns (out': seq<Byte>)
      requires Gathered(node, k, npos, left, out, from, n) && left > baseSize - npos
      ensures if node.next == null then from + n > capacity
              else Gathered(node.next, k + 1, 0, left - (baseSize - npos), out', from, n)
    {
      NodeBytes(k, npos, baseSize - npos);
      NextNode(k);
      SliceJoin(flat, from, from + n - left, Span(k + 1, baseSize));
      out' := out + node.ptr[npos..npos + (baseSize - npos)];
      if k + 1 < |nodes| {
        NextNode(k + 1);
      }
    }

    /** The same copy loop, for a walk that may run off the end of the chain. */
    method GatherToEnd(start: Node, ghost k0: nat, off: nat, n: nat) returns (r: Outcome<seq<Byte>>)
      requires Linked() && k0 < |nodes| && start == nodes[k0] && off < baseSize && n > 0
      ensures var from := Span(k0, baseSize) + off;
        r == if from + n <= capacity then Ok(flat[from..from + n]) else NullCursor
    {
      var npos: nat, left: nat, node: Node?, out := off, n, start, [];
      ghost var (k: nat, from) := (k0, Span(k0, baseSize) + off);
      NextNode(k);
      while left > baseSize - npos
        invariant Gathered(node, k, npos, left, out, from, n)
        decreases left
      {
        out := GatherNode(node, k, npos, left, out, from, n);
        left := left - (baseSize - npos);
        node, npos, k := node.next, 0, k + 1;
        if node == null {
          return NullCursor;
        }
      }
      NodeBytes(k, npos, left);
      SliceJoin(flat, from, from + n - left, from + n);
      return Ok(out + node.ptr[npos..npos + left]);
    }

    /** All unread bytes, without moving the position. */
    method ToString() returns (r: Outcome<seq<Byte>>)
      requires Valid()
      ensures size == position ==> r == Ok([])
      ensures size > position ==> cur != null && Physical() + (size - position) <= capacity
                                  && r == Ok(flat[Physical()..Physical() + (size - position)])
    {
      if size == position {
        return Ok([]);
      }
      r := ReadAt(size - position, position);
    }

    /** Sends the unread bytes to a stream, node by node, from where the cursor points. The
        length of each piece is the lesser of what is unread and a whole node, minus the
        offset; so this sends what is unread exactly when nothing is, or the position is on
        a node boundary, or at least a node's worth is unread. Otherwise it fails. */
    method WriteToFile() returns (r: FileOutcome)
      requires Valid()
      ensures Target() + (size - position) <= capacity && (Synced() ==> Target() == position)
      ensures Sendable() ==> r == Sent(flat[Target()..Target() + (size - position)])
      ensures !Sendable() ==> !r.Sent?
    {
      r := SendAll(Sendable(), Target());
    }

    method SendAll(ghost good: bool, ghost from: nat) returns (r: FileOutcome)
      requires Valid() && from + (size - position) <= capacity
      requires if good then Sending(position, size - position, cur, at, [], from) else Stuck(position, size - position)
      ensures if good then r == Sent(flat[from..from + (size - position)]) else !r.Sent?
    {
      var readSize, pos, node, out := size - position, position, cur, [];
      ghost var k := at;
      while readSize > 0
        invariant 0 <= pos && (node != null ==> k < |nodes| && node == nodes[k])
        invariant if good then Sending(pos, readSize, node, k, out, from) else Stuck(pos, readSize)
        decreases |nodes| - k
      {
        if node == null {
          return NullNode;
        }
        r, node, pos, readSize := SendPart(good, pos, readSize, node, k, out, from);
        if !r.Sent? {
          return;
        }
        out, k := r.bytes, k + 1;
      }
      return Sent(out);
    }

    ghost predicate Sendable()
      requires baseSize > 0 && position <= size
      reads this
    {
      position == size || Offset(position, baseSize) == 0 || size - position >= baseSize
    }

    /** What the loop keeps when it can succeed: what is sent is what was read over. */
    ghost predicate Sending(pos: nat, readSize: int, node: Node?, k: nat, out: seq<Byte>, from: nat)
      reads this
    {
      && baseSize > 0 && from <= position <= pos && 0 <= readSize && pos + readSize == size <= |flat|
      && out == flat[from..from + (pos - position)]
      && (readSize > 0 ==>
            && node != null && Span(k, baseSize) + Offset(pos, baseSize) == from + (pos - position)
            && (Offset(pos, baseSize) == 0 || readSize >= baseSize))
    }

    /** What it keeps when it cannot. */
    ghost predicate Stuck(pos: nat, readSize: int)
      reads this
    {
      0 < readSize < baseSize && Offset(pos, baseSize) > 0
    }

    lemma StuckStep(pos: nat, readSize: int, len: nat)
      requires Stuck(pos, readSize) && len == readSize - Offset(pos, baseSize)
      ensures Stuck(pos + len, readSize - len)
    {
      OffsetWithin(pos, len, baseSize);
    }

    lemma SendsNext(pos: nat, readSize: nat, k: nat, next: nat, len: nat)
      requires Linked() && k < |nodes| && Span(k, baseSize) + Offset(pos, baseSize) == next
      requires next + readSize <= capacity
      requires len == Min(readSize, baseSize) - Offset(pos, baseSize) && readSize > len
      requires Offset(pos, baseSize) == 0 || readSize >= baseSize
      ensures Offset(pos + len, baseSize) == 0 && Span(k + 1, baseSize) == next + len && nodes[k].next != null
    {
      NextNode(k);
      OffsetWithin(pos, len, baseSize);
    }

    lemma SendingStep(pos: nat, readSize: nat, node: Node, k: nat, out: seq<Byte>, from: nat, len: nat,
                      out': seq<Byte>)
      requires Valid() && Sending(pos, readSize, node, k, out, from) && readSize > 0 && k < |nodes| && node == nodes[k]
      requires len == Min(readSize, baseSize) - Offset(pos, baseSize)
      requires out' == flat[from..from + (pos - position) + len]
      ensures Sending(pos + len, readSize - len, node.next, k + 1, out', from)
    {
      if readSize > len {
        SendsNext(pos, readSize, k, from + (pos - position), len);
      }
    }

    /** One turn of the loop: what has been sent with the next piece, or a failure. */
    method SendPart(ghost good: bool, pos: nat, readSize: nat, node: Node, ghost k: nat, out: seq<Byte>,
                    ghost from: nat)
      returns (r: FileOutcome, next: Node?, pos': nat, readSize': int)
      requires Valid() && readSize > 0 && k < |nodes| && node == nodes[k]
      requires if good then Sending(pos, readSize, node, k, out, from) else Stuck(pos, readSize)
      ensures next != null ==> k + 1 < |nodes| && next == nodes[k + 1]
      ensures good ==> r.Sent? && Sending(pos', readSize', next, k + 1, r.bytes, from)
      ensures !good && r.Sent? ==> Stuck(pos', readSize')
    {
      next, pos', readSize' := node.next, pos, readSize;
      NextNode(k);
      var diff := OffsetOf(pos);
      var len := Min(readSize, baseSize) - diff;
      if len < 0 {
        return NegativeLength, next, pos, readSize;
      }
      var out' := out + node.ptr[diff..diff + len];
      r, pos', readSize' := Sent(out'), pos + len, readSize - len;
      if good {
        PieceSent(pos, readSize, node, k, out, from, len);
      } else {
        StuckStep(pos, readSize, len);
      }
    }

    lemma PieceSent(pos: nat, readSize: nat, node: Node, k: nat, out: seq<Byte>, from: nat, len: nat)
      requires Valid() && Sending(pos, readSize, node, k, out, from) && readSize > 0 && k < |nodes| && node == nodes[k]
      requires len == Min(readSize, baseSize) - Offset(pos, baseSize) && Offset(pos, baseSize) + len <= |node.ptr[..]|
      ensures Sending(pos + len, readSize - len, node.next, k + 1,
                      out + node.ptr[Offset(pos, baseSize)..Offset(pos, baseSize) + len], from)
    {
      var diff := Offset(pos, baseSize);
      PieceJoins(k, diff, len, out, from, from + (pos - position));
      SendingStep(pos, readSize, node, k, out, from, len, out + node.ptr[diff..diff + len]);
    }

    /** A piece of node `k` continues what was sent up to byte `next` of the flat sequence. */
    lemma PieceJoins(k: nat, diff: nat, len: nat, out: seq<Byte>, from: nat, next: nat)
      requires Linked() && k < |nodes| && diff + len <= baseSize && Span(k, baseSize) + diff == next
      requires from <= next && next + len <= capacity && out == flat[from..next]
      ensures out + nodes[k].ptr[diff..diff + len] == flat[from..next + len]
    {
      NodeBytes(k, diff, len);
      SliceJoin(flat, from, next, next + len);
    }

    /** A buffer that has only been appended to since it was made or cleared: the cursor
        is in step and not null, and there is no spare node. */
    ghost predicate Appending()
      reads this, Repr
    {
      && Valid() && position == size && cur != null && Synced()
      && (|nodes| == 1 || capacity < position + baseSize)
    }

    /** A buffer being read from a set position on: the cursor is in step, and null
        exactly at the end of the chain. */
    ghost predicate Reading()
      reads this, Repr
    {
      Valid() && Synced() && (cur == null <==> position == capacity)
    }

    method SetIsLittleEndian(val: bool)
      requires Valid()
      modifies this`littleEndian
      ensures Valid() && littleEndian == val
      ensures old(Appending()) ==> Appending()
    {
      littleEndian := val;
    }

    /** The bytes written so far. */
    ghost function Written(): (bytes: seq<Byte>)
      requires Valid()
      reads this, Repr
    {
      flat[..size]
    }

    /** Appending keeps a buffer fit for appending and adds exactly the given bytes. */
    method WriteStringWithoutLength(value: seq<Byte>) returns (r: Outcome<()>)
      requires Valid()
      modifies this, Repr
      ensures Valid() && fresh(Repr - old(Repr)) && littleEndian == old(littleEndian)
      ensures old(Appending()) ==> r == Ok(()) && Appending() && Written() == old(Written()) + value
    {
      r := Write(value);
      if old(Appending()) && value != [] {
        if Offset(position, baseSize) == 0 {
          NoSpareBoundary(old(position), |value|, |old(nodes)|, baseSize);
        }
        PatchedEnd(old(flat), old(position), value, flat);
      }
    }
  }

  /** A new buffer that holds `data`, with the position moved to `p`. */
  method NewFilled(base: nat, data: seq<Byte>, p: nat) returns (ba: ByteArray)
    requires base > 0 && p <= |data|
    ensures fresh(ba) && fresh(ba.Repr) && ba.Valid() && ba.Synced() && (ba.cur == null <==> p == ba.capacity)
    ensures ba.baseSize == base && ba.position == p && ba.size == |data| && ba.Written() == data
    ensures |data| <= ba.capacity && (base < |data| ==> ba.capacity < |data| + base)
  {
    ba := new ByteArray(base);
    var _ := ba.WriteStringWithoutLength(data);
    assert ba.Written() == data && ba.size == |data|;
    SpanIsProduct(1, base);
    var _ := ba.SetPosition(p);
  }

  /** Three bytes in two nodes of two, rewound. */
  method ThreeInTwoNodes() returns (ba: ByteArray)
    ensures fresh(ba) && fresh(ba.Repr) && ba.Valid() && ba.Synced() && ba.cur != null
    ensures ba.baseSize == 2 && ba.capacity == 4 && ba.position == 0 && ba.size == 3 && ba.flat[..3] == [1, 2, 3]
  {
    ba := NewFilled(2, [1, 2, 3], 0);
    SpanIsProduct(|ba.nodes|, 2);
  }

  /** A write that ends on a node boundary with a node beyond it leaves the cursor one
      node behind: over the bytes 1 2 3 in nodes of two, writing 9 9 and then 7 from the
      start gives 7 9 3 where a flat buffer would hold 9 9 7. */
  method StaleCursor() returns (r: Outcome<seq<Byte>>)
    ensures r == Ok([7, 9, 3])
  {
    var ba := ThreeInTwoNodes();
    ghost var f0 := ba.flat;
    var _ := ba.Write([9, 9]);
    ghost var f1 := ba.flat;
    assert f1[..2] == [9, 9] && f1[2] == f1[2..4][0] == f0[2..][0] == f0[..3][2];
    SpanIsProduct(ba.at, 2);
    assert ba.Physical() == 0;
    var _ := ba.Write([7]);
    ghost var f2 := ba.flat;
    assert f2[..1] == [7] && f2[1..4] == f1[1..];
    assert f2[..3] == f2[..1] + f1[1..][..2] && f1[1] == f1[..2][1];
    assert f2[..3] == [7, 9, 3];
    r := ReadFromStart(ba);
  }

  method ReadFromStart(ba: ByteArray) returns (r: Outcome<seq<Byte>>)
    requires ba.Valid() && ba.size > 0
    modifies ba
    ensures r == Ok(old(ba.flat[..ba.size]))
  {
    var _ := ba.SetPosition(0);
    r := ba.ToString();
  }

  /** From inside a node with less than a node unread nothing can be sent. */
  method UnsentTail() returns (r: FileOutcome)
    ensures !r.Sent?
  {
    var ba := NewFilled(4, [1, 2, 3], 1);
    OffsetIsMod(1, 4);
    r := ba.WriteToFile();
  }
}
