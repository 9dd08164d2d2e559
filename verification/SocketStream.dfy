/** A socket stream over a byte array: scatter receive, gather send, and the loops that
    insist on a whole length. The kernel's side is a stream of incoming bytes and, per
    call, how many bytes it is willing to move. */
module SocketStreams {
  import opened Chunks
  import opened ByteArrays

  /** A patch, byte by byte. */
  ghost predicate PatchedBytes(before: seq<Byte>, at: nat, data: seq<Byte>, after: seq<Byte>) {
    && at <= |before| <= |after| && at + |data| <= |after|
    && (forall i {:trigger after[i]} | at <= i < at + |data| :: after[i] == data[i - at])
    && (forall i {:trigger after[i]} | 0 <= i < |before| && !(at <= i < at + |data|) :: after[i] == before[i])
  }

  lemma ToBytes(before: seq<Byte>, at: nat, data: seq<Byte>, after: seq<Byte>)
    requires Patched(before, at, data, after)
    ensures PatchedBytes(before, at, data, after)
  {
    var e := at + |data|;
    forall i | 0 <= i < |after| ensures at <= i < e ==> after[i] == data[i - at]
                                ensures i < at ==> after[i] == before[i]
                                ensures e <= i < |before| ==> after[i] == before[i] {
      assert at <= i < e ==> after[i] == after[at..e][i - at];
      assert i < at ==> after[i] == after[..at][i];
      assert e <= i < |before| ==> after[i] == after[e..|before|][i - e];
    }
  }

  lemma FromBytes(before: seq<Byte>, at: nat, data: seq<Byte>, after: seq<Byte>)
    requires PatchedBytes(before, at, data, after)
    ensures Patched(before, at, data, after)
  {
  }

  /** Two patches side by side are one. */
  lemma PatchedTwice(a: seq<Byte>, at: nat, d1: seq<Byte>, b: seq<Byte>, d2: seq<Byte>, c: seq<Byte>)
    requires Patched(a, at, d1, b) && Patched(b, at + |d1|, d2, c)
    ensures Patched(a, at, d1 + d2, c)
  {
    ToBytes(a, at, d1, b);
    ToBytes(b, at + |d1|, d2, c);
    TwiceBytes(a, at, d1, b, d2, c);
    FromBytes(a, at, d1 + d2, c);
  }

  lemma TwiceBytes(a: seq<Byte>, at: nat, d1: seq<Byte>, b: seq<Byte>, d2: seq<Byte>, c: seq<Byte>)
    requires PatchedBytes(a, at, d1, b) && PatchedBytes(b, at + |d1|, d2, c)
    ensures PatchedBytes(a, at, d1 + d2, c)
  {
    assert forall i | 0 <= i < |b| && !(at + |d1| <= i < at + |d1| + |d2|) :: c[i] == b[i];
  }

  /** How many bytes a call moved: none if it failed. */
  function Moved(rt: int): nat { if rt > 0 then rt else 0 }

  /** The first bytes of a slice; none for a failed call. */
  lemma Front(s: seq<Byte>, p: nat, n: nat, rt: int)
    requires p + n <= |s| && rt <= n
    ensures (if rt > 0 then s[p..p + n][..rt] else []) == s[p..p + Moved(rt)]
  {
  }

  /** Growth alone is a patch by nothing. */
  lemma PatchedGrown(a: seq<Byte>, at: nat, b: seq<Byte>)
    requires at <= |a| && a <= b
    ensures Patched(a, at, [], b)
  {
  }

  lemma PatchedNot(a: seq<Byte>, at: nat)
    requires at <= |a|
    ensures Patched(a, at, [], a)
  {
  }

  /** What a loop of receives has stored: the first piece, the bytes just after that, and all
      pieces since. */
  datatype Pieces = Pieces(first: seq<Byte>, mid: seq<Byte>, rest: seq<Byte>)

  ghost function Length(p: Pieces): nat { |p.first| + |p.rest| }

  ghost function More(p: Pieces, data: seq<Byte>, after: seq<Byte>): Pieces {
    if p.first == [] then Pieces(data, after, []) else p.(rest := p.rest + data)
  }

  /** The kernel's answer to a call that could move `most` bytes; without a grant it fails. */
  function Answer(grants: seq<int>, most: nat): (rt: int)
    ensures grants == [] ==> rt < 0
    ensures grants != [] ==> rt <= grants[0] && rt <= most && (rt == grants[0] || rt == most)
  {
    if grants == [] then -1 else if grants[0] < most then grants[0] else most
  }

  function Used(grants: seq<int>): seq<int> { if grants == [] then [] else grants[1..] }

  /** How many bytes the kernel lets through before the first call that fails. */
  function Allowance(grants: seq<int>): nat {
    if grants == [] || grants[0] <= 0 then 0 else grants[0] + Allowance(grants[1..])
  }

  /** What a loop that insists on `left` of `avail` bytes moves: the least of the three. */
  function Insisting(allowed: nat, left: nat, avail: nat): nat { Min(allowed, Min(left, avail)) }

  /** One turn of such a loop. */
  lemma InsistingTurn(grants: seq<int>, left: nat, avail: nat, rt: int)
    requires left > 0 && rt == Answer(grants, Min(left, avail))
    ensures Insisting(Allowance(grants), left, avail)
         == if rt > 0 then rt + Insisting(Allowance(Used(grants)), left - rt, avail - rt) else 0
  {
  }

  /** As many positive grants as bytes always let them through. */
  lemma {:induction false} OneByteEach(grants: seq<int>, n: nat)
    requires n <= |grants| && forall i | 0 <= i < n :: grants[i] > 0
    ensures n <= Allowance(grants)
    decreases n
  {
    if n > 0 {
      OneByteEach(grants[1..], n - 1);
    }
  }

  class SocketStream {
    var connected: bool
    var incoming: seq<Byte>       // what the peer sent and nobody has received yet
    var grants: seq<int>          // per call: the most bytes the kernel moves, or an error
    ghost var outgoing: seq<Byte> // what has been handed to the kernel for the peer

    method Granted(most: nat) returns (rt: int)
      modifies this`grants
      ensures rt == Answer(old(grants), most) && grants == Used(old(grants))
    {
      rt := Answer(grants, most);
      grants := Used(grants);
    }

    /** `recv` of at most `most` bytes. */
    method Recv(most: nat) returns (rt: int, data: seq<Byte>)
      modifies this`grants, this`incoming
      ensures old(incoming) == data + incoming && |data| <= most
      ensures if rt > 0 then rt == |data| else data == []
      ensures rt == Answer(old(grants), Min(most, |old(incoming)|)) && grants == Used(old(grants))
    {
      rt := Granted(Min(most, |incoming|));
      data := if rt > 0 then incoming[..rt] else [];
      incoming := incoming[|data|..];
    }

    /** `send` of a scatter/gather list showing `n` bytes. */
    method Send(ghost bytes: seq<Byte>, n: nat) returns (rt: int)
      requires |bytes| == n
      modifies this`grants, this`outgoing
      ensures rt <= n && outgoing == old(outgoing) + if rt > 0 then bytes[..rt] else []
      ensures rt == Answer(old(grants), n) && grants == Used(old(grants))
    {
      rt := Granted(n);
      outgoing := outgoing + if rt > 0 then bytes[..rt] else [];
    }

    /** What one receive of `data` does to a buffer that held `flat` and `size` bytes: a flat
        write at `target`. Receiving anything puts the cursor in step with the position. */
    static ghost predicate Holds(ba: ByteArray, flat: seq<Byte>, target: nat, pos: nat, size: nat, data: seq<Byte>)
      reads ba, ba.Repr
    {
      && ba.Valid() && ba.position == pos + |data| && ba.size == Max(size, ba.position)
      && Patched(flat, target, data, ba.flat) && (data != [] ==> ba.Synced())
    }

    /** The target is the position while the cursor is in step, and lies before it otherwise. */
    static twostate predicate Stored(ba: ByteArray, data: seq<Byte>)
      requires ba.baseSize > 0
      reads ba, ba.Repr
    {
      && Holds(ba, old(ba.flat), old(ba.Target()), old(ba.position), old(ba.size), data)
      && (old(ba.Synced()) ==> ba.Synced())
    }

    /** The room for `length` bytes is made and changes nothing else. */
    static method Reserve(ba: ByteArray, length: nat) returns (vs: seq<Iovec>)
      requires ba.Valid() && length > 0 && ba.cur != null
      modifies ba, ba.Repr
      ensures ba.Valid() && fresh(ba.Repr - old(ba.Repr)) && old(ba.flat) <= ba.flat
      ensures ba.position == old(ba.position) && ba.size == old(ba.size) && (old(ba.Synced()) ==> ba.Synced())
      ensures ba.cur != null && ba.Physical() == old(ba.Target()) && ba.position + length <= ba.capacity
      ensures vs == Iovecs(ba.nodes, ba.at, Offset(ba.position, ba.baseSize), length, ba.baseSize)
    {
      var r := ba.GetWriteBuffers(length);
      vs := r.value;
    }

    /** The kernel fills the first bytes of the list and the position moves behind them. */
    static method Deliver(ba: ByteArray, vs: seq<Iovec>, data: seq<Byte>, ghost length: nat)
      requires ba.Valid() && ba.cur != null && 0 < |data| <= length && ba.position + length <= ba.capacity
      requires vs == Iovecs(ba.nodes, ba.at, Offset(ba.position, ba.baseSize), length, ba.baseSize)
      modifies ba, ba.Repr
      ensures ba.Valid() && ba.Synced() && ba.Repr == old(ba.Repr) && (|data| < length ==> ba.cur != null)
      ensures ba.position == old(ba.position) + |data| && ba.size == Max(old(ba.size), ba.position)
      ensures ba.flat == Overwrite(old(ba.flat), old(ba.Physical()), data)
    {
      ba.Scatter(vs, data, length);
      var _ := ba.SetPosition(ba.position + |data|);
    }

    /** A receive of at most `length` bytes into a buffer. It dereferences a null cursor
        exactly when it is connected, wants something and has no cursor. */
    method Read(ba: ByteArray, length: nat) returns (r: Outcome<int>, ghost data: seq<Byte>)
      requires ba.Valid() && this !in ba.Repr
      modifies this`grants, this`incoming, ba, ba.Repr
      ensures fresh(ba.Repr - old(ba.Repr)) && Stored(ba, data)
      ensures old(incoming) == data + incoming && |data| <= length
      ensures r == NullCursor <==> connected && length > 0 && old(ba.cur) == null
      ensures r.Ok? ==> if r.value > 0 then r.value == |data| else data == []
      ensures !r.Ok? ==> r == NullCursor && data == []
      ensures if !connected then r == Ok(-1) && data == [] && grants == old(grants)
              else r.Ok? ==> r == Ok(Answer(old(grants), Min(length, |old(incoming)|))) && grants == Used(old(grants))
      ensures |data| < length && r.Ok? && old(ba.cur) != null ==> ba.cur != null
    {
      data := [];
      PatchedNot(ba.flat, ba.Target());
      if !connected {
        return Ok(-1), [];
      }
      if length > 0 && ba.cur == null {
        return NullCursor, [];
      }
      r, data := ReadSome(ba, length);
    }

    method ReadSome(ba: ByteArray, length: nat) returns (r: Outcome<int>, ghost data: seq<Byte>)
      requires ba.Valid() && this !in ba.Repr && (length > 0 ==> ba.cur != null)
      modifies this`grants, this`incoming, ba, ba.Repr
      ensures fresh(ba.Repr - old(ba.Repr)) && Stored(ba, data)
      ensures old(incoming) == data + incoming && |data| <= length
      ensures r.Ok? && if r.value > 0 then r.value == |data| else data == []
      ensures r == Ok(Answer(old(grants), Min(length, |old(incoming)|))) && grants == Used(old(grants))
      ensures |data| < length ==> ba.cur != null
    {
      var vs := [];
      if length > 0 {
        vs := Reserve(ba, length);
      }
      var rt, got := Recv(length);
      if rt > 0 {
        PatchedByOverwrite(old(ba.flat), ba.flat, old(ba.Target()), got);
        Deliver(ba, vs, got, length);
      } else {
        PatchedGrown(old(ba.flat), old(ba.Target()), ba.flat);
      }
      return Ok(rt), got;
    }

    /** Everything received so far: the first piece at the target, the rest behind the place
        the position had moved to. */
    static ghost predicate InTwo(ba: ByteArray, flat: seq<Byte>, target: nat, pos: nat, size: nat, p: Pieces)
      reads ba, ba.Repr
    {
      && ba.Valid() && ba.position == pos + Length(p) && ba.size == Max(size, ba.position)
      && Patched(flat, target, p.first, p.mid) && Patched(p.mid, pos + |p.first|, p.rest, ba.flat)
      && (p.first != [] ==> ba.Synced())
    }

    /** As long as nothing has been received, nothing has changed. */
    static ghost predicate Untouched(ba: ByteArray, flat: seq<Byte>, target: nat, p: Pieces)
      requires ba.baseSize > 0
      reads ba
    {
      p.first == [] ==> p.rest == [] && ba.flat == flat && ba.Target() == target
    }

    /** A further piece: the first one, or one more behind the position. */
    static lemma MoreInTwo(flat: seq<Byte>, target: nat, pos: nat, p: Pieces, before: seq<Byte>, goes: nat,
                           data: seq<Byte>, after: seq<Byte>)
      requires Patched(flat, target, p.first, p.mid) && Patched(p.mid, pos + |p.first|, p.rest, before)
      requires Patched(before, goes, data, after)
      requires if p.first == [] then p.rest == [] && before == flat && goes == target && pos + |data| <= |after|
               else goes == pos + Length(p)
      ensures var q := More(p, data, after);
        Patched(flat, target, q.first, q.mid) && Patched(q.mid, pos + |q.first|, q.rest, after)
    {
      if p.first == [] {
        PatchedNot(after, pos + |data|);
      } else {
        PatchedTwice(p.mid, pos + |p.first|, p.rest, before, data, after);
      }
    }

    static lemma StoredMore(ba: ByteArray, flat: seq<Byte>, target: nat, pos: nat, size: nat, p: Pieces,
                            before: seq<Byte>, goes: nat, was: nat, data: seq<Byte>)
      requires Patched(flat, target, p.first, p.mid) && Patched(p.mid, pos + |p.first|, p.rest, before)
      requires if p.first == [] then p.rest == [] && before == flat && goes == target else goes == pos + Length(p)
      requires Holds(ba, before, goes, pos + Length(p), was, data) && was == Max(size, pos + Length(p))
      requires p.first != [] ==> ba.Synced()
      ensures InTwo(ba, flat, target, pos, size, More(p, data, ba.flat))
    {
      MoreInTwo(flat, target, pos, p, before, goes, data, ba.flat);
    }

    static lemma Regroup(p: Pieces, data: seq<Byte>, after: seq<Byte>, incoming: seq<Byte>)
      requires p.first == [] ==> p.rest == []
      ensures var q := More(p, data, after); q.first + q.rest + incoming == p.first + p.rest + (data + incoming)
    {
    }

    /** Having moved `n` bytes, a loop that insists on `left` more will have moved `most`. */
    ghost predicate Heading(n: nat, left: nat, avail: nat, most: nat)
      reads this`connected, this`grants
    {
      connected ==> n + Insisting(Allowance(grants), left, avail) == most
    }

    /** One more turn of the loop below; `all` is what there was to receive from the start. */
    method ReadMore(ba: ByteArray, left: nat, ghost flat: seq<Byte>, ghost target: nat, ghost pos: nat, ghost size: nat,
                    ghost p0: Pieces, ghost all: seq<Byte>)
      returns (r: Outcome<int>, ghost p: Pieces)
      requires InTwo(ba, flat, target, pos, size, p0) && Untouched(ba, flat, target, p0)
      requires this !in ba.Repr && left > 0 && all == p0.first + p0.rest + incoming
      modifies this`grants, this`incoming, ba, ba.Repr
      ensures fresh(ba.Repr - old(ba.Repr)) && InTwo(ba, flat, target, pos, size, p)
      ensures all == p.first + p.rest + incoming && Length(p0) <= Length(p) <= Length(p0) + left
      ensures Length(p) > 0 ==> Untouched(ba, flat, target, p)
      ensures old(ba.Synced()) ==> ba.Synced()
      ensures r == NullCursor <==> connected && old(ba.cur) == null
      ensures if r.Ok? && r.value > 0 then Length(p) == Length(p0) + r.value && old(ba.cur) != null
              else Length(p) == Length(p0)
      ensures r.Ok? || r == NullCursor
      ensures if !connected then r == Ok(-1)
              else r.Ok? ==> r == Ok(Answer(old(grants), Min(left, |old(incoming)|))) && grants == Used(old(grants))
      ensures Length(p) < Length(p0) + left && r.Ok? && old(ba.cur) != null ==> ba.cur != null
    {
      ghost var (before, goes, data) := (ba.flat, ba.Target(), []);
      ghost var was := ba.size;
      r, data := Read(ba, left);
      p := More(p0, data, ba.flat);
      StoredMore(ba, flat, target, pos, size, p0, before, goes, was, data);
      Regroup(p0, data, ba.flat, incoming);
    }

    /** Where the loop below stands with `left` bytes to go: what has been received is stored. */
    ghost predicate Midway(ba: ByteArray, flat: seq<Byte>, target: nat, pos: nat, size: nat, p: Pieces, all: seq<Byte>)
      reads this, ba, ba.Repr
    {
      && InTwo(ba, flat, target, pos, size, p) && Untouched(ba, flat, target, p)
      && this !in ba.Repr && all == p.first + p.rest + incoming
    }

    /** A turn of the loop, with what it is heading for. */
    method ReadTurn(ba: ByteArray, left: nat, ghost flat: seq<Byte>, ghost target: nat, ghost pos: nat, ghost size: nat,
                    ghost p0: Pieces, ghost all: seq<Byte>, ghost most: nat)
      returns (r: Outcome<int>, ghost p: Pieces)
      requires Midway(ba, flat, target, pos, size, p0, all) && left > 0 && Heading(Length(p0), left, |incoming|, most)
      modifies this`grants, this`incoming, ba, ba.Repr
      ensures fresh(ba.Repr - old(ba.Repr)) && (old(ba.Synced()) ==> ba.Synced())
      ensures if r.Ok? && r.value > 0
              then && Midway(ba, flat, target, pos, size, p, all) && Length(p) == Length(p0) + r.value
                   && r.value <= left && connected && old(ba.cur) != null && (r.value < left ==> ba.cur != null)
                   && Heading(Length(p), left - r.value, |incoming|, most)
              else && InTwo(ba, flat, target, pos, size, p) && all == p.first + p.rest + incoming
                   && Length(p) == Length(p0) && (r.Ok? && connected ==> Length(p) == most)
      ensures r == NullCursor <==> connected && old(ba.cur) == null
      ensures r.Ok? || r == NullCursor
    {
      ghost var (gs, avail) := (grants, |incoming|);
      r, p := ReadMore(ba, left, flat, target, pos, size, p0, all);
      if connected && r.Ok? {
        assert |incoming| == avail - Moved(r.value);
        InsistingTurn(gs, left, avail, r.value);
      }
    }

    /** Insists on `length` bytes. Whatever arrived before the end or a failure is stored in
        order: with a cursor in step, at the position; otherwise the first piece goes where
        the cursor points and the rest behind the position. Success means that all of it
        arrived. */
    method ReadFixSize(ba: ByteArray, length: nat) returns (r: Outcome<int>, ghost p: Pieces)
      requires ba.Valid() && this !in ba.Repr
      modifies this`grants, this`incoming, ba, ba.Repr
      ensures fresh(ba.Repr - old(ba.Repr)) && old(incoming) == p.first + p.rest + incoming
      ensures InTwo(ba, old(ba.flat), old(ba.Target()), old(ba.position), old(ba.size), p)
      ensures old(ba.Synced()) ==> Stored(ba, p.first + p.rest)
      ensures r == NullCursor <==> connected && length > 0 && old(ba.cur) == null
      ensures r.Ok? || r == NullCursor
      ensures Length(p) == length <==> r == Ok(length as int)
      ensures r.Ok? && Length(p) != length ==> r.value <= 0 && Length(p) < length
      ensures Length(p)
           == if connected && old(ba.cur) != null then Insisting(Allowance(old(grants)), length, |old(incoming)|) else 0
      ensures r == Ok(length as int) <==>
        || length == 0
        || (connected && old(ba.cur) != null && length <= |old(incoming)| && length <= Allowance(old(grants)))
    {
      ghost var (synced, target) := (ba.Synced(), ba.Target());
      r, p := ReadStart(ba, length, Insisting(Allowance(grants), length, |incoming|));
      if synced {
        assert target == old(ba.position);
        PatchedTwice(old(ba.flat), target, p.first, p.mid, p.rest, ba.flat);
      }
    }

    /** The loop, from its start. */
    method ReadStart(ba: ByteArray, length: nat, ghost most: nat) returns (r: Outcome<int>, ghost p: Pieces)
      requires ba.Valid() && this !in ba.Repr && Heading(0, length, |incoming|, most)
      modifies this`grants, this`incoming, ba, ba.Repr
      ensures fresh(ba.Repr - old(ba.Repr)) && old(incoming) == p.first + p.rest + incoming
      ensures InTwo(ba, old(ba.flat), old(ba.Target()), old(ba.position), old(ba.size), p)
      ensures old(ba.Synced()) ==> ba.Synced()
      ensures r == NullCursor <==> connected && length > 0 && old(ba.cur) == null
      ensures r.Ok? || r == NullCursor
      ensures Length(p) == length <==> r == Ok(length as int)
      ensures r.Ok? && Length(p) != length ==> r.value <= 0 && Length(p) < length
      ensures Length(p) == if connected && old(ba.cur) != null then most else 0
    {
      ghost var (flat, target, all) := (ba.flat, ba.Target(), incoming);
      PatchedNot(flat, target);
      PatchedNot(flat, ba.position);
      r, p := ReadLoop(ba, length, flat, target, ba.position, ba.size, all, most);
    }

    method ReadLoop(ba: ByteArray, length: nat, ghost flat: seq<Byte>, ghost target: nat, ghost pos: nat,
                    ghost size: nat, ghost all: seq<Byte>, ghost most: nat)
      returns (r: Outcome<int>, ghost p: Pieces)
      requires Midway(ba, flat, target, pos, size, Pieces([], flat, []), all) && Heading(0, length, |incoming|, most)
      modifies this`grants, this`incoming, ba, ba.Repr
      ensures fresh(ba.Repr - old(ba.Repr)) && all == p.first + p.rest + incoming
      ensures InTwo(ba, flat, target, pos, size, p) && (old(ba.Synced()) ==> ba.Synced())
      ensures r == NullCursor <==> connected && length > 0 && old(ba.cur) == null
      ensures r.Ok? || r == NullCursor
      ensures Length(p) == length <==> r == Ok(length as int)
      ensures r.Ok? && Length(p) != length ==> r.value <= 0 && Length(p) < length
      ensures Length(p) == if connected && old(ba.cur) != null then most else 0
    {
      p := Pieces([], flat, []);
      var left: nat := length;
      while left > 0
        invariant fresh(ba.Repr - old(ba.Repr)) && (old(ba.Synced()) ==> ba.Synced())
        invariant Midway(ba, flat, target, pos, size, p, all) && Length(p) + left == length
        invariant left > 0 ==> (ba.cur == null <==> old(ba.cur) == null)
        invariant left < length ==> old(ba.cur) != null && connected
        invariant Heading(Length(p), left, |incoming|, most)
        decreases left
      {
        r, p := ReadTurn(ba, left, flat, target, pos, size, p, all, most);
        if !r.Ok? || r.value <= 0 {
          return;
        }
        left := left - r.value;
      }
      return Ok(length), p;
    }

    /** The first `n` bytes sent, from `target` on, and those the position moved over since. */
    static ghost function SentInTwo(ba: ByteArray, target: nat, pos: nat, n: nat): seq<Byte>
      requires target + n <= |ba.flat| && pos + n <= ba.position <= |ba.flat|
      reads ba
    {
      ba.flat[target..target + n] + ba.flat[pos + n..ba.position]
    }

    /** The unread bytes, at most `length` of them, as a list for the kernel to take from. */
    static method Unread(ba: ByteArray, length: nat) returns (vs: seq<Iovec>, n: nat)
      requires ba.Valid()
      ensures ba.position <= ba.size && n == Min(ba.size - ba.position, length)
      ensures ba.Shows(vs, ba.Target(), ba.Target() + n)
    {
      vs, n := ba.GetReadBuffers(length);
    }

    /** Hands at most `length` of the unread bytes to the kernel. */
    method SendUnread(ba: ByteArray, length: nat) returns (rt: int)
      requires ba.Valid() && this !in ba.Repr
      modifies this`grants, this`outgoing
      ensures rt <= length && ba.position + Moved(rt) <= ba.size && ba.Target() + Moved(rt) <= |ba.flat|
      ensures rt == Answer(old(grants), Min(length, ba.size - ba.position)) && grants == Used(old(grants))
      ensures outgoing == old(outgoing) + ba.flat[ba.Target()..ba.Target() + Moved(rt)]
    {
      var vs, n := Unread(ba, length);
      rt := Send(View(vs), n);
      Front(ba.flat, ba.Target(), n, rt);
    }

    /** Sends at most `length` of the unread bytes, from where the cursor points, and moves the
        position over as many, which puts the cursor in step. */
    method Write(ba: ByteArray, length: nat) returns (rt: int)
      requires ba.Valid() && this !in ba.Repr
      modifies this`grants, this`outgoing, ba`position, ba`size, ba`cur, ba`at
      ensures ba.Valid() && ba.size == old(ba.size) && rt <= length && ba.position == old(ba.position) + Moved(rt)
      ensures old(ba.Synced()) || rt > 0 ==> ba.Synced()
      ensures rt <= 0 ==> ba.Target() == old(ba.Target())
      ensures old(ba.Target()) + Moved(rt) <= |ba.flat|
      ensures outgoing == old(outgoing) + ba.flat[old(ba.Target())..old(ba.Target()) + Moved(rt)]
      ensures if !connected then rt == -1 && grants == old(grants)
              else rt == Answer(old(grants), Min(length, old(ba.size - ba.position))) && grants == Used(old(grants))
    {
      if !connected {
        return -1;
      }
      rt := SendUnread(ba, length);
      if rt > 0 {
        var _ := ba.SetPosition(ba.position + rt);
      }
    }

    /** What has gone out so far, and where the buffer stands. */
    ghost predicate Sent(ba: ByteArray, had: seq<Byte>, target: nat, pos: nat, n: nat)
      reads this`outgoing, ba, ba.Repr
    {
      && ba.Valid() && target + n <= |ba.flat| && pos + n <= ba.position
      && outgoing == had + SentInTwo(ba, target, pos, n)
      && if n == 0 then ba.position == pos && ba.Target() == target else ba.Synced()
    }

    /** One more turn of the loop below. */
    method WriteMore(ba: ByteArray, left: nat, ghost had: seq<Byte>, ghost target: nat, ghost pos: nat, ghost n0: nat)
      returns (len: int, ghost n: nat)
      requires Sent(ba, had, target, pos, n0) && this !in ba.Repr
      modifies this`grants, this`outgoing, ba`position, ba`size, ba`cur, ba`at
      ensures Sent(ba, had, target, pos, n) && ba.size == old(ba.size) && (old(ba.Synced()) ==> ba.Synced())
      ensures len <= left && ba.position == old(ba.position) + Moved(len)
      ensures if !connected then len == -1
              else len == Answer(old(grants), Min(left, old(ba.size - ba.position))) && grants == Used(old(grants))
    {
      ghost var (at, was) := (ba.Target(), ba.position);
      len := Write(ba, left);
      n := SentMore(ba, had, target, pos, n0, at, was, Moved(len));
    }

    /** The same, with what the loop is heading for. */
    method WriteTurn(ba: ByteArray, left: nat, ghost had: seq<Byte>, ghost target: nat, ghost pos: nat, ghost n0: nat,
                     ghost most: nat)
      returns (len: int, ghost n: nat)
      requires Sent(ba, had, target, pos, n0) && this !in ba.Repr && left > 0
      requires Heading(ba.position - pos, left, ba.size - ba.position, most)
      modifies this`grants, this`outgoing, ba`position, ba`size, ba`cur, ba`at
      ensures Sent(ba, had, target, pos, n) && ba.size == old(ba.size) && (old(ba.Synced()) ==> ba.Synced())
      ensures len <= left && ba.position == old(ba.position) + Moved(len)
      ensures len > 0 ==> connected && Heading(ba.position - pos, left - len, ba.size - ba.position, most)
      ensures len <= 0 && connected ==> ba.position - pos == most
    {
      ghost var (gs, avail) := (grants, ba.size - ba.position);
      len, n := WriteMore(ba, left, had, target, pos, n0);
      if connected {
        InsistingTurn(gs, left, avail, len);
      }
    }

    lemma SentMore(ba: ByteArray, had: seq<Byte>, target: nat, pos: nat, n0: nat, at: nat, was: nat, len: nat)
      returns (n: nat)
      requires ba.Valid() && target + n0 <= |ba.flat| && pos + n0 <= was && ba.position == was + len
      requires at + len <= |ba.flat| && if n0 == 0 then was == pos && at == target else at == was
      requires outgoing == had + (ba.flat[target..target + n0] + ba.flat[pos + n0..was]) + ba.flat[at..at + len]
      requires if n0 == 0 && len == 0 then ba.Target() == target else ba.Synced()
      ensures Sent(ba, had, target, pos, n)
    {
      n := if n0 == 0 then len else n0;
      MoreSent(had, ba.flat, target, pos, n0, at, was, len);
    }

    static lemma MoreSent(had: seq<Byte>, flat: seq<Byte>, target: nat, pos: nat, n: nat, at: nat, was: nat, len: nat)
      requires target + n <= |flat| && pos + n <= was && was + len <= |flat| && at + len <= |flat|
      requires if n == 0 then was == pos && at == target else at == was
      ensures had + (flat[target..target + n] + flat[pos + n..was]) + flat[at..at + len]
           == had + if n == 0 then flat[target..target + len] + flat[pos + len..was + len]
                    else flat[target..target + n] + flat[pos + n..was + len]
    {
      if n == 0 {
        assert flat[target..target] == [] && flat[pos..was] == [] && flat[pos + len..was + len] == [];
      } else {
        SliceJoin(flat, pos + n, was, was + len);
      }
    }

    method WriteLoop(ba: ByteArray, length: nat, ghost most: nat) returns (r: int, ghost n: nat)
      requires ba.Valid() && this !in ba.Repr && Heading(0, length, ba.size - ba.position, most)
      modifies this`grants, this`outgoing, ba`position, ba`size, ba`cur, ba`at
      ensures Sent(ba, old(outgoing), old(ba.Target()), old(ba.position), n) && ba.size == old(ba.size)
      ensures ba.position <= old(ba.position) + length && (old(ba.Synced()) ==> ba.Synced())
      ensures r == length <==> ba.position == old(ba.position) + length
      ensures r != length ==> r <= 0
      ensures ba.position == old(ba.position) + if connected then most else 0
    {
      ghost var (target, pos, had) := (ba.Target(), ba.position, outgoing);
      n := 0;
      assert ba.flat[target..target] + ba.flat[pos..pos] == [];
      var left: nat := length;
      while left > 0
        invariant Sent(ba, had, target, pos, n) && ba.size == old(ba.size) && ba.position + left == pos + length
        invariant (old(ba.Synced()) ==> ba.Synced()) && ba.position <= ba.size
        invariant Heading(ba.position - pos, left, ba.size - ba.position, most) && (left < length ==> connected)
        decreases left
      {
        var len;
        len, n := WriteTurn(ba, left, had, target, pos, n, most);
        if len <= 0 {
          return len, n;
        }
        left := left - len;
      }
      return length, n;
    }

    /** Insists on sending `length` bytes. With a cursor in step, what went out is what the
        position moved over; otherwise the first `n` bytes are those where the cursor points. */
    method WriteFixSize(ba: ByteArray, length: nat) returns (r: int, ghost n: nat)
      requires ba.Valid() && this !in ba.Repr
      modifies this`grants, this`outgoing, ba`position, ba`size, ba`cur, ba`at
      ensures Sent(ba, old(outgoing), old(ba.Target()), old(ba.position), n) && ba.size == old(ba.size)
      ensures ba.position <= old(ba.position) + length
      ensures old(ba.Synced()) ==> ba.Synced() && outgoing == old(outgoing) + ba.flat[old(ba.position)..ba.position]
      ensures r == length <==> ba.position == old(ba.position) + length
      ensures r != length ==> r <= 0
      ensures ba.position - old(ba.position)
           == if connected then Insisting(Allowance(old(grants)), length, old(ba.size - ba.position)) else 0
      ensures r == length <==>
        length == 0 || (connected && length <= old(ba.size - ba.position) && length <= Allowance(old(grants)))
    {
      ghost var (synced, target, pos) := (ba.Synced(), ba.Target(), ba.position);
      r, n := WriteLoop(ba, length, Insisting(Allowance(grants), length, ba.size - pos));
      if synced {
        assert target == pos;
        SliceJoin(ba.flat, pos, pos + n, ba.position);
      }
    }

    /** The first `got` bytes of memory are what was received, the others as they were. */
    ghost predicate Filled(buffer: array<Byte>, got: nat, all: seq<Byte>, orig: seq<Byte>)
      reads this`incoming, buffer
    {
      && got <= buffer.Length == |orig| && all == buffer[..got] + incoming
      && buffer[got..] == orig[got..]
    }

    /** One turn of the loop below. */
    method FillMore(buffer: array<Byte>, got: nat, left: nat, ghost all: seq<Byte>, ghost orig: seq<Byte>)
      returns (len: int)
      requires Filled(buffer, got, all, orig) && got + left <= buffer.Length
      modifies this`grants, this`incoming, buffer
      ensures Filled(buffer, got + Moved(len), all, orig) && len <= left
      ensures len == Answer(old(grants), Min(left, |old(incoming)|)) && grants == Used(old(grants))
    {
      ghost var (had, rest) := (buffer[..got], incoming);
      var data;
      len, data := Recv(left);
      if len > 0 {
        CopyInto(buffer, got, data);
        assert buffer[..got + len] == had + data;
        assert had + (data + incoming) == had + data + incoming;
        assert buffer[got + len..] == orig[got + len..] by {
          assert forall i | got + len <= i < buffer.Length :: buffer[i] == orig[got..][i - got];
        }
      }
    }

    method FillTurn(buffer: array<Byte>, got: nat, left: nat, ghost all: seq<Byte>, ghost orig: seq<Byte>,
                    ghost most: nat)
      returns (len: int)
      requires Filled(buffer, got, all, orig) && got + left <= buffer.Length && left > 0 && connected
      requires Heading(got, left, |incoming|, most)
      modifies this`grants, this`incoming, buffer
      ensures Filled(buffer, got + Moved(len), all, orig) && len <= left
      ensures if len > 0 then Heading(got + len, left - len, |incoming|, most) else got == most
    {
      ghost var (gs, avail) := (grants, |incoming|);
      len := FillMore(buffer, got, left, all, orig);
      InsistingTurn(gs, left, avail, len);
    }

    /** The same loop into plain memory. */
    method ReadFixSizeRaw(buffer: array<Byte>, length: nat) returns (r: int, ghost got: nat)
      requires length <= buffer.Length
      modifies this`grants, this`incoming, buffer
      ensures got <= length && old(incoming) == buffer[..got] + incoming
      ensures buffer[got..] == old(buffer[..])[got..]
      ensures r == length <==> got == length
      ensures r != length ==> r <= 0
      ensures got == if connected then Insisting(Allowance(old(grants)), length, |old(incoming)|) else 0
      ensures r == length <==>
        length == 0 || (connected && length <= |old(incoming)| && length <= Allowance(old(grants)))
    {
      ghost var (all, orig, most) := (incoming, buffer[..], Insisting(Allowance(grants), length, |incoming|));
      var offset: nat, left: nat := 0, length;
      while left > 0
        invariant offset + left == length && Filled(buffer, offset, all, orig)
        invariant Heading(offset, left, |incoming|, most) && (left < length ==> connected)
        decreases left
      {
        if !connected {
          return -1, offset;
        }
        var len := FillTurn(buffer, offset, left, all, orig, most);
        if len <= 0 {
          return len, offset;
        }
        offset, left := offset + len, left - len;
      }
      return length, offset;
    }

    /** One turn of the loop below. */
    method SendTurn(buffer: array<Byte>, offset: nat, left: nat, ghost had: seq<Byte>, ghost most: nat)
      returns (len: int)
      requires offset + left <= buffer.Length && left > 0 && connected && Heading(offset, left, left, most)
      requires outgoing == had + buffer[..offset]
      modifies this`grants, this`outgoing
      ensures len <= left && outgoing == had + buffer[..offset + Moved(len)]
      ensures if len > 0 then Heading(offset + len, left - len, left - len, most) else offset == most
    {
      ghost var gs := grants;
      len := Send(buffer[offset..offset + left], left);
      InsistingTurn(gs, left, left, len);
      assert buffer[..offset + Moved(len)] == buffer[..offset] + buffer[offset..offset + left][..Moved(len)];
    }

    method WriteFixSizeRaw(buffer: array<Byte>, length: nat) returns (r: int, ghost sent: nat)
      requires length <= buffer.Length
      modifies this`grants, this`outgoing
      ensures sent <= length && outgoing == old(outgoing) + buffer[..sent]
      ensures r == length <==> sent == length
      ensures r != length ==> r <= 0
      ensures sent == if connected then Insisting(Allowance(old(grants)), length, length) else 0
      ensures r == length <==> length == 0 || (connected && length <= Allowance(old(grants)))
    {
      var offset: nat, left: nat := 0, length;
      sent := 0;
      ghost var most := Insisting(Allowance(grants), length, length);
      while left > 0
        invariant offset == sent && offset + left == length
        invariant outgoing == old(outgoing) + buffer[..sent]
        invariant Heading(offset, left, left, most) && (left < length ==> connected)
        decreases left
      {
        if !connected {
          return -1, sent;
        }
        var len := SendTurn(buffer, offset, left, old(outgoing), most);
        if len <= 0 {
          return len, sent;
        }
        offset, left, sent := offset + len, left - len, sent + len;
      }
      return length, sent;
    }
  }
}
