/** The number and string encodings of the byte buffer, as functions on bytes:
    fixed-width integers in either byte order, base-128 varints, zigzag, and
    length-prefixed strings. */
module Codec {
  import opened Chunks

  const TWO_7 := 0x80
  const TWO_31 := 0x8000_0000
  const TWO_32 := 0x1_0000_0000
  const TWO_62 := 0x4000_0000_0000_0000
  const TWO_63 := 0x8000_0000_0000_0000
  const TWO_64 := 0x1_0000_0000_0000_0000

  /** Conversion to an unsigned or a signed two's complement type of `m` values. */
  function Unsigned(x: int, m: nat): (u: nat)
    requires m > 0
  {
    x % m
  }

  function Signed(x: int, m: nat): (v: int)
    requires m > 0
  {
    if x % m < m / 2 then x % m else x % m - m
  }

  lemma ProductBounds(m: int, q: int)
    requires m >= 0
    ensures q >= 1 ==> m * q >= m
    ensures q <= -1 ==> m * q <= -m
    ensures q <= -2 ==> m * q <= -2 * m
  {
  }

  lemma UnsignedInRange(v: nat, m: nat)
    requires v < m
    ensures Unsigned(v, m) == v
  {
    ProductBounds(m, v / m);
    assert v == m * (v / m) + v % m;
  }

  /** Two's complement loses nothing in range. */
  lemma SignedInverse(v: int, m: nat)
    requires m > 0 && m % 2 == 0 && -(m / 2) <= v < m / 2
    ensures Unsigned(v, m) == (if v < 0 then v + m else v) && Signed(Unsigned(v, m), m) == v
  {
    ProductBounds(m, v / m);
    assert v == m * (v / m) + v % m;
    UnsignedInRange(Unsigned(v, m), m);
  }

  // ---------------------------------------------------------------- zigzag

  /** `EncodeZigzag32` and `EncodeZigzag64`, with the wrap-around of the unsigned type. */
  function EncodeZigzag(v: int, m: nat): (u: nat)
    requires m > 0
  {
    if v < 0 then Unsigned(Unsigned(-v, m) * 2 - 1, m) else Unsigned(v * 2, m)
  }

  /** `(v >> 1) ^ -(v & 1)` on a 64-bit signed value: the shift keeps the sign, and
      the exclusive or with -1 is the complement `-x - 1`. */
  function DecodeZigzag(v: int): (r: int) {
    if v % 2 == 1 then -(v / 2) - 1 else v / 2
  }

  /** What `readInt32` returns for the unsigned value it has read. */
  function DecodeInt32(u: nat): (v: int) {
    Signed(DecodeZigzag(u), TWO_32)
  }

  /** What `DecodeZigzag64` makes of an unsigned 64-bit value: its argument is signed. */
  function DecodeInt64(u: nat): (v: int) {
    Signed(DecodeZigzag(Signed(u, TWO_64)), TWO_64)
  }

  /** Zigzag puts the sign in the lowest bit. */
  lemma ZigzagInterleaves(v: int, m: nat)
    requires (m == TWO_32 && -TWO_31 <= v < TWO_31) || (m == TWO_64 && -TWO_63 <= v < TWO_63)
    ensures EncodeZigzag(v, m) == if v < 0 then -2 * v - 1 else 2 * v
    ensures EncodeZigzag(v, m) < m && DecodeZigzag(EncodeZigzag(v, m)) == v
  {
    if v < 0 {
      UnsignedInRange(-v, m);
      UnsignedInRange(-v * 2 - 1, m);
    } else {
      UnsignedInRange(v * 2, m);
    }
  }

  /** 32-bit zigzag is a bijection between the signed and the unsigned values. */
  lemma Zigzag32Bijection(v: int, u: nat)
    ensures -TWO_31 <= v < TWO_31 ==> EncodeZigzag(v, TWO_32) < TWO_32 && DecodeInt32(EncodeZigzag(v, TWO_32)) == v
    ensures u < TWO_32 ==> -TWO_31 <= DecodeInt32(u) < TWO_31 && EncodeZigzag(DecodeInt32(u), TWO_32) == u
  {
    if -TWO_31 <= v < TWO_31 {
      ZigzagInterleaves(v, TWO_32);
    }
    if u < TWO_32 {
      assert DecodeInt32(u) == DecodeZigzag(u);
      ZigzagInterleaves(DecodeZigzag(u), TWO_32);
    }
  }

  /** 64-bit zigzag comes back exactly for the values of 63 bits: for the others the
      encoding has its top bit set and the decoder's shift smears it. */
  lemma Zigzag64RoundTrip(v: int)
    requires -TWO_63 <= v < TWO_63
    ensures DecodeInt64(EncodeZigzag(v, TWO_64)) == v <==> -TWO_62 <= v < TWO_62
  {
    ZigzagInterleaves(v, TWO_64);
    var u := EncodeZigzag(v, TWO_64);
    if -TWO_62 <= v < TWO_62 {
      assert Signed(u, TWO_64) == u;
    } else {
      assert Signed(u, TWO_64) == u - TWO_64;
      assert DecodeZigzag(u - TWO_64) == if v < 0 then v + TWO_63 else v - TWO_63;
    }
  }

  lemma Zigzag64Fails()
    ensures DecodeInt64(EncodeZigzag(TWO_62, TWO_64)) == -TWO_62
  {
  }

  // ---------------------------------------------------- fixed-width integers

  function Limit(w: nat): (m: nat)
    ensures m > 0
  {
    if w == 0 then 1 else 256 * Limit(w - 1)
  }

  /** The `w` bytes of a number, lowest first. */
  function LowFirst(v: nat, w: nat): (bytes: seq<Byte>)
    ensures |bytes| == w
    decreases w
  {
    if w == 0 then [] else [v % 256] + LowFirst(v / 256, w - 1)
  }

  function FromLowFirst(bytes: seq<Byte>): (v: nat) {
    if bytes == [] then 0 else bytes[0] + 256 * FromLowFirst(bytes[1..])
  }

  lemma {:induction false} FromLowFirstInverse(v: nat, w: nat)
    requires v < Limit(w)
    ensures FromLowFirst(LowFirst(v, w)) == v
    decreases w
  {
    if w > 0 {
      FromLowFirstInverse(v / 256, w - 1);
    }
  }

  lemma {:induction false} LowFirstInverse(bytes: seq<Byte>)
    ensures FromLowFirst(bytes) < Limit(|bytes|)
    ensures LowFirst(FromLowFirst(bytes), |bytes|) == bytes
  {
    if bytes != [] {
      LowFirstInverse(bytes[1..]);
      var rest := FromLowFirst(bytes[1..]);
      assert (bytes[0] + 256 * rest) / 256 == rest && (bytes[0] + 256 * rest) % 256 == bytes[0];
    }
  }

  lemma SplitTwice(b: nat, m: nat, a: nat, t: nat, r: nat)
    requires t < m && r < b
    ensures b * (m * a + t) + r == b * m * a + (b * t + r) && b * t + r < b * m
  {
    assert b * (m * a + t) == b * (m * a) + b * t;
    assert b * t + b <= b * m by {
      assert b * (t + 1) == b * t + b;
      ProductMono(b, t + 1, m);
    }
  }

  lemma ProductMono(b: nat, x: nat, y: nat)
    requires x <= y
    ensures b * x <= b * y
  {
    assert b * y == b * x + b * (y - x);
  }

  /** Dividing twice is dividing by the product. */
  lemma DivideTwice(v: nat, b: nat, m: nat)
    requires b > 0 && m > 0
    ensures b * m > 0 && v / b / m == v / (b * m)
  {
    var (q, r) := (v / b, v % b);
    var (a, t) := (q / m, q % m);
    assert v == b * q + r && q == m * a + t;
    SplitTwice(b, m, a, t, r);
    QuotientIs(v, b * m, a, b * t + r);
  }

  lemma QuotientIs(v: nat, m: nat, a: nat, r: nat)
    requires m > 0 && v == m * a + r && r < m
    ensures v / m == a
  {
    var d := v / m - a;
    assert m * (v / m) + v % m == v;
    assert m * d == r - v % m by {
      assert m * (v / m) == m * a + m * d;
    }
    ProductBounds(m, d);
  }

  /** Byte `i` of a number, lowest first, is its digit `i` in base 256. */
  lemma {:induction false} LowFirstAt(v: nat, w: nat, i: nat)
    requires i < w
    ensures LowFirst(v, w)[i] == v / Limit(i) % 256
    decreases w
  {
    if i > 0 {
      LowFirstAt(v / 256, w - 1, i - 1);
      DivideTwice(v, 256, Limit(i - 1));
    }
  }

  function Reverse(s: seq<Byte>): (r: seq<Byte>)
    ensures |r| == |s|
    ensures forall i | 0 <= i < |s| :: r[i] == s[|s| - 1 - i]
  {
    seq(|s|, i requires 0 <= i < |s| => s[|s| - 1 - i])
  }

  lemma ReverseTwice(s: seq<Byte>)
    ensures Reverse(Reverse(s)) == s
  {
  }

  /** The memory of a `w`-byte number on a host of either byte order, and back. */
  function Image(v: nat, w: nat, hostLittle: bool): (bytes: seq<Byte>)
    ensures |bytes| == w
  {
    if hostLittle then LowFirst(v, w) else Reverse(LowFirst(v, w))
  }

  function FromImage(bytes: seq<Byte>, hostLittle: bool): (v: nat) {
    FromLowFirst(if hostLittle then bytes else Reverse(bytes))
  }

  function Byteswap(v: nat, w: nat): (r: nat) {
    FromLowFirst(Reverse(LowFirst(v, w)))
  }

  /** `writeFuint`: swap unless the buffer has the host's byte order, then copy the memory. */
  function EncodeFixed(v: nat, w: nat, little: bool, hostLittle: bool): (bytes: seq<Byte>)
    ensures |bytes| == w
  {
    Image(if little != hostLittle then Byteswap(v, w) else v, w, hostLittle)
  }

  /** `readFuint`: copy the memory, then swap unless the byte orders agree. */
  function DecodeFixed(bytes: seq<Byte>, little: bool, hostLittle: bool): (v: nat) {
    var v := FromImage(bytes, hostLittle);
    if little != hostLittle then Byteswap(v, |bytes|) else v
  }

  lemma ByteswapBytes(v: nat, w: nat)
    ensures LowFirst(Byteswap(v, w), w) == Reverse(LowFirst(v, w))
  {
    LowFirstInverse(Reverse(LowFirst(v, w)));
  }

  /** The bytes on the wire follow the buffer's byte order, whatever the host's is. */
  lemma WireOrder(v: nat, w: nat, little: bool, hostLittle: bool)
    ensures EncodeFixed(v, w, little, hostLittle) == if little then LowFirst(v, w) else Reverse(LowFirst(v, w))
  {
    if little != hostLittle {
      ByteswapBytes(v, w);
      ReverseTwice(LowFirst(v, w));
    }
  }

  /** A fixed-width number written on one host reads back the same on any other. */
  lemma FixedRoundTrip(v: nat, w: nat, little: bool, writer: bool, reader: bool)
    requires v < Limit(w)
    ensures DecodeFixed(EncodeFixed(v, w, little, writer), little, reader) == v
  {
    WireOrder(v, w, little, writer);
    FromLowFirstInverse(v, w);
    ReverseTwice(LowFirst(v, w));
    if little != reader {
      ByteswapBytes(FromLowFirst(Reverse(LowFirst(v, w))), w);
      LowFirstInverse(Reverse(LowFirst(v, w)));
      LowFirstInverse(LowFirst(v, w));
    }
  }

  // ---------------------------------------------------------------- varints

  /** Seven bits to a byte, lowest first, the top bit set on all but the last. */
  function Varint(v: nat): (bytes: seq<Byte>)
    decreases v
  {
    if v < TWO_7 then [v] else [v % TWO_7 + TWO_7] + Varint(v / TWO_7)
  }

  predicate Terminated(bytes: seq<Byte>) {
    |bytes| > 0 && bytes[|bytes| - 1] < TWO_7 && forall i | 0 <= i < |bytes| - 1 :: bytes[i] >= TWO_7
  }

  function Pow128(n: nat): (m: nat)
    ensures m > 0
  {
    if n == 0 then 1 else 128 * Pow128(n - 1)
  }

  /** A number below `128^n` takes at most `n` bytes, and only the last is unmarked. */
  lemma {:induction false} VarintShape(v: nat, n: nat)
    requires n > 0 && v < Pow128(n)
    ensures 1 <= |Varint(v)| <= n && Terminated(Varint(v))
    decreases n
  {
    if v >= TWO_7 {
      assert Pow128(n) == 128 * Pow128(n - 1);
      VarintShape(v / TWO_7, n - 1);
    }
  }

  /** Byte `i` of a varint carries digit `i` of the number in base 128. */
  lemma {:induction false} VarintAt(v: nat, i: nat)
    requires i < |Varint(v)|
    ensures Varint(v)[i] % TWO_7 == v / Pow128(i) % TWO_7
    decreases v
  {
    if i > 0 {
      VarintAt(v / TWO_7, i - 1);
      DivideTwice(v, TWO_7, Pow128(i - 1));
    }
  }

  /** The writer's loop: `value & 0x7F | 0x80` while more than seven bits are left. */
  method EncodeVarint(v: nat) returns (tmp: seq<Byte>)
    ensures tmp == Varint(v)
  {
    tmp := [];
    var value: nat := v;
    while value >= TWO_7
      invariant tmp + Varint(value) == Varint(v)
    {
      tmp := tmp + [value % TWO_7 + TWO_7];
      value := value / TWO_7;
    }
    tmp := tmp + [value];
  }
}
