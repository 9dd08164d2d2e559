/** Streams of typed fields: what the read functions return on the bytes the write
    functions produced. */
module TypedStream {
  import opened Chunks
  import opened Codec
  import opened ByteArrays

  datatype Prefix = Len16 | Len32 | Len64 | LenVarint

  datatype Kind =
    | Fuint(width: nat)
    | Fint(width: nat)
    | Uint32
    | Int32
    | Uint64
    | Int64

  datatype Field =
    | Number(kind: Kind, value: int)
    | Text(prefix: Prefix, bytes: seq<Byte>)

  datatype Shape = NumberOf(kind: Kind) | TextOf(prefix: Prefix)

  function ShapeOf(f: Field): Shape {
    match f
    case Number(k, _) => NumberOf(k)
    case Text(p, _) => TextOf(p)
  }

  /** Byte order of the buffer and of the host, and what the host does with the shifts
      by 32 bits or more that `readUint64` makes: the language leaves that open. */
  datatype Setting = Setting(little: bool, hostLittle: bool, wideShift: (nat, nat, nat) -> nat)

  // ---------------------------------------------------------------- writing

  /** The unsigned number that goes out for a field value. */
  function ToWire(k: Kind, v: int): (u: nat) {
    match k
    case Fuint(w) => Unsigned(v, Limit(w))
    case Fint(w) => Unsigned(v, Limit(w))
    case Uint32 => Unsigned(v, TWO_32)
    case Int32 => EncodeZigzag(v, TWO_32)
    case Uint64 => Unsigned(v, TWO_64)
    case Int64 => EncodeZigzag(v, TWO_64)
  }

  function EncodeUnsigned(k: Kind, u: nat, s: Setting): (bytes: seq<Byte>) {
    match k
    case Fuint(w) => EncodeFixed(u, w, s.little, s.hostLittle)
    case Fint(w) => EncodeFixed(u, w, s.little, s.hostLittle)
    case _ => Varint(u)
  }

  /** The number that carries a string's length. */
  function LengthKind(p: Prefix): Kind {
    match p
    case Len16 => Fuint(2)
    case Len32 => Fuint(4)
    case Len64 => Fuint(8)
    case LenVarint => Uint64
  }

  function EncodeNumber(k: Kind, v: int, s: Setting): (bytes: seq<Byte>) {
    EncodeUnsigned(k, ToWire(k, v), s)
  }

  function Encode(f: Field, s: Setting): (bytes: seq<Byte>) {
    match f
    case Number(k, v) => EncodeNumber(k, v, s)
    case Text(p, t) => EncodeNumber(LengthKind(p), |t|, s) + t
  }

  function EncodeAll(fs: seq<Field>, s: Setting): (bytes: seq<Byte>) {
    if fs == [] then [] else Encode(fs[0], s) + EncodeAll(fs[1..], s)
  }

  // ---------------------------------------------------------------- reading

  /** A buffer being read: its bytes, the position, and whether the chain ends with
      the last byte. In that case the cursor is null once all bytes have been read. */
  datatype Source = Source(data: seq<Byte>, pos: nat, full: bool)

  function Grab(c: Source, n: nat): (r: Outcome<(seq<Byte>, Source)>) {
    if c.pos > |c.data| || n > |c.data| - c.pos then OutOfRange
    else if c.pos == |c.data| && c.full then NullCursor
    else Ok((c.data[c.pos..c.pos + n], c.(pos := c.pos + n)))
  }

  /** One byte's seven bits added to a 32-bit accumulator: those of byte `j` are shifted
      by `7*j`, and above the lower bits, so that the bitwise or is a sum. */
  function Accumulate(acc: nat, bits: nat, j: nat, s: Setting): (v: nat) {
    if j < 5 then acc + bits * Pow128(j) % TWO_32 else s.wideShift(acc, bits, j) % TWO_32
  }

  function GrabVarint(c: Source, acc: nat, j: nat, max: nat, s: Setting): (r: Outcome<(nat, Source)>)
    decreases max - j
  {
    if j >= max then Ok((acc, c))
    else
      match Grab(c, 1)
      case OutOfRange => OutOfRange
      case NullCursor => NullCursor
      case Ok(got) =>
        var b := got.0[0];
        var acc' := Accumulate(acc, b % TWO_7, j, s);
        if b < TWO_7 then Ok((acc', got.1)) else GrabVarint(got.1, acc', j + 1, max, s)
  }

  function GrabUnsigned(c: Source, k: Kind, s: Setting): (r: Outcome<(nat, Source)>) {
    match k
    case Uint32 => GrabVarint(c, 0, 0, 5, s)
    case Int32 => GrabVarint(c, 0, 0, 5, s)
    case Uint64 => GrabVarint(c, 0, 0, 10, s)
    case Int64 => GrabVarint(c, 0, 0, 10, s)
    case _ =>
      match Grab(c, k.width)
      case OutOfRange => OutOfRange
      case NullCursor => NullCursor
      case Ok(got) => Ok((DecodeFixed(got.0, s.little, s.hostLittle), got.1))
  }

  function FromWire(k: Kind, u: nat): (v: int) {
    match k
    case Fuint(w) => u
    case Fint(w) => Signed(u, Limit(w))
    case Uint32 => u
    case Int32 => DecodeInt32(u)
    case Uint64 => u
    case Int64 => DecodeInt64(u)
  }

  function GrabField(c: Source, shape: Shape, s: Setting): (r: Outcome<(Field, Source)>) {
    match shape
    case NumberOf(k) =>
      (match GrabUnsigned(c, k, s)
       case OutOfRange => OutOfRange
       case NullCursor => NullCursor
       case Ok(got) => Ok((Number(k, FromWire(k, got.0)), got.1)))
    case TextOf(p) =>
      match GrabUnsigned(c, LengthKind(p), s)
      case OutOfRange => OutOfRange
      case NullCursor => NullCursor
      case Ok(len) =>
        match Grab(len.1, len.0)
        case OutOfRange => OutOfRange
        case NullCursor => NullCursor
        case Ok(got) => Ok((Text(p, got.0), got.1))
  }

  function GrabAll(c: Source, shapes: seq<Shape>, s: Setting): (r: Outcome<seq<Field>>)
    decreases |shapes|
  {
    if shapes == [] then Ok([])
    else
      match GrabField(c, shapes[0], s)
      case OutOfRange => OutOfRange
      case NullCursor => NullCursor
      case Ok(got) =>
        match GrabAll(got.1, shapes[1..], s)
        case OutOfRange => OutOfRange
        case NullCursor => NullCursor
        case Ok(rest) => Ok([got.0] + rest)
  }

  // ------------------------------------------------------------- round trips

  predicate FitsNumber(k: Kind, v: int) {
    match k
    case Fuint(w) => 0 < w && 0 <= v < Limit(w)
    case Fint(w) => 0 < w && -(Limit(w) / 2) <= v < Limit(w) / 2
    case Uint32 => 0 <= v < TWO_32
    case Int32 => -TWO_31 <= v < TWO_31
    case Uint64 => 0 <= v < TWO_32
    case Int64 => -TWO_31 <= v < TWO_31
  }

  predicate Fits(f: Field) {
    match f
    case Number(k, v) => FitsNumber(k, v)
    case Text(p, t) => FitsNumber(LengthKind(p), |t|)
  }

  /** The source that has read `pre` and has `mid` and then `post` before it. */
  function At(pre: seq<Byte>, rest: seq<Byte>, full: bool): Source {
    Source(pre + rest, |pre|, full)
  }

  lemma GrabFront(pre: seq<Byte>, mid: seq<Byte>, post: seq<Byte>, full: bool)
    requires mid + post != []
    ensures Grab(At(pre, mid + post, full), |mid|) == Ok((mid, At(pre + mid, post, full)))
  {
    var c := At(pre, mid + post, full);
    assert c.data == pre + mid + post;
    assert c.data[|pre|..|pre| + |mid|] == mid;
    assert At(pre + mid, post, full).data == c.data;
  }

  /** Adding the lowest seven bits of `w` leaves the rest at the next power. */
  lemma SevenBits(acc: nat, w: nat, j: nat, s: Setting)
    requires j < 5 && acc + Pow128(j) * w < TWO_32
    ensures Accumulate(acc, w % TWO_7, j, s) == acc + w % TWO_7 * Pow128(j)
    ensures acc + w % TWO_7 * Pow128(j) + Pow128(j + 1) * (w / TWO_7) == acc + Pow128(j) * w
    ensures w >= TWO_7 ==> j + 1 < 5
  {
    var p := Pow128(j);
    LowBits(w, p);
    assert w % TWO_7 * p % TWO_32 == w % TWO_7 * p;
    assert Pow128(j + 1) == 128 * p;
    if w >= TWO_7 && j == 4 {
      Pow128At5();
      ProductMono(TWO_7, w, p);
    }
  }

  /** One turn of the reader takes the next byte. */
  lemma VarintTurn(pre: seq<Byte>, b: Byte, post: seq<Byte>, full: bool, acc: nat, acc': nat, j: nat,
                   max: nat, s: Setting)
    requires j < max && acc' == Accumulate(acc, b % TWO_7, j, s)
    ensures var c' := At(pre + [b], post, full);
      GrabVarint(At(pre, [b] + post, full), acc, j, max, s)
      == if b < TWO_7 then Ok((acc', c')) else GrabVarint(c', acc', j + 1, max, s)
  {
    GrabFront(pre, [b], post, full);
  }

  /** Reading back the rest `w` of a number whose lower bits are already in `acc`. */
  lemma {:induction false} VarintTail(pre: seq<Byte>, w: nat, post: seq<Byte>, full: bool, acc: nat, j: nat,
                                      max: nat, s: Setting)
    requires j < 5 <= max && acc + Pow128(j) * w < TWO_32
    ensures GrabVarint(At(pre, Varint(w) + post, full), acc, j, max, s)
         == Ok((acc + Pow128(j) * w, At(pre + Varint(w), post, full)))
    decreases w
  {
    var (b, rest) := (Varint(w)[0], Varint(w)[1..]);
    var acc' := acc + w % TWO_7 * Pow128(j);
    assert Varint(w) + post == [b] + (rest + post);
    SevenBits(acc, w, j, s);
    assert b % TWO_7 == w % TWO_7;
    VarintTurn(pre, b, rest + post, full, acc, acc', j, max, s);
    if w < TWO_7 {
      assert rest + post == post && [b] == Varint(w);
    } else {
      VarintTail(pre + [b], w / TWO_7, post, full, acc', j + 1, max, s);
      assert pre + [b] + Varint(w / TWO_7) == pre + Varint(w);
    }
  }

  lemma LowBits(w: nat, p: nat)
    ensures p * w == w % TWO_7 * p + 128 * p * (w / TWO_7)
    ensures w % TWO_7 * p <= p * w
  {
    assert w == w % TWO_7 + 128 * (w / TWO_7);
    assert p * w == p * (w % TWO_7) + p * (128 * (w / TWO_7));
  }

  lemma Pow128At5()
    ensures Pow128(5) == 0x8_0000_0000
  {
    assert Pow128(2) == 128 * 128;
    assert Pow128(4) == 128 * (128 * Pow128(2));
  }

  /** The reader's accumulator is 32 bits wide, whatever it is given. */
  lemma {:induction false} VarintBelow32Bits(c: Source, acc: nat, j: nat, max: nat, s: Setting)
    requires acc < TWO_32 && (j < 5 ==> acc < Pow128(j))
    ensures var r := GrabVarint(c, acc, j, max, s); r.Ok? ==> r.value.0 < TWO_32
    decreases max - j
  {
    if j < max && Grab(c, 1).Ok? {
      var got := Grab(c, 1).value;
      AccumulateFits(acc, got.0[0] % TWO_7, j, s);
      if got.0[0] >= TWO_7 {
        VarintBelow32Bits(got.1, Accumulate(acc, got.0[0] % TWO_7, j, s), j + 1, max, s);
      }
    }
  }

  lemma AccumulateLow(acc: nat, bits: nat, j: nat, s: Setting)
    requires bits < TWO_7 && j < 4 && acc < Pow128(j)
    ensures Accumulate(acc, bits, j, s) < Pow128(j + 1) <= TWO_32
  {
    Pow128At5();
    Pow128Mono(j + 1, 4);
    var p := Pow128(j);
    assert Pow128(j + 1) == 128 * p;
    assert bits * p <= 127 * p by { ProductMono(bits, 127, p); }
    assert bits * p % TWO_32 == bits * p;
  }

  lemma ProductMono(x: nat, y: nat, p: nat)
    requires x <= y
    ensures x * p <= y * p
  {
  }

  lemma AccumulateTop(acc: nat, bits: nat, s: Setting)
    requires bits < TWO_7 && acc < Pow128(4)
    ensures Accumulate(acc, bits, 4, s) < TWO_32
  {
    Pow128At5();
    assert Pow128(4) == 0x1000_0000;
    assert bits * 0x1000_0000 % TWO_32 == bits % 16 * 0x1000_0000;
  }

  lemma AccumulateFits(acc: nat, bits: nat, j: nat, s: Setting)
    requires bits < TWO_7 && acc < TWO_32 && (j < 5 ==> acc < Pow128(j))
    ensures Accumulate(acc, bits, j, s) < TWO_32
    ensures j + 1 < 5 ==> Accumulate(acc, bits, j, s) < Pow128(j + 1)
  {
    if j < 4 {
      AccumulateLow(acc, bits, j, s);
    } else if j == 4 {
      AccumulateTop(acc, bits, s);
    }
  }

  lemma {:induction false} Pow128Mono(i: nat, j: nat)
    requires i <= j
    ensures Pow128(i) <= Pow128(j)
  {
    if i < j {
      Pow128Mono(i, j - 1);
    }
  }

  /** Reading back an unsigned number, whatever comes before and after it. */
  lemma UnsignedRoundTrip(pre: seq<Byte>, k: Kind, u: nat, post: seq<Byte>, full: bool, s: Setting)
    requires match k case Fuint(w) => 0 < w && u < Limit(w) case Fint(w) => 0 < w && u < Limit(w) case _ => u < TWO_32
    ensures EncodeUnsigned(k, u, s) != []
    ensures GrabUnsigned(At(pre, EncodeUnsigned(k, u, s) + post, full), k, s)
         == Ok((u, At(pre + EncodeUnsigned(k, u, s), post, full)))
  {
    if k.Fuint? || k.Fint? {
      GrabFront(pre, EncodeFixed(u, k.width, s.little, s.hostLittle), post, full);
      FixedRoundTrip(u, k.width, s.little, s.hostLittle, s.hostLittle);
    } else {
      assert Pow128(0) == 1;
      if k.Uint32? || k.Int32? {
        VarintTail(pre, u, post, full, 0, 0, 5, s);
      } else {
        VarintTail(pre, u, post, full, 0, 0, 10, s);
      }
    }
  }

  lemma WireRoundTrip(k: Kind, v: int)
    requires FitsNumber(k, v)
    ensures FromWire(k, ToWire(k, v)) == v
    ensures match k case Fuint(w) => ToWire(k, v) < Limit(w) case Fint(w) => ToWire(k, v) < Limit(w)
            case _ => ToWire(k, v) < TWO_32
  {
    match k
    case Fuint(w) =>
      UnsignedInRange(v, Limit(w));
    case Fint(w) =>
      assert Limit(w) == 256 * Limit(w - 1);
      SignedInverse(v, Limit(w));
    case Uint32 =>
    case Int32 => Zigzag32Bijection(v, 0);
    case Uint64 =>
    case Int64 =>
      ZigzagInterleaves(v, TWO_64);
      Zigzag64RoundTrip(v);
  }

  lemma NumberRoundTrip(pre: seq<Byte>, k: Kind, v: int, post: seq<Byte>, full: bool, s: Setting)
    requires FitsNumber(k, v)
    ensures EncodeNumber(k, v, s) != []
    ensures GrabUnsigned(At(pre, EncodeNumber(k, v, s) + post, full), k, s)
         == Ok((ToWire(k, v), At(pre + EncodeNumber(k, v, s), post, full)))
    ensures FromWire(k, ToWire(k, v)) == v
  {
    WireRoundTrip(k, v);
    UnsignedRoundTrip(pre, k, ToWire(k, v), post, full, s);
  }

  /** The one field that cannot be read: an empty string that ends a full chain. Its
      length is there, but reading its no bytes goes through the null cursor. */
  predicate Unreadable(f: Field, post: seq<Byte>, full: bool) {
    f.Text? && f.bytes == [] && post == [] && full
  }

  /** Reading a text is reading its length, then as many bytes. */
  lemma TextSteps(c: Source, p: Prefix, s: Setting, n: nat, c': Source)
    requires GrabUnsigned(c, LengthKind(p), s) == Ok((n, c')) && Grab(c', n) != OutOfRange
    ensures GrabField(c, TextOf(p), s)
         == match Grab(c', n)
            case Ok(got) => Ok((Text(p, got.0), got.1))
            case NullCursor => NullCursor
            case OutOfRange => OutOfRange
  {
  }

  /** The bytes of a text behind its length. */
  lemma TextBytes(pre: seq<Byte>, t: seq<Byte>, post: seq<Byte>, full: bool)
    ensures Grab(At(pre, t + post, full), |t|)
         == if t + post == [] && full then NullCursor else Ok((t, At(pre + t, post, full)))
  {
    if t + post != [] {
      GrabFront(pre, t, post, full);
    } else {
      assert At(pre + t, post, full) == At(pre, [], full);
    }
  }

  lemma TextRoundTrip(pre: seq<Byte>, p: Prefix, t: seq<Byte>, post: seq<Byte>, full: bool, s: Setting)
    requires FitsNumber(LengthKind(p), |t|)
    ensures GrabField(At(pre, Encode(Text(p, t), s) + post, full), TextOf(p), s)
         == if Unreadable(Text(p, t), post, full) then NullCursor
            else Ok((Text(p, t), At(pre + Encode(Text(p, t), s), post, full)))
  {
    var head := EncodeNumber(LengthKind(p), |t|, s);
    NumberRoundTrip(pre, LengthKind(p), |t|, t + post, full, s);
    assert ToWire(LengthKind(p), |t|) == |t|;
    Regroup(head, t, post);
    Regroup(pre, head, t);
    TextBytes(pre + head, t, post, full);
    TextSteps(At(pre, head + (t + post), full), p, s, |t|, At(pre + head, t + post, full));
  }

  lemma FieldRoundTrip(pre: seq<Byte>, f: Field, post: seq<Byte>, full: bool, s: Setting)
    requires Fits(f)
    ensures GrabField(At(pre, Encode(f, s) + post, full), ShapeOf(f), s)
         == if Unreadable(f, post, full) then NullCursor else Ok((f, At(pre + Encode(f, s), post, full)))
  {
    match f
    case Number(k, v) => NumberRoundTrip(pre, k, v, post, full, s);
    case Text(p, t) => TextRoundTrip(pre, p, t, post, full, s);
  }

  predicate LastIsEmptyText(fs: seq<Field>) {
    fs != [] && fs[|fs| - 1].Text? && fs[|fs| - 1].bytes == []
  }

  function Shapes(fs: seq<Field>): (r: seq<Shape>) {
    if fs == [] then [] else [ShapeOf(fs[0])] + Shapes(fs[1..])
  }

  /** A list whose first field cannot be read cannot be read. */
  lemma GrabsNull(c: Source, fs: seq<Field>, s: Setting)
    requires fs != [] && GrabField(c, ShapeOf(fs[0]), s) == NullCursor
    ensures GrabAll(c, Shapes(fs), s) == NullCursor
  {
    assert Shapes(fs)[0] == ShapeOf(fs[0]);
  }

  /** Reading a list is reading its first field, then the rest. */
  lemma GrabsFirst(c: Source, fs: seq<Field>, s: Setting, c': Source, tail: Outcome<seq<Field>>)
    requires fs != [] && GrabField(c, ShapeOf(fs[0]), s) == Ok((fs[0], c')) && GrabAll(c', Shapes(fs[1..]), s) == tail
    requires tail == NullCursor || tail == Ok(fs[1..])
    ensures GrabAll(c, Shapes(fs), s) == if tail.Ok? then Ok(fs) else NullCursor
  {
    assert Shapes(fs)[0] == ShapeOf(fs[0]) && Shapes(fs)[1..] == Shapes(fs[1..]);
    assert [fs[0]] + fs[1..] == fs;
  }

  lemma RestNonempty(fs: seq<Field>, s: Setting)
    requires forall f | f in fs :: Fits(f)
    ensures EncodeAll(fs, s) == [] <==> fs == []
  {
    if fs != [] {
      EncodeNonempty(fs[0], s);
    }
  }

  /** Every list of fitting fields reads back as itself, unless the last one is an empty
      string and the bytes fill the chain exactly; then the read fails. */
  lemma {:induction false} StreamRoundTrip(pre: seq<Byte>, fs: seq<Field>, full: bool, s: Setting)
    requires forall f | f in fs :: Fits(f)
    ensures GrabAll(At(pre, EncodeAll(fs, s), full), Shapes(fs), s)
         == if LastIsEmptyText(fs) && full then NullCursor else Ok(fs)
    decreases |fs|
  {
    if fs == [] {
      return;
    }
    var (f, fs', bytes) := (fs[0], fs[1..], Encode(fs[0], s));
    var rest := EncodeAll(fs', s);
    RestNonempty(fs', s);
    FieldRoundTrip(pre, f, rest, full, s);
    if Unreadable(f, rest, full) {
      GrabsNull(At(pre, bytes + rest, full), fs, s);
    } else {
      StreamRoundTrip(pre + bytes, fs', full, s);
      var c' := At(pre + bytes, rest, full);
      GrabsFirst(At(pre, bytes + rest, full), fs, s, c', GrabAll(c', Shapes(fs'), s));
      assert fs' != [] ==> LastIsEmptyText(fs') == LastIsEmptyText(fs);
    }
  }

  lemma EncodeNonempty(f: Field, s: Setting)
    requires Fits(f)
    ensures Encode(f, s) != []
  {
    match f
    case Number(k, v) => NumberRoundTrip([], k, v, [], false, s);
    case Text(p, t) => NumberRoundTrip([], LengthKind(p), |t|, [], false, s);
  }

  /** The values the C++ parameter types admit. */
  predicate Representable(f: Field) {
    match f
    case Number(Uint64, v) => 0 <= v < TWO_64
    case Number(Int64, v) => -TWO_63 <= v < TWO_63
    case Number(k, v) => FitsNumber(k, v)
    case Text(_, t) => |t| < TWO_64
  }

  predicate ReadsBack(f: Field, s: Setting) {
    var r := GrabField(At([], Encode(f, s), false), ShapeOf(f), s);
    r.Ok? && r.value.0 == f
  }

  lemma WideNumberLost(k: Kind, v: int, s: Setting)
    requires k == Uint64 || k == Int64
    requires Representable(Number(k, v)) && !FitsNumber(k, v)
    ensures !ReadsBack(Number(k, v), s)
  {
    var c := At([], EncodeNumber(k, v, s), false);
    VarintBelow32Bits(c, 0, 0, 10, s);
    if GrabUnsigned(c, k, s).Ok? {
      SmallDecodesSmall(GrabUnsigned(c, k, s).value.0);
    }
  }

  lemma SmallDecodesSmall(u: nat)
    requires u < TWO_32
    ensures -TWO_31 <= DecodeInt64(u) < TWO_31
  {
    assert Signed(u, TWO_64) == u;
  }

  /** The text that comes back has the length that was read. */
  lemma TextHasReadLength(c: Source, p: Prefix, s: Setting)
    ensures var r := GrabField(c, TextOf(p), s);
      r.Ok? ==> GrabUnsigned(c, LengthKind(p), s).Ok? && r.value.0.Text?
                && |r.value.0.bytes| == GrabUnsigned(c, LengthKind(p), s).value.0
  {
  }

  lemma LongTextLost(p: Prefix, t: seq<Byte>, s: Setting)
    requires Representable(Text(p, t)) && !FitsNumber(LengthKind(p), |t|)
    ensures !ReadsBack(Text(p, t), s)
  {
    var c := At([], Encode(Text(p, t), s), false);
    TextHasReadLength(c, p, s);
    if p == LenVarint {
      VarintBelow32Bits(c, 0, 0, 10, s);
    } else {
      UnsignedRoundTrip([], LengthKind(p), ToWire(LengthKind(p), |t|), t, false, s);
    }
  }

  /** Exactly the fitting fields read back: a 64-bit varint loses what is above 32 bits,
      and a string longer than its prefix can say is cut. */
  lemma FieldReadsBackIffFits(f: Field, s: Setting)
    requires Representable(f)
    ensures ReadsBack(f, s) <==> Fits(f)
  {
    if Fits(f) {
      FieldRoundTrip([], f, [], false, s);
      assert Encode(f, s) + [] == Encode(f, s);
    } else if f.Number? {
      WideNumberLost(f.kind, f.value, s);
    } else {
      LongTextLost(f.prefix, f.bytes, s);
    }
  }

  // -------------------------------------------------------- the bytes on the wire

  /** The `w` bytes of a number in the buffer's byte order. */
  function InOrder(v: nat, w: nat, s: Setting): seq<Byte> {
    if s.little then LowFirst(v, w) else Reverse(LowFirst(v, w))
  }

  lemma UnsignedOnWire(w: nat, v: nat, s: Setting)
    ensures EncodeNumber(Fuint(w), v, s) == InOrder(v % Limit(w), w, s)
  {
    WireOrder(v % Limit(w), w, s.little, s.hostLittle);
  }

  lemma TwosComplement(w: nat, v: int, m: nat)
    requires w > 0 && m == Limit(w) && -(m / 2) <= v < m / 2
    ensures Unsigned(v, m) == if v < 0 then v + m else v
  {
    assert m == 256 * Limit(w - 1);
    SignedInverse(v, m);
  }

  lemma SignedOnWire(w: nat, v: int, s: Setting, m: nat, u: nat)
    requires FitsNumber(Fint(w), v) && m == Limit(w) && u == Unsigned(v, m)
    ensures EncodeNumber(Fint(w), v, s) == InOrder(u, w, s) && u == if v < 0 then v + m else v
  {
    TwosComplement(w, v, m);
    WireOrder(u, w, s.little, s.hostLittle);
  }

  lemma ZigzagOnWire(k: Kind, v: int)
    requires Representable(Number(k, v)) && (k == Int32 || k == Int64)
    ensures ToWire(k, v) == if v < 0 then -2 * v - 1 else 2 * v
  {
    ZigzagInterleaves(v, if k == Int32 then TWO_32 else TWO_64);
  }

  lemma VarintOnWire(k: Kind, v: int, s: Setting, u: nat)
    requires Representable(Number(k, v)) && !k.Fuint? && !k.Fint? && u == ToWire(k, v)
    ensures EncodeNumber(k, v, s) == Varint(u)
    ensures u == if k == Uint32 || k == Uint64 then v else if v < 0 then -2 * v - 1 else 2 * v
  {
    if k == Int32 || k == Int64 {
      ZigzagOnWire(k, v);
    }
  }

  /** Every number a parameter type admits goes out in the buffer's byte order, or seven bits to
      a byte; signed varints with the sign in the lowest bit. */
  lemma NumberOnWire(k: Kind, v: int, s: Setting)
    requires Representable(Number(k, v))
    ensures match k
      case Fuint(w) => v >= 0 && EncodeNumber(k, v, s) == InOrder(v, w, s)
      case Fint(w) => v + Limit(w) >= 0 && EncodeNumber(k, v, s) == InOrder(if v < 0 then v + Limit(w) else v, w, s)
      case Uint32 => v >= 0 && EncodeNumber(k, v, s) == Varint(v)
      case Uint64 => v >= 0 && EncodeNumber(k, v, s) == Varint(v)
      case Int32 => EncodeNumber(k, v, s) == Varint(if v < 0 then -2 * v - 1 else 2 * v)
      case Int64 => EncodeNumber(k, v, s) == Varint(if v < 0 then -2 * v - 1 else 2 * v)
  {
    match k
    case Fuint(w) =>
      UnsignedInRange(v, Limit(w));
      UnsignedOnWire(w, v, s);
    case Fint(w) => SignedOnWire(w, v, s, Limit(w), Unsigned(v, Limit(w)));
    case _ => VarintOnWire(k, v, s, ToWire(k, v));
  }

  lemma Limits()
    ensures Limit(1) == 0x100 && Limit(2) == 0x1_0000 && Limit(4) == TWO_32 && Limit(8) == TWO_64
  {
    assert Limit(2) == 256 * Limit(1) && Limit(4) == 256 * (256 * Limit(2));
    assert Limit(8) == 256 * (256 * (256 * (256 * Limit(4))));
  }

  /** A string goes out behind its length, cut to two, four or eight bytes in the buffer's byte
      order, or as a varint. */
  lemma TextOnWire(p: Prefix, w: nat, t: seq<Byte>, s: Setting)
    requires |t| < TWO_64
    requires match p case Len16 => w == 2 case Len32 => w == 4 case Len64 => w == 8 case LenVarint => w == 0
    ensures Encode(Text(p, t), s) == (if p == LenVarint then Varint(|t|) else InOrder(|t| % Limit(w), w, s)) + t
  {
    if p == LenVarint {
      VarintOnWire(Uint64, |t|, s, |t|);
    } else {
      UnsignedOnWire(w, |t|, s);
    }
  }

  /** For two bytes, say. */
  lemma ShortTextOnWire(t: seq<Byte>, s: Setting)
    requires |t| < 0x1_0000
    ensures Encode(Text(Len16, t), s) == (if s.little then [|t| % 256, |t| / 256] else [|t| / 256, |t| % 256]) + t
  {
    TextOnWire(Len16, 2, t, s);
    Limits();
    var n := |t|;
    assert n % 0x1_0000 == n && LowFirst(n, 2) == [n % 256, n / 256];
    assert Reverse([n % 256, n / 256]) == [n / 256, n % 256];
  }

  /** So a string reads back exactly when its length is below this. */
  lemma TextFits(p: Prefix, t: seq<Byte>)
    ensures Fits(Text(p, t)) <==> |t| < match p
                                        case Len16 => 0x1_0000
                                        case Len32 => TWO_32
                                        case Len64 => TWO_64
                                        case LenVarint => TWO_32
  {
    Limits();
  }

  /** The reader of a varint whose bytes are all marked stops after five bytes, or ten. */
  lemma OverlongVarint(c: Source, k: Kind, s: Setting)
    requires !k.Fuint? && !k.Fint?
    requires var n := if k == Uint32 || k == Int32 then 5 else 10;
      c.pos + n <= |c.data| && forall i | c.pos <= i < c.pos + n :: c.data[i] >= TWO_7
    ensures var r := GrabUnsigned(c, k, s);
      r.Ok? && r.value.1 == c.(pos := c.pos + if k == Uint32 || k == Int32 then 5 else 10)
  {
    OverlongFrom(c, 0, 0, if k == Uint32 || k == Int32 then 5 else 10, s);
  }

  lemma {:induction false} OverlongFrom(c: Source, acc: nat, j: nat, max: nat, s: Setting)
    requires j <= max && c.pos + (max - j) <= |c.data|
    requires forall i | c.pos <= i < c.pos + (max - j) :: c.data[i] >= TWO_7
    ensures var r := GrabVarint(c, acc, j, max, s); r.Ok? && r.value.1 == c.(pos := c.pos + (max - j))
    decreases max - j
  {
    if j < max {
      var got := Grab(c, 1).value;
      OverlongFrom(got.1, Accumulate(acc, got.0[0] % TWO_7, j, s), j + 1, max, s);
    }
  }

  // ------------------------------------------------------------- the buffer

  method WriteNumber(ba: ByteArray, k: Kind, v: int, s: Setting)
    requires ba.Appending() && s.little == ba.littleEndian
    modifies ba, ba.Repr
    ensures ba.Appending() && fresh(ba.Repr - old(ba.Repr)) && ba.littleEndian == old(ba.littleEndian)
    ensures ba.Written() == old(ba.Written()) + EncodeNumber(k, v, s)
  {
    var u := ToWire(k, v);
    var bytes;
    if k.Fuint? || k.Fint? {
      bytes := EncodeFixed(u, k.width, s.little, s.hostLittle);
    } else {
      bytes := EncodeVarint(u);
    }
    var _ := ba.WriteStringWithoutLength(bytes);
  }

  method WriteField(ba: ByteArray, f: Field, s: Setting)
    requires ba.Appending() && s.little == ba.littleEndian
    modifies ba, ba.Repr
    ensures ba.Appending() && fresh(ba.Repr - old(ba.Repr)) && ba.littleEndian == old(ba.littleEndian)
    ensures ba.Written() == old(ba.Written()) + Encode(f, s)
  {
    match f
    case Number(k, v) => WriteNumber(ba, k, v, s);
    case Text(p, t) =>
      WriteText(ba, p, t, s);
  }

  method WriteText(ba: ByteArray, p: Prefix, t: seq<Byte>, s: Setting)
    requires ba.Appending() && s.little == ba.littleEndian
    modifies ba, ba.Repr
    ensures ba.Appending() && fresh(ba.Repr - old(ba.Repr)) && ba.littleEndian == old(ba.littleEndian)
    ensures ba.Written() == old(ba.Written()) + (EncodeNumber(LengthKind(p), |t|, s) + t)
  {
    ghost var (before, head) := (ba.Written(), EncodeNumber(LengthKind(p), |t|, s));
    WriteNumber(ba, LengthKind(p), |t|, s);
    var _ := ba.WriteStringWithoutLength(t);
    assert before + head + t == before + (head + t);
  }

  /** What a buffer being read still has to give. */
  ghost function SourceOf(ba: ByteArray): (c: Source)
    requires ba.Valid()
    reads ba, ba.Repr
  {
    Source(ba.Written(), ba.position, ba.size == ba.capacity)
  }

  /** A read ended as the model says, and left the buffer where the model says. */
  ghost predicate Follows<T>(ba: ByteArray, want: Outcome<(T, Source)>, r: Outcome<T>)
    reads ba, ba.Repr
  {
    && ba.Valid()
    && match want
       case OutOfRange => r == OutOfRange
       case NullCursor => r == NullCursor
       case Ok(got) => r == Ok(got.0) && ba.Reading() && SourceOf(ba) == got.1
  }

  lemma SliceOfFront(s: seq<Byte>, size: nat, lo: nat, hi: nat)
    requires lo <= hi <= size <= |s|
    ensures s[..size][lo..hi] == s[lo..hi]
  {
  }

  method ReadBytes(ba: ByteArray, n: nat) returns (r: Outcome<seq<Byte>>)
    requires ba.Reading()
    modifies ba`position, ba`size, ba`cur, ba`at
    ensures Follows(ba, Grab(old(SourceOf(ba)), n), r)
  {
    ghost var c := SourceOf(ba);
    r := ba.Read(n);
    if r.Ok? {
      SliceOfFront(ba.flat, ba.size, c.pos, c.pos + n);
    }
  }

  /** The loop of `readUint32` and `readUint64`. */
  method ReadVarint(ba: ByteArray, max: nat, s: Setting) returns (r: Outcome<nat>)
    requires ba.Reading()
    modifies ba`position, ba`size, ba`cur, ba`at
    ensures Follows(ba, GrabVarint(old(SourceOf(ba)), 0, 0, max, s), r)
  {
    var acc: nat, j: nat := 0, 0;
    while j < max
      invariant ba.Reading()
      invariant GrabVarint(SourceOf(ba), acc, j, max, s) == GrabVarint(old(SourceOf(ba)), 0, 0, max, s)
      decreases max - j
    {
      var b := ReadBytes(ba, 1);
      if !b.Ok? {
        return if b == OutOfRange then OutOfRange else NullCursor;
      }
      acc := Accumulate(acc, b.value[0] % TWO_7, j, s);
      if b.value[0] < TWO_7 {
        return Ok(acc);
      }
      j := j + 1;
    }
    return Ok(acc);
  }

  method ReadUnsigned(ba: ByteArray, k: Kind, s: Setting) returns (r: Outcome<nat>)
    requires ba.Reading()
    modifies ba`position, ba`size, ba`cur, ba`at
    ensures Follows(ba, GrabUnsigned(old(SourceOf(ba)), k, s), r)
  {
    match k
    case Uint32 => r := ReadVarint(ba, 5, s);
    case Int32 => r := ReadVarint(ba, 5, s);
    case Uint64 => r := ReadVarint(ba, 10, s);
    case Int64 => r := ReadVarint(ba, 10, s);
    case _ =>
      var b := ReadBytes(ba, k.width);
      match b
      case OutOfRange => r := OutOfRange;
      case NullCursor => r := NullCursor;
      case Ok(bytes) => r := Ok(DecodeFixed(bytes, s.little, s.hostLittle));
  }

  method ReadField(ba: ByteArray, shape: Shape, s: Setting) returns (r: Outcome<Field>)
    requires ba.Reading()
    modifies ba`position, ba`size, ba`cur, ba`at
    ensures Follows(ba, GrabField(old(SourceOf(ba)), shape, s), r)
  {
    var u := ReadUnsigned(ba, if shape.NumberOf? then shape.kind else LengthKind(shape.prefix), s);
    match u
    case OutOfRange => r := OutOfRange;
    case NullCursor => r := NullCursor;
    case Ok(v) =>
      if shape.NumberOf? {
        r := Ok(Number(shape.kind, FromWire(shape.kind, v)));
      } else {
        var t := ReadBytes(ba, v);
        match t
        case OutOfRange => r := OutOfRange;
        case NullCursor => r := NullCursor;
        case Ok(bytes) => r := Ok(Text(shape.prefix, bytes));
      }
  }

  /** The buffer is fit for appending and holds exactly the given bytes. */
  ghost predicate Holds(ba: ByteArray, bytes: seq<Byte>)
    reads ba, ba.Repr
  {
    ba.Appending() && ba.Written() == bytes
  }

  method WriteNext(ba: ByteArray, f: Field, s: Setting, ghost before: seq<Byte>, ghost after: seq<Byte>)
    requires Holds(ba, before) && s.little == ba.littleEndian && after == before + Encode(f, s)
    modifies ba, ba.Repr
    ensures Holds(ba, after) && fresh(ba.Repr - old(ba.Repr)) && ba.littleEndian == old(ba.littleEndian)
  {
    WriteField(ba, f, s);
  }

  lemma Regroup(a: seq<Byte>, b: seq<Byte>, c: seq<Byte>)
    ensures a + (b + c) == a + b + c
  {
  }

  method WriteAll(ba: ByteArray, fs: seq<Field>, s: Setting, ghost before: seq<Byte>, ghost after: seq<Byte>)
    requires Holds(ba, before) && s.little == ba.littleEndian && after == before + EncodeAll(fs, s)
    modifies ba, ba.Repr
    ensures Holds(ba, after) && fresh(ba.Repr - old(ba.Repr))
    decreases |fs|
  {
    if fs == [] {
      assert after == before;
    } else {
      ghost var next := before + Encode(fs[0], s);
      Regroup(before, Encode(fs[0], s), EncodeAll(fs[1..], s));
      WriteNext(ba, fs[0], s, before, next);
      WriteAll(ba, fs[1..], s, next, after);
    }
  }

  method ReadAll(ba: ByteArray, shapes: seq<Shape>, s: Setting) returns (r: Outcome<seq<Field>>)
    requires ba.Reading()
    modifies ba`position, ba`size, ba`cur, ba`at
    ensures r == GrabAll(old(SourceOf(ba)), shapes, s)
  {
    if shapes == [] {
      return Ok([]);
    }
    var f := ReadField(ba, shapes[0], s);
    match f
    case OutOfRange => r := OutOfRange;
    case NullCursor => r := NullCursor;
    case Ok(field) =>
      var rest := ReadAll(ba, shapes[1..], s);
      match rest
      case OutOfRange => r := OutOfRange;
      case NullCursor => r := NullCursor;
      case Ok(fields) => r := Ok([field] + fields);
  }

  /** Write any fitting fields to a fresh buffer of any node size, go back to the start
      and read: the same fields come back, except when an empty string comes last and
      the bytes fill the nodes exactly. */
  method RoundTrip(base: nat, fs: seq<Field>, s: Setting) returns (r: Outcome<seq<Field>>)
    requires base > 0 && forall f | f in fs :: Fits(f)
    ensures r == if LastIsEmptyText(fs) && Offset(|EncodeAll(fs, s)|, base) == 0 then NullCursor else Ok(fs)
  {
    var ba := new ByteArray(base);
    ba.SetIsLittleEndian(s.little);
    assert [] + EncodeAll(fs, s) == EncodeAll(fs, s);
    WriteAll(ba, fs, s, [], EncodeAll(fs, s));
    ghost var bytes := EncodeAll(fs, s);
    assert ba.Written() == bytes;
    if LastIsEmptyText(fs) {
      EncodeNonempty(fs[0], s);
      FullIffWholeNodes(ba);
    }
    var _ := ba.SetPosition(0);
    assert SourceOf(ba) == At([], bytes, ba.size == ba.capacity);
    StreamRoundTrip([], fs, ba.size == ba.capacity, s);
    r := ReadAll(ba, Shapes(fs), s);
  }

  lemma FullIffWholeNodes(ba: ByteArray)
    requires ba.Appending() && ba.size > 0
    ensures ba.size == ba.capacity <==> Offset(ba.size, ba.baseSize) == 0
  {
    assert Span(1, ba.baseSize) == ba.baseSize;
    SpanOffset(|ba.nodes|, 0, ba.baseSize);
    if |ba.nodes| != 1 && Offset(ba.size, ba.baseSize) == 0 {
      SameMultiple(ba.size, |ba.nodes|, ba.baseSize);
    }
  }
}
