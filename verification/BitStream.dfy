/** The bit stream codec (crates/binschema-runtime/src/bitstream.rs:26-217, 486-740).

    The encoder and decoder are classes over the program's own fields, with its
    fast paths beside its bit loops.  Each method is tied to a function on the
    sequence of bits written or read so far, and the round trip is proved there. */
module BitStream {
  import opened Wrappers
  import opened Bits

  datatype BitOrder = MsbFirst | LsbFirst

  datatype Endianness = BigEndian | LittleEndian

  datatype Error = UnexpectedEof | InvalidValue | InvalidEncoding

  // ---------------------------------------------------------------- words as bits

  /** Bit index, in the word, of the `i`-th of `n` bits in stream order. */
  function BitIndex(order: BitOrder, n: nat, i: nat): nat
    requires i < n
  {
    match order
    case MsbFirst => n - 1 - i
    case LsbFirst => i
  }

  /** The `n` low bits of `v` in stream order. */
  function WordBits(order: BitOrder, v: nat, n: nat): (bits: seq<bool>)
    ensures |bits| == n
  {
    seq(n, i requires 0 <= i < n => BitAt(v, BitIndex(order, n, i)))
  }

  /** The bits of whole bytes, byte by byte, in stream order. */
  function BytesBits(order: BitOrder, bytes: seq<Byte>): (bits: seq<bool>)
    ensures |bits| == 8 * |bytes|
    decreases |bytes|
  {
    if bytes == [] then []
    else BytesBits(order, bytes[..|bytes| - 1]) + WordBits(order, bytes[|bytes| - 1], 8)
  }

  /** The number whose bits in stream order are `bits`. */
  function WordValue(order: BitOrder, bits: seq<bool>): (v: nat)
    ensures v < Pow2(|bits|)
    decreases |bits|
  {
    if bits == [] then 0
    else
      match order
      case LsbFirst => (if bits[0] then 1 else 0) + 2 * WordValue(order, bits[1..])
      case MsbFirst => (if bits[|bits| - 1] then 1 else 0) + 2 * WordValue(order, bits[..|bits| - 1])
  }

  lemma {:induction false} WordValueBits(order: BitOrder, bits: seq<bool>, i: nat)
    requires i < |bits|
    ensures BitAt(WordValue(order, bits), BitIndex(order, |bits|, i)) == bits[i]
    decreases |bits|
  {
    match order
    case LsbFirst =>
      if i > 0 {
        WordValueBits(order, bits[1..], i - 1);
      }
    case MsbFirst =>
      if i < |bits| - 1 {
        WordValueBits(order, bits[..|bits| - 1], i);
      }
  }

  /** A word is recovered from its bits, masked to their number. */
  lemma WordRoundTrip(order: BitOrder, v: nat, n: nat)
    ensures WordValue(order, WordBits(order, v, n)) == And(v, Mask(n))
  {
    var bits := WordBits(order, v, n);
    MaskBound(v, n);
    forall j: nat | j < n ensures BitAt(WordValue(order, bits), j) == BitAt(And(v, Mask(n)), j) {
      var i := if order.LsbFirst? then j else n - 1 - j;
      WordValueBits(order, bits, i);
      AndBits(v, Mask(n), j);
      MaskBits(n, j);
    }
    BitsDetermine(WordValue(order, bits), And(v, Mask(n)), n);
  }

  /** A number with the given bits in the low `n` places, and no others, is their value. */
  lemma WordValueIsUnique(order: BitOrder, bits: seq<bool>, v: nat)
    requires v < Pow2(|bits|)
    requires forall i: nat :: i < |bits| ==> BitAt(v, BitIndex(order, |bits|, i)) == bits[i]
    ensures v == WordValue(order, bits)
  {
    var n := |bits|;
    forall j: nat | j < n ensures BitAt(v, j) == BitAt(WordValue(order, bits), j) {
      var i := if order.LsbFirst? then j else n - 1 - j;
      WordValueBits(order, bits, i);
      assert BitAt(v, BitIndex(order, n, i)) == bits[i];
    }
    BitsDetermine(v, WordValue(order, bits), n);
  }

  lemma BytesBitsAppend(order: BitOrder, bytes: seq<Byte>, b: Byte)
    ensures BytesBits(order, bytes + [b]) == BytesBits(order, bytes) + WordBits(order, b, 8)
  {
    assert (bytes + [b])[..|bytes|] == bytes;
  }

  /** The eight bits of byte `i`. */
  lemma {:induction false} ByteWindow(order: BitOrder, bytes: seq<Byte>, i: nat)
    requires i < |bytes|
    ensures BytesBits(order, bytes)[8 * i..8 * i + 8] == WordBits(order, bytes[i], 8)
    decreases |bytes|
  {
    var n := |bytes| - 1;
    var before, last := BytesBits(order, bytes[..n]), WordBits(order, bytes[n], 8);
    if i < n {
      ByteWindow(order, bytes[..n], i);
      assert (before + last)[8 * i..8 * i + 8] == before[8 * i..8 * i + 8];
    } else {
      assert (before + last)[8 * i..8 * i + 8] == last;
    }
  }

  /** Bit `p` of the stream. */
  lemma StreamBit(order: BitOrder, bytes: seq<Byte>, i: nat, j: nat)
    requires i < |bytes| && j < 8
    ensures BytesBits(order, bytes)[8 * i + j] == BitAt(bytes[i], BitIndex(order, 8, j))
  {
    ByteWindow(order, bytes, i);
    assert BytesBits(order, bytes)[8 * i + j] == BytesBits(order, bytes)[8 * i..8 * i + 8][j];
  }

  lemma {:induction false} BytesBitsConcat(order: BitOrder, a: seq<Byte>, b: seq<Byte>)
    ensures BytesBits(order, a + b) == BytesBits(order, a) + BytesBits(order, b)
  {
    if b == [] {
      assert a + b == a;
      assert BytesBits(order, b) == [];
    } else {
      var n := |b| - 1;
      BytesBitsConcat(order, a, b[..n]);
      BytesBitsAppend(order, a + b[..n], b[n]);
      BytesBitsAppend(order, b[..n], b[n]);
      assert a + b == (a + b[..n]) + [b[n]] && b == b[..n] + [b[n]];
    }
  }

  lemma SliceOfSlice<T>(s: seq<T>, start: nat, width: nat, pos: nat, n: nat)
    requires start + width <= |s| && pos + n <= width
    ensures s[start..start + width][pos..pos + n] == s[start + pos..start + pos + n]
  {
    var whole := s[start..start + width];
    var left, right := whole[pos..pos + n], s[start + pos..start + pos + n];
    forall i | 0 <= i < n ensures left[i] == right[i] {
      assert left[i] == whole[pos + i];
    }
  }

  // ---------------------------------------------------------------- words as bytes

  /** Byte `i` of `v`, counting from the least significant: `(v >> (8 * i)) as u8`. */
  function ByteOf(v: nat, i: nat): Byte {
    Shr(v, 8 * i) % 256
  }

  /** `v` as `k` bytes. */
  function WordBytes(v: nat, k: nat, e: Endianness): (bs: seq<Byte>)
    ensures |bs| == k
  {
    match e
    case LittleEndian => seq(k, i requires 0 <= i < k => ByteOf(v, i))
    case BigEndian => seq(k, i requires 0 <= i < k => ByteOf(v, k - 1 - i))
  }

  /** The number with these bytes. */
  function BytesValue(bs: seq<Byte>, e: Endianness): nat
    decreases |bs|
  {
    if bs == [] then 0
    else
      match e
      case LittleEndian => bs[0] + 256 * BytesValue(bs[1..], e)
      case BigEndian => bs[|bs| - 1] + 256 * BytesValue(bs[..|bs| - 1], e)
  }

  lemma {:induction false} ShrAdd(v: nat, a: nat, b: nat)
    ensures Shr(Shr(v, a), b) == Shr(v, a + b)
    decreases a
  {
    if a > 0 {
      ShrAdd(v / 2, a - 1, b);
    }
  }

  lemma ByteOfShifted(v: nat, i: nat)
    ensures ByteOf(Shr(v, 8), i) == ByteOf(v, i + 1)
  {
    ShrAdd(v, 8, 8 * i);
    assert 8 + 8 * i == 8 * (i + 1);
  }

  lemma WordBytesSplit(v: nat, k: nat, e: Endianness)
    requires k > 0
    ensures WordBytes(v, k, e) ==
      if e.LittleEndian? then [ByteOf(v, 0)] + WordBytes(Shr(v, 8), k - 1, e)
      else WordBytes(Shr(v, 8), k - 1, e) + [ByteOf(v, 0)]
  {
    forall i: nat | i < k - 1 ensures ByteOf(Shr(v, 8), i) == ByteOf(v, i + 1) {
      ByteOfShifted(v, i);
    }
  }

  lemma BytesValueSplit(b: Byte, bs: seq<Byte>, e: Endianness)
    ensures BytesValue(if e.LittleEndian? then [b] + bs else bs + [b], e) == b + 256 * BytesValue(bs, e)
  {
    assert ([b] + bs)[1..] == bs && (bs + [b])[..|bs|] == bs;
  }

  lemma LowByte(v: nat)
    ensures v == ByteOf(v, 0) + 256 * Shr(v, 8)
  {
    LowAndHigh(v, 8);
    assert Pow2(8) == 256;
  }

  /** A `k`-byte word is recovered from its bytes. */
  lemma {:induction false} BytesRoundTrip(v: nat, k: nat, e: Endianness)
    requires v < Pow2(8 * k)
    ensures BytesValue(WordBytes(v, k, e), e) == v
    decreases k
  {
    if k == 0 {
      assert v == 0;
    } else {
      ShrBound(v, 8, 8 * (k - 1));
      BytesRoundTrip(Shr(v, 8), k - 1, e);
      WordBytesSplit(v, k, e);
      BytesValueSplit(ByteOf(v, 0), WordBytes(Shr(v, 8), k - 1, e), e);
      LowByte(v);
    }
  }

  /** The value of two runs of bytes from the values of each. */
  lemma {:induction false} BigEndianConcat(a: seq<Byte>, b: seq<Byte>)
    ensures BytesValue(a + b, BigEndian) == BytesValue(a, BigEndian) * Pow2(8 * |b|) + BytesValue(b, BigEndian)
    decreases |b|
  {
    if b == [] {
      assert a + b == a;
    } else {
      var n := |b| - 1;
      var rest := b[..n];
      assert a + b == (a + rest) + [b[n]] && b == rest + [b[n]];
      BytesValueSplit(b[n], a + rest, BigEndian);
      BytesValueSplit(b[n], rest, BigEndian);
      BigEndianConcat(a, rest);
      EightMore(8 * n);
      ScaleSum(BytesValue(a, BigEndian), Pow2(8 * n), BytesValue(rest, BigEndian), b[n]);
    }
  }

  lemma {:induction false} LittleEndianConcat(b: seq<Byte>, a: seq<Byte>)
    ensures BytesValue(b + a, LittleEndian) == BytesValue(a, LittleEndian) * Pow2(8 * |b|) + BytesValue(b, LittleEndian)
    decreases |b|
  {
    if b == [] {
      assert b + a == a;
    } else {
      var rest := b[1..];
      assert b + a == [b[0]] + (rest + a) && b == [b[0]] + rest;
      BytesValueSplit(b[0], rest + a, LittleEndian);
      BytesValueSplit(b[0], rest, LittleEndian);
      LittleEndianConcat(rest, a);
      EightMore(8 * |rest|);
      ScaleSum(BytesValue(a, LittleEndian), Pow2(8 * |rest|), BytesValue(rest, LittleEndian), b[0]);
    }
  }

  lemma ScaleSum(x: nat, p: nat, y: nat, c: nat)
    ensures c + 256 * (x * p + y) == x * (256 * p) + (c + 256 * y)
  {
  }

  /** A run of bytes below `2^(8k)`. */
  lemma {:induction false} BytesValueBound(bs: seq<Byte>, e: Endianness)
    ensures BytesValue(bs, e) < Pow2(8 * |bs|)
    decreases |bs|
  {
    if bs != [] {
      var n := |bs| - 1;
      BytesValueBound(if e.LittleEndian? then bs[1..] else bs[..n], e);
      EightMore(8 * n);
    }
  }

  // ---------------------------------------------------------------- operations

  datatype Op =
    | PutBits(value: nat, n: nat)
    | PutWord(value: nat, k: nat, e: Endianness)
  {
    /** `write_bits` takes 1 to 64 bits, the integer writers 1, 2, 4 or 8 bytes. */
    predicate Valid() {
      match this
      case PutBits(_, n) => 1 <= n <= 64
      case PutWord(v, k, _) => (k == 1 || k == 2 || k == 4 || k == 8) && v < Pow2(8 * k)
    }

    /** What the matching read returns. */
    function Value(): nat {
      match this
      case PutBits(v, n) => And(v, Mask(n))
      case PutWord(v, _, _) => v
    }

    function Shape(): Shape {
      match this
      case PutBits(_, n) => BitsShape(n)
      case PutWord(_, k, e) => WordShape(k, e)
    }
  }

  datatype Shape = BitsShape(n: nat) | WordShape(k: nat, e: Endianness)
  {
    function Width(): nat {
      match this
      case BitsShape(n) => n
      case WordShape(k, _) => 8 * k
    }
  }

  /** Whole bytes follow the stream order when aligned and are LSB-first otherwise. */
  function ByteOrder(order: BitOrder, pos: nat): BitOrder {
    if pos % 8 == 0 then order else LsbFirst
  }

  /** The bits an operation appends at position `pos`. */
  function EncodeOp(order: BitOrder, pos: nat, op: Op): (bits: seq<bool>)
    ensures |bits| == op.Shape().Width()
  {
    match op
    case PutBits(v, n) => WordBits(order, v, n)
    case PutWord(v, k, e) => BytesBits(ByteOrder(order, pos), WordBytes(v, k, e))
  }

  /** Where the write after the first `n` starts. */
  function Offset(ops: seq<Op>, n: nat): nat
    requires n <= |ops|
  {
    if n == 0 then 0 else Offset(ops, n - 1) + ops[n - 1].Shape().Width()
  }

  /** The stream after the first `n` writes. */
  function Encode(order: BitOrder, ops: seq<Op>, n: nat): (bits: seq<bool>)
    requires n <= |ops|
    ensures |bits| == Offset(ops, n)
  {
    if n == 0 then [] else Encode(order, ops, n - 1) + EncodeOp(order, Offset(ops, n - 1), ops[n - 1])
  }

  /** The bytes whose bits, in the given order, are `bits`; a last part of a byte is left over. */
  function BitsToBytes(order: BitOrder, bits: seq<bool>): (bytes: seq<Byte>)
    ensures |bytes| == |bits| / 8
    decreases |bits|
  {
    if |bits| < 8 then []
    else
      ByteBound(order, bits[..8]);
      [WordValue(order, bits[..8])] + BitsToBytes(order, bits[8..])
  }

  lemma ByteBound(order: BitOrder, bits: seq<bool>)
    requires |bits| == 8
    ensures WordValue(order, bits) < 256
  {
    assert Pow2(8) == 256;
  }

  /** The value a read of the given shape finds at `pos`, if there are enough bits. */
  function DecodeOp(order: BitOrder, bits: seq<bool>, pos: nat, shape: Shape): Option<nat> {
    if pos + shape.Width() > |bits| then None
    else
      match shape
      case BitsShape(n) => Some(WordValue(order, bits[pos..pos + n]))
      case WordShape(k, e) => Some(BytesValue(BitsToBytes(ByteOrder(order, pos), bits[pos..pos + 8 * k]), e))
  }

  lemma ByteValue(order: BitOrder, b: Byte)
    ensures WordValue(order, WordBits(order, b, 8)) == b
  {
    WordRoundTrip(order, b, 8);
    assert Pow2(8) == 256;
    MaskIdentity(b, 8);
  }

  lemma {:induction false} BitsToBytesConcat(order: BitOrder, a: seq<bool>, b: seq<bool>)
    requires |a| % 8 == 0
    ensures BitsToBytes(order, a + b) == BitsToBytes(order, a) + BitsToBytes(order, b)
    decreases |a|
  {
    if a == [] {
      assert a + b == b;
    } else {
      var first, later := a[..8], a[8..];
      BitsToBytesConcat(order, later, b);
      assert (a + b)[..8] == first && (a + b)[8..] == later + b;
    }
  }

  lemma OneByte(order: BitOrder, bits: seq<bool>)
    requires |bits| == 8
    ensures WordValue(order, bits) < 256 && BitsToBytes(order, bits) == [WordValue(order, bits)]
  {
    ByteBound(order, bits);
    assert bits[..8] == bits && bits[8..] == [];
  }

  lemma {:induction false} BytesOfBytesBits(order: BitOrder, bytes: seq<Byte>)
    ensures BitsToBytes(order, BytesBits(order, bytes)) == bytes
    decreases |bytes|
  {
    if bytes != [] {
      var n := |bytes| - 1;
      BytesOfBytesBits(order, bytes[..n]);
      BitsToBytesConcat(order, BytesBits(order, bytes[..n]), WordBits(order, bytes[n], 8));
      OneByte(order, WordBits(order, bytes[n], 8));
      ByteValue(order, bytes[n]);
    }
  }

  /** `part` stands in `bits` at position `pos`. */
  predicate Occurs(bits: seq<bool>, pos: nat, part: seq<bool>) {
    pos + |part| <= |bits| && bits[pos..pos + |part|] == part
  }

  lemma OccursSplit(bits: seq<bool>, pos: nat, a: seq<bool>, b: seq<bool>)
    requires Occurs(bits, pos, a + b)
    ensures Occurs(bits, pos, a) && Occurs(bits, pos + |a|, b)
  {
    var whole := bits[pos..pos + |a + b|];
    assert bits[pos..pos + |a|] == whole[..|a|] == a;
    assert bits[pos + |a|..pos + |a| + |b|] == whole[|a|..] == b;
  }

  /** Reading back one operation, wherever it stands. */
  lemma OpRoundTrip(order: BitOrder, bits: seq<bool>, pos: nat, op: Op)
    requires op.Valid() && Occurs(bits, pos, EncodeOp(order, pos, op))
    ensures DecodeOp(order, bits, pos, op.Shape()) == Some(op.Value())
  {
    match op
    case PutBits(v, n) => WordRoundTrip(order, v, n);
    case PutWord(v, k, e) =>
      BytesOfBytesBits(ByteOrder(order, pos), WordBytes(v, k, e));
      BytesRoundTrip(v, k, e);
  }

  lemma LastWrite(order: BitOrder, bits: seq<bool>, ops: seq<Op>, n: nat)
    requires 0 < n <= |ops| && Occurs(bits, 0, Encode(order, ops, n))
    ensures Occurs(bits, 0, Encode(order, ops, n - 1))
    ensures Occurs(bits, Offset(ops, n - 1), EncodeOp(order, Offset(ops, n - 1), ops[n - 1]))
  {
    OccursSplit(bits, 0, Encode(order, ops, n - 1), EncodeOp(order, Offset(ops, n - 1), ops[n - 1]));
  }

  /** Writing one byte is writing a one-byte word. */
  lemma ByteIsWord(order: BitOrder, pos: nat, v: Byte, e: Endianness)
    ensures EncodeOp(order, pos, PutWord(v, 1, e)) == WordBits(ByteOrder(order, pos), v, 8)
  {
    assert Shr(v, 8 * 0) == v;
    SmallRemainder(v, 256);
    assert ByteOf(v, 0) == v;
    assert WordBytes(v, 1, e)[0] == v;
    assert WordBytes(v, 1, e) == [] + [v];
    assert BytesBits(ByteOrder(order, pos), []) == [];
    BytesBitsAppend(ByteOrder(order, pos), [], v);
  }

  /** Reading one byte is reading a one-byte word. */
  lemma ByteReadsAsWord(order: BitOrder, bits: seq<bool>, pos: nat, e: Endianness)
    requires pos + 8 <= |bits|
    ensures DecodeOp(order, bits, pos, WordShape(1, e)) == Some(WordValue(ByteOrder(order, pos), bits[pos..pos + 8]))
  {
    OneByte(ByteOrder(order, pos), bits[pos..pos + 8]);
    BytesValueSplit(WordValue(ByteOrder(order, pos), bits[pos..pos + 8]), [], e);
  }

  /** Every write stands in the finished stream where it was made. */
  lemma {:induction false} WritesStand(order: BitOrder, bits: seq<bool>, ops: seq<Op>, n: nat, i: nat)
    requires i < n <= |ops| && Occurs(bits, 0, Encode(order, ops, n))
    ensures Occurs(bits, Offset(ops, i), EncodeOp(order, Offset(ops, i), ops[i]))
    decreases n
  {
    LastWrite(order, bits, ops, n);
    if i < n - 1 {
      WritesStand(order, bits, ops, n - 1, i);
    }
  }

  /** For both bit orders and any sequence of writes, each at whatever alignment the
      ones before left, the matching reads in the same order return the values
      written, masked to their width. */
  lemma StreamRoundTrip(order: BitOrder, bits: seq<bool>, ops: seq<Op>, i: nat)
    requires i < |ops| && (forall op :: op in ops ==> op.Valid())
    requires Occurs(bits, 0, Encode(order, ops, |ops|))
    ensures DecodeOp(order, bits, Offset(ops, i), ops[i].Shape()) == Some(ops[i].Value())
  {
    WritesStand(order, bits, ops, |ops|, i);
    OpRoundTrip(order, bits, Offset(ops, i), ops[i]);
  }
}
