/** Where each write lands in the finished bytes
    (crates/binschema-runtime/src/bitstream.rs:26-217, 486-740).

    The round trip would hold of any order the writers and readers share.  Here the
    bits and bytes of every write are given by arithmetic on its value and position. */
module BitStreamLayout {
  import opened Wrappers
  import opened Bits
  import opened BitStream

  /** Bit `p` of a stream of bytes: from the top of each byte or from the bottom. */
  function WireBit(order: BitOrder, bytes: seq<Byte>, p: nat): nat
    requires p / 8 < |bytes|
  {
    bytes[p / 8] / Pow2(if order.MsbFirst? then 7 - p % 8 else p % 8) % 2
  }

  /** Byte `j` of a word of `k` bytes: the most or the least significant first. */
  function WireByte(v: nat, k: nat, e: Endianness, j: nat): nat
    requires j < k
  {
    v / Pow2(8 * if e.BigEndian? then k - 1 - j else j) % 256
  }

  /** The bytes hold the writes, in order and without gaps. */
  predicate Holds(order: BitOrder, bytes: seq<Byte>, ops: seq<Op>) {
    Occurs(BytesBits(order, bytes), 0, Encode(order, ops, |ops|))
  }

  lemma BitIsQuotient(v: nat, i: nat)
    ensures BitAt(v, i) <==> v / Pow2(i) % 2 == 1
  {
    ShrBits(v, i, 0);
    LowAndHigh(v, i);
  }

  lemma SameBit(x: nat, i: nat, y: nat, j: nat)
    requires BitAt(x, i) == BitAt(y, j)
    ensures x / Pow2(i) % 2 == y / Pow2(j) % 2
  {
    BitIsQuotient(x, i);
    BitIsQuotient(y, j);
  }

  /** Bit `p` of the stream is bit `i` of `v`. */
  lemma {:induction false} StreamShows(order: BitOrder, bytes: seq<Byte>, p: nat, v: nat, i: nat)
    requires p < 8 * |bytes| && BytesBits(order, bytes)[p] == BitAt(v, i)
    ensures WireBit(order, bytes, p) == v / Pow2(i) % 2
  {
    StreamBit(order, bytes, p / 8, p % 8);
    SameBit(bytes[p / 8], BitIndex(order, 8, p % 8), v, i);
  }

  lemma {:induction false} OccursAt(bits: seq<bool>, pos: nat, part: seq<bool>, t: nat)
    requires Occurs(bits, pos, part) && t < |part|
    ensures pos + t < |bits| && bits[pos + t] == part[t]
  {
    assert bits[pos..pos + |part|][t] == bits[pos + t];
  }

  lemma {:induction false} FieldStands(order: BitOrder, bits: seq<bool>, ops: seq<Op>, i: nat, t: nat)
    requires i < |ops| && ops[i].PutBits? && t < ops[i].n && Occurs(bits, 0, Encode(order, ops, |ops|))
    ensures var p := Offset(ops, i) + t; p < |bits| && bits[p] == BitAt(ops[i].value, BitIndex(order, ops[i].n, t))
  {
    WritesStand(order, bits, ops, |ops|, i);
    OccursAt(bits, Offset(ops, i), EncodeOp(order, Offset(ops, i), ops[i]), t);
  }

  /** A field of `n` bits stands from its offset on, its top bit first in an MSB-first
      stream and its bottom bit first in the other. */
  lemma {:induction false} FieldLayout(order: BitOrder, bytes: seq<Byte>, ops: seq<Op>, i: nat, t: nat)
    requires i < |ops| && ops[i].PutBits? && t < ops[i].n && Holds(order, bytes, ops)
    ensures var p, n, v := Offset(ops, i) + t, ops[i].n, ops[i].value;
      && p < 8 * |bytes|
      && WireBit(order, bytes, p) == v / Pow2(if order.MsbFirst? then n - 1 - t else t) % 2
  {
    FieldStands(order, BytesBits(order, bytes), ops, i, t);
    StreamShows(order, bytes, Offset(ops, i) + t, ops[i].value, BitIndex(order, ops[i].n, t));
  }

  lemma ByteIsWire(v: nat, k: nat, e: Endianness, j: nat)
    requires j < k
    ensures WordBytes(v, k, e)[j] == WireByte(v, k, e, j)
  {
    var index := if e.BigEndian? then k - 1 - j else j;
    assert WordBytes(v, k, e)[j] == ByteOf(v, index);
    LowAndHigh(v, 8 * index);
  }

  lemma {:induction false} WordBit(order: BitOrder, v: nat, k: nat, e: Endianness, j: nat, t: nat)
    requires j < k && t < 8
    ensures BytesBits(order, WordBytes(v, k, e))[8 * j + t] == BitAt(WireByte(v, k, e, j), BitIndex(order, 8, t))
  {
    StreamBit(order, WordBytes(v, k, e), j, t);
    ByteIsWire(v, k, e, j);
  }

  lemma {:induction false} WordStands(order: BitOrder, bits: seq<bool>, ops: seq<Op>, i: nat, j: nat, t: nat)
    requires i < |ops| && ops[i].PutWord? && j < ops[i].k && t < 8 && Occurs(bits, 0, Encode(order, ops, |ops|))
    ensures var p, o := Offset(ops, i) + 8 * j + t, ByteOrder(order, Offset(ops, i));
      p < |bits| && bits[p] == BitAt(WireByte(ops[i].value, ops[i].k, ops[i].e, j), BitIndex(o, 8, t))
  {
    var pos := Offset(ops, i);
    WritesStand(order, bits, ops, |ops|, i);
    OccursAt(bits, pos, EncodeOp(order, pos, ops[i]), 8 * j + t);
    WordBit(ByteOrder(order, pos), ops[i].value, ops[i].k, ops[i].e, j, t);
  }

  /** The bits of a word's bytes: in the stream's order on a byte boundary, from the
      bottom of each byte off it. */
  lemma {:induction false} WordBitLayout(order: BitOrder, bytes: seq<Byte>, ops: seq<Op>, i: nat, j: nat, t: nat)
    requires i < |ops| && ops[i].PutWord? && j < ops[i].k && t < 8 && Holds(order, bytes, ops)
    ensures var p := Offset(ops, i) + 8 * j + t;
      && p < 8 * |bytes|
      && WireBit(order, bytes, p) ==
           WireByte(ops[i].value, ops[i].k, ops[i].e, j) / Pow2(if Offset(ops, i) % 8 == 0 && order.MsbFirst? then 7 - t else t) % 2
  {
    var pos := Offset(ops, i);
    WordStands(order, BytesBits(order, bytes), ops, i, j, t);
    var b := WireByte(ops[i].value, ops[i].k, ops[i].e, j);
    var x := if pos % 8 == 0 && order.MsbFirst? then 7 - t else t;
    assert BitIndex(ByteOrder(order, pos), 8, t) == x;
    StreamShows(order, bytes, pos + 8 * j + t, b, x);
  }

  /** A word on a byte boundary stands as its bytes, in its own endianness and whatever
      the bit order. */
  lemma {:induction false} AlignedWordLayout(order: BitOrder, bytes: seq<Byte>, ops: seq<Op>, i: nat, first: nat, j: nat)
    requires i < |ops| && ops[i].PutWord? && j < ops[i].k && Offset(ops, i) == 8 * first && Holds(order, bytes, ops)
    ensures first + j < |bytes| && bytes[first + j] == WireByte(ops[i].value, ops[i].k, ops[i].e, j)
  {
    var at, b := first + j, WireByte(ops[i].value, ops[i].k, ops[i].e, j);
    WordStands(order, BytesBits(order, bytes), ops, i, j, 7);
    assert Pow2(8) == 256;
    forall t: nat | t < 8 ensures BitAt(bytes[at], t) == BitAt(b, t) {
      AlignedBit(order, bytes, ops, i, first, j, t);
    }
    BitsDetermine(bytes[at], b, 8);
  }

  lemma {:induction false} AlignedBit(order: BitOrder, bytes: seq<Byte>, ops: seq<Op>, i: nat, first: nat, j: nat, t: nat)
    requires i < |ops| && ops[i].PutWord? && j < ops[i].k && Offset(ops, i) == 8 * first && Holds(order, bytes, ops)
    requires t < 8 && first + j < |bytes|
    ensures BitAt(bytes[first + j], t) == BitAt(WireByte(ops[i].value, ops[i].k, ops[i].e, j), t)
  {
    var u := if order.MsbFirst? then 7 - t else t;
    WordStands(order, BytesBits(order, bytes), ops, i, j, u);
    StaysInOrder(order, first);
    StreamByteBit(order, bytes, first + j, u, t);
  }

  lemma StaysInOrder(order: BitOrder, first: nat)
    ensures ByteOrder(order, 8 * first) == order
  {
  }

  lemma {:induction false} StreamByteBit(order: BitOrder, bytes: seq<Byte>, at: nat, u: nat, t: nat)
    requires at < |bytes| && u < 8 && BitIndex(order, 8, u) == t
    ensures BytesBits(order, bytes)[8 * at + u] == BitAt(bytes[at], t)
  {
    StreamBit(order, bytes, at, u);
  }
}
