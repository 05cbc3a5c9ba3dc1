/** `BitStreamDecoder`: the fields and methods of the program, each read tied to
    the bits it consumes (crates/binschema-runtime/src/bitstream.rs:495-740). */
module BitStreamDecoder {
  import opened Wrappers
  import opened Bits
  import opened BitStream

  // ---------------------------------------------------------------- word assembly

  /** All requested bits come from one byte: `(byte >> shift) & mask`. */
  lemma FieldOfByte(b: Byte, pos: nat, n: nat)
    requires pos + n <= 8
    ensures And(Shr(b, 8 - pos - n), Mask(n)) == WordValue(MsbFirst, WordBits(MsbFirst, b, 8)[pos..pos + n])
  {
    var shift := 8 - pos - n;
    var v, bits := And(Shr(b, shift), Mask(n)), WordBits(MsbFirst, b, 8)[pos..pos + n];
    MaskBound(Shr(b, shift), n);
    forall i: nat | i < n ensures BitAt(v, BitIndex(MsbFirst, n, i)) == bits[i] {
      AndBits(Shr(b, shift), Mask(n), n - 1 - i);
      MaskBits(n, n - 1 - i);
      ShrBits(b, shift, n - 1 - i);
    }
    WordValueIsUnique(MsbFirst, bits, v);
  }

  lemma {:induction false} FieldInStream(bytes: seq<Byte>, i: nat, pos: nat, n: nat)
    requires i < |bytes| && pos + n <= 8
    ensures And(Shr(bytes[i], 8 - pos - n), Mask(n))
         == WordValue(MsbFirst, BytesBits(MsbFirst, bytes)[8 * i + pos..8 * i + pos + n])
  {
    ByteWindow(MsbFirst, bytes, i);
    FieldOfWindow(BytesBits(MsbFirst, bytes), 8 * i, bytes[i], pos, n);
  }

  lemma {:induction false} FieldOfWindow(all: seq<bool>, at: nat, b: Byte, pos: nat, n: nat)
    requires at + 8 <= |all| && all[at..at + 8] == WordBits(MsbFirst, b, 8) && pos + n <= 8
    ensures And(Shr(b, 8 - pos - n), Mask(n)) == WordValue(MsbFirst, all[at + pos..at + pos + n])
  {
    FieldOfByte(b, pos, n);
    SliceOfSlice(all, at, 8, pos, n);
  }

  /** `first` low bits of `a` followed by `second` high bits of `b`. */
  function Straddle(a: Byte, b: Byte, first: nat, second: nat): nat
    requires second <= 8
  {
    Or(Shl(And(a, Mask(first)), second), And(Shr(b, 8 - second), Mask(second)))
  }

  lemma StraddleBit(a: Byte, b: Byte, first: nat, second: nat, i: nat)
    requires second <= 8 && i < first + second
    ensures BitAt(Straddle(a, b, first, second), first + second - 1 - i)
         == if i < first then BitAt(a, first - 1 - i) else BitAt(b, 7 - (i - first))
  {
    var high, low := Shl(And(a, Mask(first)), second), And(Shr(b, 8 - second), Mask(second));
    var k := first + second - 1 - i;
    OrBits(high, low, k);
    HighPartBit(a, first, second, k);
    MaskedBit(Shr(b, 8 - second), second, k);
    ShrBits(b, 8 - second, k);
  }

  lemma HighPartBit(a: Byte, first: nat, second: nat, k: nat)
    requires k < first + second
    ensures BitAt(Shl(And(a, Mask(first)), second), k) == (k >= second && BitAt(a, k - second))
  {
    ShlBits(And(a, Mask(first)), second, k);
    if k >= second {
      MaskedBit(a, first, k - second);
    }
  }

  lemma MaskedBit(v: nat, n: nat, i: nat)
    ensures BitAt(And(v, Mask(n)), i) == (i < n && BitAt(v, i))
  {
    AndBits(v, Mask(n), i);
    MaskBits(n, i);
  }

  lemma StraddleBound(a: Byte, b: Byte, first: nat, second: nat)
    requires second <= 8
    ensures Straddle(a, b, first, second) < Pow2(first + second)
  {
    MaskBound(a, first);
    MaskBound(Shr(b, 8 - second), second);
    ShlBound(And(a, Mask(first)), second, first);
    Pow2Monotone(second, first + second);
    OrBound(Shl(And(a, Mask(first)), second), And(Shr(b, 8 - second), Mask(second)), first + second);
  }

  /** The requested bits straddle two bytes. */
  lemma FieldAcrossBytes(a: Byte, b: Byte, first: nat, second: nat, bits: seq<bool>)
    requires second <= 8 && |bits| == first + second
    requires forall i: nat :: i < first ==> bits[i] == BitAt(a, first - 1 - i)
    requires forall i: nat :: first <= i < first + second ==> bits[i] == BitAt(b, 7 - (i - first))
    ensures Straddle(a, b, first, second) == WordValue(MsbFirst, bits)
  {
    var v, n := Straddle(a, b, first, second), first + second;
    StraddleBound(a, b, first, second);
    forall i: nat | i < n ensures BitAt(v, BitIndex(MsbFirst, n, i)) == bits[i] {
      StraddleBit(a, b, first, second, i);
    }
    WordValueIsUnique(MsbFirst, bits, v);
  }

  /** `acc` holds the first `|bits|` of `n` bits, the others clear. */
  predicate Assembled(order: BitOrder, acc: nat, bits: seq<bool>, n: nat) {
    acc < Pow2(n) && forall j: nat :: j < n ==> BitAt(acc, BitIndex(order, n, j)) == (j < |bits| && bits[j])
  }

  lemma NothingAssembled(order: BitOrder, n: nat)
    ensures Assembled(order, 0, [], n)
  {
    forall j: nat | j < n ensures !BitAt(0, BitIndex(order, n, j)) {
      ZeroHasNoBits(BitIndex(order, n, j));
    }
  }

  /** One more bit or-ed in. */
  lemma OrAddsBit(order: BitOrder, acc: nat, bits: seq<bool>, n: nat, b: bool)
    requires |bits| < n && Assembled(order, acc, bits, n)
    ensures Assembled(order, Or(acc, Shl(if b then 1 else 0, BitIndex(order, n, |bits|))), bits + [b], n)
  {
    var one: nat, k := if b then 1 else 0, BitIndex(order, n, |bits|);
    var next := Or(acc, Shl(one, k));
    assert Pow2(1) == 2;
    ShlBound(one, k, 1);
    Pow2Monotone(1 + k, n);
    OrBound(acc, Shl(one, k), n);
    forall j: nat | j < n ensures BitAt(next, BitIndex(order, n, j)) == (j < |bits| + 1 && (bits + [b])[j]) {
      var i := BitIndex(order, n, j);
      OrBits(acc, Shl(one, k), i);
      ShlBits(one, k, i);
      if i > k {
        ZeroHasNoBits(i - k - 1);
        ZeroHasNoBits(i - k);
      }
    }
  }

  class BitStreamDecoder {
    const order: BitOrder
    const bytes: seq<Byte>
    var byteOffset: nat
    var bitOffset: nat

    ghost predicate Valid()
      reads this
    {
      && byteOffset <= |bytes| && bitOffset < 8
      && (bitOffset > 0 ==> byteOffset < |bytes|)
    }

    /** Bits consumed so far. */
    ghost function Position(): nat
      reads this
    {
      8 * byteOffset + bitOffset
    }

    ghost function AllBits(): seq<bool> {
      BytesBits(order, bytes)
    }

    constructor (bytes: seq<Byte>, order: BitOrder)
      ensures this.bytes == bytes && this.order == order
      ensures Valid() && Position() == 0
    {
      this.bytes := bytes;
      this.order := order;
      byteOffset, bitOffset := 0, 0;
    }

    method ReadSingleBit() returns (r: Result<nat, Error>)
      requires Valid()
      modifies this
      ensures Valid()
      ensures if old(Position()) < |AllBits()|
              then r == Ok(if AllBits()[old(Position())] then 1 else 0) && Position() == old(Position()) + 1
              else r == Err(UnexpectedEof) && Position() == old(Position())
    {
      if byteOffset >= |bytes| {
        return Err(UnexpectedEof);
      }
      var bitIndex := if order.MsbFirst? then 7 - bitOffset else bitOffset;
      var bit := And(Shr(bytes[byteOffset], bitIndex), 1);
      BitOfShift(bytes[byteOffset], bitIndex);
      StreamBit(order, bytes, byteOffset, bitOffset);
      bitOffset := bitOffset + 1;
      if bitOffset == 8 {
        byteOffset := byteOffset + 1;
        bitOffset := 0;
      }
      return Ok(bit);
    }

    /** One turn of a bit loop: read a bit and or it into place `i` of `n`. */
    method ReadBitInto(o: BitOrder, acc: nat, n: nat, i: nat, ghost start: nat) returns (r: Result<nat, Error>)
      requires Valid() && i < n && Position() == start + i <= |AllBits()|
      requires Assembled(o, acc, AllBits()[start..start + i], n)
      modifies this
      ensures Valid()
      ensures if start + i < |AllBits()|
              then r.Ok? && Position() == start + i + 1 && Assembled(o, r.value, AllBits()[start..start + i + 1], n)
              else r == Err(UnexpectedEof) && Position() == start + i
    {
      var read := ReadSingleBit();
      if read.Err? {
        return Err(read.error);
      }
      ghost var bits, next := AllBits()[start..start + i], AllBits()[start + i];
      OrAddsBit(o, acc, bits, n, next);
      assert AllBits()[start..start + i + 1] == bits + [next];
      return Ok(Or(acc, Shl(read.value, BitIndex(o, n, i))));
    }

    /** The bit loops of `read_bits` (in stream order) and of an unaligned
        `read_uint8` (least significant first). */
    method ReadBitLoop(o: BitOrder, n: nat) returns (r: Result<nat, Error>)
      requires Valid()
      modifies this
      ensures Valid() && old(Position()) <= Position()
      ensures if old(Position()) + n <= |AllBits()|
              then r == Ok(WordValue(o, AllBits()[old(Position())..old(Position()) + n])) && Position() == old(Position()) + n
              else r == Err(UnexpectedEof)
    {
      var result: nat := 0;
      ghost var start := Position();
      NothingAssembled(o, n);
      assert AllBits()[start..start] == [];
      for i := 0 to n
        invariant Valid() && Position() == start + i <= |AllBits()|
        invariant Assembled(o, result, AllBits()[start..start + i], n)
      {
        var read := ReadBitInto(o, result, n, i, start);
        if read.Err? {
          return Err(read.error);
        }
        result := read.value;
      }
      WordValueIsUnique(o, AllBits()[start..start + n], result);
      return Ok(result);
    }

    method ReadBits(numBits: nat) returns (r: Result<nat, Error>)
      requires Valid()
      modifies this
      ensures Valid() && old(Position()) <= Position()
      ensures !(1 <= numBits <= 64) ==> r == Err(InvalidValue) && Position() == old(Position())
      ensures 1 <= numBits <= 64 ==>
        match DecodeOp(order, AllBits(), old(Position()), BitsShape(numBits))
        case Some(v) => r == Ok(v) && Position() == old(Position()) + numBits
        case None => r == Err(UnexpectedEof)
    {
      if numBits == 0 || numBits > 64 {
        return Err(InvalidValue);
      }
      if order.MsbFirst? && numBits <= 8 {
        r := ReadField(numBits);
      } else {
        r := ReadBitLoop(order, numBits);
      }
    }

    /** The MSB-first fast path: up to eight bits from one or two bytes. */
    method ReadField(n: nat) returns (r: Result<nat, Error>)
      requires Valid() && order.MsbFirst? && 1 <= n <= 8
      modifies this
      ensures Valid()
      ensures if old(Position()) + n <= |AllBits()|
              then r == Ok(WordValue(order, AllBits()[old(Position())..old(Position()) + n])) && Position() == old(Position()) + n
              else r == Err(UnexpectedEof) && Position() == old(Position())
    {
      if byteOffset >= |bytes| {
        return Err(UnexpectedEof);
      }
      var bitsAvailable := 8 - bitOffset;
      if n <= bitsAvailable {
        r := ReadWithinByte(n);
      } else if byteOffset + 1 >= |bytes| {
        r := Err(UnexpectedEof);
      } else {
        r := ReadStraddling(n, bitsAvailable, n - bitsAvailable);
      }
    }

    method ReadWithinByte(n: nat) returns (r: Result<nat, Error>)
      requires Valid() && order.MsbFirst? && byteOffset < |bytes| && 1 <= n <= 8 - bitOffset
      modifies this
      ensures Valid()
      ensures r == Ok(WordValue(order, AllBits()[old(Position())..old(Position()) + n])) && Position() == old(Position()) + n
    {
      var shift := 8 - bitOffset - n;
      ghost var start := Position();
      FieldInStream(bytes, byteOffset, bitOffset, n);
      r := Ok(And(Shr(bytes[byteOffset], shift), Mask(n)));
      assert r == Ok(WordValue(order, AllBits()[start..start + n]));
      bitOffset := bitOffset + n;
      if bitOffset == 8 {
        bitOffset := 0;
        byteOffset := byteOffset + 1;
      }
    }

    method ReadStraddling(n: nat, first: nat, second: nat) returns (r: Result<nat, Error>)
      requires Valid() && order.MsbFirst? && byteOffset + 1 < |bytes|
      requires 0 < first == 8 - bitOffset && 0 < second < 8 && n == first + second
      modifies this
      ensures Valid()
      ensures r == Ok(WordValue(order, AllBits()[old(Position())..old(Position()) + n])) && Position() == old(Position()) + n
    {
      ghost var bits := AllBits()[Position()..Position() + n];
      forall i: nat | i < n
        ensures bits[i] == if i < first then BitAt(bytes[byteOffset], first - 1 - i) else BitAt(bytes[byteOffset + 1], 7 - (i - first))
      {
        if i < first {
          StreamBit(order, bytes, byteOffset, bitOffset + i);
        } else {
          StreamBit(order, bytes, byteOffset + 1, i - first);
        }
      }
      FieldAcrossBytes(bytes[byteOffset], bytes[byteOffset + 1], first, second, bits);
      var highPart := Shl(And(bytes[byteOffset], Mask(first)), second);
      var lowPart := And(Shr(bytes[byteOffset + 1], 8 - second), Mask(second));
      byteOffset := byteOffset + 1;
      bitOffset := second;
      return Ok(Or(highPart, lowPart));
    }

    // ------------------------------------------------------------ whole bytes

    lemma BitsIntoByte()
      requires bitOffset < 8
      ensures Position() % 8 == bitOffset
      ensures ByteOrder(order, Position()) == if bitOffset == 0 then order else LsbFirst
    {
    }

    method ReadUint8() returns (r: Result<Byte, Error>)
      requires Valid()
      modifies this
      ensures Valid() && old(Position()) <= Position()
      ensures if old(Position()) + 8 <= |AllBits()|
              then r.Ok? && Position() == old(Position()) + 8
                && r.value == WordValue(ByteOrder(order, old(Position())), AllBits()[old(Position())..old(Position()) + 8])
              else r == Err(UnexpectedEof)
    {
      BitsIntoByte();
      if bitOffset == 0 {
        r := ReadAlignedByte();
      } else {
        r := ReadShiftedByte();
      }
    }

    method ReadAlignedByte() returns (r: Result<Byte, Error>)
      requires Valid() && bitOffset == 0
      modifies this
      ensures Valid() && old(Position()) <= Position()
      ensures if old(Position()) + 8 <= |AllBits()|
              then r.Ok? && Position() == old(Position()) + 8
                && r.value == WordValue(order, AllBits()[old(Position())..old(Position()) + 8])
              else r == Err(UnexpectedEof)
    {
      if byteOffset >= |bytes| {
        return Err(UnexpectedEof);
      }
      AlignedByte(order, bytes, byteOffset);
      r := Ok(bytes[byteOffset]);
      byteOffset := byteOffset + 1;
    }

    /** A byte across a byte boundary is read least significant bit first. */
    method ReadShiftedByte() returns (r: Result<Byte, Error>)
      requires Valid()
      modifies this
      ensures Valid() && old(Position()) <= Position()
      ensures if old(Position()) + 8 <= |AllBits()|
              then r.Ok? && Position() == old(Position()) + 8
                && r.value == WordValue(LsbFirst, AllBits()[old(Position())..old(Position()) + 8])
              else r == Err(UnexpectedEof)
    {
      var read := ReadBitLoop(LsbFirst, 8);
      if read.Err? {
        return Err(read.error);
      }
      ByteBound(LsbFirst, AllBits()[old(Position())..old(Position()) + 8]);
      r := Ok(read.value);
    }

    /** The bytes `bs` were read from `start` up to the current position. */
    ghost predicate Consumed(start: nat, bs: seq<Byte>)
      reads this
    {
      && Position() == start + 8 * |bs| <= |AllBits()|
      && BitsToBytes(ByteOrder(order, start), AllBits()[start..start + 8 * |bs|]) == bs
    }

    lemma {:induction false} ConsumedDecodes(start: nat, bs: seq<Byte>, e: Endianness)
      requires Consumed(start, bs)
      ensures DecodeOp(order, AllBits(), start, WordShape(|bs|, e)) == Some(BytesValue(bs, e))
    {
    }

    method ReadNext(ghost start: nat, ghost bs: seq<Byte>) returns (r: Result<Byte, Error>)
      requires Valid() && Consumed(start, bs)
      modifies this
      ensures Valid()
      ensures if start + 8 * |bs| + 8 <= |AllBits()| then r.Ok? && Consumed(start, bs + [r.value]) else r == Err(UnexpectedEof)
    {
      r := ReadUint8();
      if start + 8 * |bs| + 8 <= |AllBits()| {
        RunGrows(order, AllBits(), start, |bs|);
      }
    }

    /** The aligned fast path: `k` bytes copied and converted. */
    method ReadAligned(k: nat, e: Endianness) returns (r: Result<nat, Error>)
      requires Valid() && bitOffset == 0
      modifies this
      ensures Valid()
      ensures match DecodeOp(order, AllBits(), old(Position()), WordShape(k, e))
              case Some(v) => r == Ok(v) && Position() == old(Position()) + 8 * k
              case None => r == Err(UnexpectedEof) && Position() == old(Position())
    {
      if byteOffset + k > |bytes| {
        return Err(UnexpectedEof);
      }
      AlignedWindow(order, bytes, byteOffset, k);
      r := Ok(BytesValue(bytes[byteOffset..byteOffset + k], e));
      byteOffset := byteOffset + k;
    }

    method ReadUint16(e: Endianness) returns (r: Result<nat, Error>)
      requires Valid()
      modifies this
      ensures Valid()
      ensures match DecodeOp(order, AllBits(), old(Position()), WordShape(2, e))
              case Some(v) => r == Ok(v) && Position() == old(Position()) + 16
              case None => r == Err(UnexpectedEof)
    {
      if bitOffset == 0 {
        r := ReadAligned(2, e);
        return;
      }
      ghost var start := Position();
      var pair := ReadTwo(start, []);
      if pair.Err? { return Err(pair.error); }
      var (a, b) := pair.value;
      ConsumedDecodes(start, [a, b], e);
      CombineTwo(a, b);
      CombineTwo(b, a);
      match e
      case BigEndian => r := Ok(Or(Shl(a, 8), b));
      case LittleEndian => r := Ok(Or(Shl(b, 8), a));
    }

    method ReadTwo(ghost start: nat, ghost bs: seq<Byte>) returns (r: Result<(Byte, Byte), Error>)
      requires Valid() && Consumed(start, bs)
      modifies this
      ensures Valid()
      ensures if start + 8 * |bs| + 16 <= |AllBits()|
              then r.Ok? && Consumed(start, bs + [r.value.0, r.value.1])
              else r == Err(UnexpectedEof)
    {
      var a := ReadNext(start, bs);
      if a.Err? { return Err(a.error); }
      var b := ReadNext(start, bs + [a.value]);
      if b.Err? { return Err(b.error); }
      assert bs + [a.value] + [b.value] == bs + [a.value, b.value];
      return Ok((a.value, b.value));
    }

    method ReadUint32(e: Endianness) returns (r: Result<nat, Error>)
      requires Valid()
      modifies this
      ensures Valid()
      ensures match DecodeOp(order, AllBits(), old(Position()), WordShape(4, e))
              case Some(v) => r == Ok(v) && Position() == old(Position()) + 32
              case None => r == Err(UnexpectedEof)
    {
      if bitOffset == 0 {
        r := ReadAligned(4, e);
        return;
      }
      ghost var start := Position();
      var four := ReadFour();
      if four.Err? { return Err(four.error); }
      var (b0, b1, b2, b3) := four.value;
      ConsumedDecodes(start, [b0, b1, b2, b3], e);
      CombinedIsValue(b0, b1, b2, b3, e);
      r := Ok(Combined(b0, b1, b2, b3, e));
    }

    method ReadFour() returns (r: Result<(Byte, Byte, Byte, Byte), Error>)
      requires Valid()
      modifies this
      ensures Valid()
      ensures if old(Position()) + 32 <= |AllBits()|
              then r.Ok? && Consumed(old(Position()), [r.value.0, r.value.1, r.value.2, r.value.3])
              else r == Err(UnexpectedEof)
    {
      ghost var start := Position();
      var a := ReadTwo(start, []);
      if a.Err? { return Err(a.error); }
      var b := ReadTwo(start, [a.value.0, a.value.1]);
      if b.Err? { return Err(b.error); }
      assert [a.value.0, a.value.1] + [b.value.0, b.value.1] == [a.value.0, a.value.1, b.value.0, b.value.1];
      return Ok((a.value.0, a.value.1, b.value.0, b.value.1));
    }

    method ReadUint64(e: Endianness) returns (r: Result<nat, Error>)
      requires Valid()
      modifies this
      ensures Valid()
      ensures match DecodeOp(order, AllBits(), old(Position()), WordShape(8, e))
              case Some(v) => r == Ok(v) && Position() == old(Position()) + 64
              case None => r == Err(UnexpectedEof)
    {
      if bitOffset == 0 {
        r := ReadAligned(8, e);
        return;
      }
      ghost var start := Position();
      var a := ReadUint32(e);
      if a.Err? { return Err(a.error); }
      var b := ReadUint32(e);
      if b.Err? { return Err(b.error); }
      HalvesDecode(order, AllBits(), start, e, a.value, b.value);
      match e
      case BigEndian => r := Ok(Or(Shl(a.value, 32), b.value));
      case LittleEndian => r := Ok(Or(Shl(b.value, 32), a.value));
    }
  }

  /** One more byte on a run of bytes. */
  lemma RunGrows(order: BitOrder, bits: seq<bool>, start: nat, k: nat)
    requires start + 8 * k + 8 <= |bits|
    ensures var o, from := ByteOrder(order, start), start + 8 * k;
      && WordValue(o, bits[from..from + 8]) < 256
      && ByteOrder(order, from) == o
      && BitsToBytes(o, bits[start..from + 8]) == BitsToBytes(o, bits[start..from]) + [WordValue(o, bits[from..from + 8])]
  {
    var o, from := ByteOrder(order, start), start + 8 * k;
    BitsToBytesConcat(o, bits[start..from], bits[from..from + 8]);
    OneByte(o, bits[from..from + 8]);
    assert bits[start..from + 8] == bits[start..from] + bits[from..from + 8];
  }

  lemma AlignedByte(order: BitOrder, bytes: seq<Byte>, i: nat)
    requires i < |bytes|
    ensures WordValue(order, BytesBits(order, bytes)[8 * i..8 * i + 8]) == bytes[i]
  {
    ByteWindow(order, bytes, i);
    ByteValue(order, bytes[i]);
  }

  /** Whole bytes of the stream, seen as bits and back. */
  lemma AlignedWindow(order: BitOrder, bytes: seq<Byte>, i: nat, k: nat)
    requires i + k <= |bytes|
    ensures BitsToBytes(order, BytesBits(order, bytes)[8 * i..8 * i + 8 * k]) == bytes[i..i + k]
  {
    var before, window, after := bytes[..i], bytes[i..i + k], bytes[i + k..];
    assert bytes == before + window + after;
    BytesBitsConcat(order, before + window, after);
    BytesBitsConcat(order, before, window);
    BytesOfBytesBits(order, window);
  }

  lemma {:induction false} OneByteValue(b: Byte, e: Endianness)
    ensures BytesValue([b], e) == b
  {
    assert [b][..0] == [] && [b][1..] == [];
    assert BytesValue([], e) == 0;
  }

  lemma {:induction false} CombineTwo(high: Byte, low: Byte)
    ensures Or(Shl(high, 8), low) == BytesValue([high, low], BigEndian) == BytesValue([low, high], LittleEndian)
  {
    assert Pow2(8) == 256;
    HighOrLow(high, low, 8);
    assert [high, low][..1] == [high] && [low, high][1..] == [high];
    OneByteValue(high, BigEndian);
    OneByteValue(high, LittleEndian);
  }

  lemma {:induction false} CombineFour(b0: Byte, b1: Byte, b2: Byte, b3: Byte)
    ensures Or(Or(Or(Shl(b0, 24), Shl(b1, 16)), Shl(b2, 8)), b3) == b3 + 256 * (b2 + 256 * (b1 + 256 * b0))
  {
    assert Pow2(8) == 256 && Pow2(16) == 65536 && Pow2(24) == 16777216;
    ShlIsMul(b1, 16);
    ShlIsMul(b2, 8);
    HighOrLow(b0, Shl(b1, 16), 24);
    var top := b1 + 256 * b0;
    ShlIsMul(top, 16);
    HighOrLow(top, Shl(b2, 8), 16);
    var middle := b2 + 256 * top;
    ShlIsMul(middle, 8);
    HighOrLow(middle, b3, 8);
  }

  lemma BytesValueOfFour(b0: Byte, b1: Byte, b2: Byte, b3: Byte)
    ensures BytesValue([b0, b1, b2, b3], BigEndian) == b3 + 256 * (b2 + 256 * (b1 + 256 * b0))
    ensures BytesValue([b3, b2, b1, b0], LittleEndian) == b3 + 256 * (b2 + 256 * (b1 + 256 * b0))
  {
    assert [b0, b1, b2, b3][..3] == [b0, b1, b2] && [b0, b1, b2][..2] == [b0, b1] && [b0, b1][..1] == [b0];
    assert BytesValue([b0], BigEndian) == b0 && BytesValue([b0, b1], BigEndian) == b1 + 256 * b0;
    assert [b3, b2, b1, b0][1..] == [b2, b1, b0] && [b2, b1, b0][1..] == [b1, b0] && [b1, b0][1..] == [b0];
    assert BytesValue([b0], LittleEndian) == b0 && BytesValue([b1, b0], LittleEndian) == b1 + 256 * b0;
  }

  function Combined(b0: Byte, b1: Byte, b2: Byte, b3: Byte, e: Endianness): nat {
    match e
    case BigEndian => Or(Or(Or(Shl(b0, 24), Shl(b1, 16)), Shl(b2, 8)), b3)
    case LittleEndian => Or(Or(Or(Shl(b3, 24), Shl(b2, 16)), Shl(b1, 8)), b0)
  }

  lemma CombinedIsValue(b0: Byte, b1: Byte, b2: Byte, b3: Byte, e: Endianness)
    ensures Combined(b0, b1, b2, b3, e) == BytesValue([b0, b1, b2, b3], e)
  {
    CombineFour(b0, b1, b2, b3);
    CombineFour(b3, b2, b1, b0);
    BytesValueOfFour(b0, b1, b2, b3);
    BytesValueOfFour(b3, b2, b1, b0);
  }

  /** Two four-byte words read one after the other are the halves of an eight-byte one. */
  lemma HalvesDecode(order: BitOrder, bits: seq<bool>, pos: nat, e: Endianness, a: nat, b: nat)
    requires DecodeOp(order, bits, pos, WordShape(4, e)) == Some(a)
    requires DecodeOp(order, bits, pos + 32, WordShape(4, e)) == Some(b)
    ensures DecodeOp(order, bits, pos, WordShape(8, e))
         == Some(if e.BigEndian? then Or(Shl(a, 32), b) else Or(Shl(b, 32), a))
  {
    var o := ByteOrder(order, pos);
    assert ByteOrder(order, pos + 32) == o;
    BitsToBytesConcat(o, bits[pos..pos + 32], bits[pos + 32..pos + 64]);
    assert bits[pos..pos + 64] == bits[pos..pos + 32] + bits[pos + 32..pos + 64];
    HalvesValue(BitsToBytes(o, bits[pos..pos + 32]), BitsToBytes(o, bits[pos + 32..pos + 64]), e);
  }

  lemma HalvesValue(x: seq<Byte>, y: seq<Byte>, e: Endianness)
    requires |x| == 4 && |y| == 4
    ensures BytesValue(x + y, e) == if e.BigEndian? then Or(Shl(BytesValue(x, e), 32), BytesValue(y, e))
                                    else Or(Shl(BytesValue(y, e), 32), BytesValue(x, e))
  {
    var a, b := BytesValue(x, e), BytesValue(y, e);
    BytesValueBound(x, e);
    BytesValueBound(y, e);
    HighOrLow(a, b, 32);
    HighOrLow(b, a, 32);
    match e
    case BigEndian => BigEndianConcat(x, y);
    case LittleEndian => LittleEndianConcat(x, y);
  }
}
