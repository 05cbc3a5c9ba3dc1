/** `BitStreamEncoder`: the fields and methods of the program, each method tied
    to the bits it appends (crates/binschema-runtime/src/bitstream.rs:26-217, 486-491). */
module BitStreamEncoder {
  import opened Wrappers
  import opened Bits
  import opened BitStream

  /** Setting one clear bit of a byte. */
  lemma OrSetsBit(order: BitOrder, c: Byte, pos: nat)
    requires pos < 8
    ensures var r := Or(c, Shl(1, BitIndex(order, 8, pos)));
      r < 256 && WordBits(order, r, 8) == WordBits(order, c, 8)[pos := true]
  {
    var k := BitIndex(order, 8, pos);
    var r := Or(c, Shl(1, k));
    assert Pow2(8) == 256 && Pow2(1) == 2;
    ShlBound(1, k, 1);
    Pow2Monotone(1 + k, 8);
    OrBound(c, Shl(1, k), 8);
    forall i | 0 <= i < 8 ensures WordBits(order, r, 8)[i] == WordBits(order, c, 8)[pos := true][i] {
      OrBits(c, Shl(1, k), BitIndex(order, 8, i));
      ShlBits(1, k, BitIndex(order, 8, i));
      OneHasOneBit(BitIndex(order, 8, i) as int - k);
    }
  }

  /** Or-ing an `n`-bit value, shifted to end `pos + n` bits into the byte, fills
      exactly those bits: the MSB-first fast path. */
  lemma OrFillsField(c: Byte, pos: nat, v: nat, n: nat)
    requires pos + n <= 8 && v < Pow2(n)
    requires forall i :: pos <= i < 8 ==> !WordBits(MsbFirst, c, 8)[i]
    ensures var r := Or(c, Shl(v, 8 - pos - n));
      && r < 256
      && WordBits(MsbFirst, r, 8)[..pos + n] == WordBits(MsbFirst, c, 8)[..pos] + WordBits(MsbFirst, v, n)
      && forall i :: pos + n <= i < 8 ==> !WordBits(MsbFirst, r, 8)[i]
  {
    var r := Or(c, Shl(v, 8 - pos - n));
    FieldInByte(c, pos, v, n);
    var bits, old_, field := WordBits(MsbFirst, r, 8), WordBits(MsbFirst, c, 8), WordBits(MsbFirst, v, n);
    forall i: nat | i < 8 ensures bits[i] == (if i < pos then old_[i] else i < pos + n && field[i - pos]) {
      FieldBit(c, v, n, 8 - pos - n, 7 - i);
      assert i >= pos ==> !old_[i];
    }
    assert bits[..pos + n] == old_[..pos] + field;
  }

  lemma FieldInByte(c: Byte, pos: nat, v: nat, n: nat)
    requires pos + n <= 8 && v < Pow2(n)
    ensures Or(c, Shl(v, 8 - pos - n)) < 256
  {
    var shift := 8 - pos - n;
    assert Pow2(8) == 256;
    ShlBound(v, shift, n);
    Pow2Monotone(n + shift, 8);
    OrBound(c, Shl(v, shift), 8);
  }

  lemma FieldBit(c: nat, v: nat, n: nat, shift: nat, k: nat)
    requires v < Pow2(n)
    ensures BitAt(Or(c, Shl(v, shift)), k) == (BitAt(c, k) || (shift <= k < shift + n && BitAt(v, k - shift)))
  {
    OrBits(c, Shl(v, shift), k);
    ShlBits(v, shift, k);
    if k >= shift + n {
      HighBitsClear(v, n, k - shift);
    }
  }

  class BitStreamEncoder {
    const order: BitOrder
    var buffer: seq<Byte>
    var currentByte: Byte
    var bitPosition: nat

    /** The bits of the current byte not yet written are clear. */
    ghost predicate Valid()
      reads this
    {
      && bitPosition < 8
      && forall i :: bitPosition <= i < 8 ==> !WordBits(order, currentByte, 8)[i]
    }

    /** Every bit written so far. */
    ghost function Contents(): seq<bool>
      reads this
      requires Valid()
    {
      BytesBits(order, buffer) + WordBits(order, currentByte, 8)[..bitPosition]
    }

    constructor (order: BitOrder)
      ensures this.order == order && Valid() && Contents() == []
    {
      this.order := order;
      buffer, currentByte, bitPosition := [], 0, 0;
      new;
      forall i: nat | i < 8 ensures !WordBits(order, 0, 8)[i] {
        ZeroHasNoBits(BitIndex(order, 8, i));
      }
    }

    method FlushByte()
      requires bitPosition <= 8
      modifies this
      ensures Valid() && bitPosition == 0
      ensures Contents() == BytesBits(order, old(buffer)) + WordBits(order, old(currentByte), 8)
    {
      BytesBitsAppend(order, buffer, currentByte);
      buffer := buffer + [currentByte];
      currentByte := 0;
      bitPosition := 0;
      forall i: nat | i < 8 ensures !WordBits(order, 0, 8)[i] {
        ZeroHasNoBits(BitIndex(order, 8, i));
      }
    }

    method WriteSingleBit(bit: nat)
      requires Valid()
      modifies this
      ensures Valid()
      ensures Contents() == old(Contents()) + [bit != 0]
    {
      ghost var before := WordBits(order, currentByte, 8);
      var bitIndex := if order.MsbFirst? then 7 - bitPosition else bitPosition;
      OrSetsBit(order, currentByte, bitPosition);
      if bit != 0 {
        currentByte := Or(currentByte, Shl(1, bitIndex));
      }
      assert WordBits(order, currentByte, 8) == before[bitPosition := bit != 0];
      bitPosition := bitPosition + 1;
      assert WordBits(order, currentByte, 8)[..bitPosition] == before[..bitPosition - 1] + [bit != 0];
      if bitPosition == 8 {
        FlushByte();
      }
    }

    method WriteBits(value: nat, numBits: nat)
      requires Valid()
      modifies this
      ensures Valid()
      ensures Contents() == old(Contents()) +
        (if 1 <= numBits <= 64 then EncodeOp(order, |old(Contents())|, PutBits(value, numBits)) else [])
    {
      if numBits == 0 || numBits > 64 {
        return;
      }
      var masked := And(value, Mask(numBits));
      MaskBound(value, numBits);
      assert WordBits(order, masked, numBits) == WordBits(order, value, numBits) by {
        forall i: nat | i < numBits ensures WordBits(order, masked, numBits)[i] == WordBits(order, value, numBits)[i] {
          AndBits(value, Mask(numBits), BitIndex(order, numBits, i));
          MaskBits(numBits, BitIndex(order, numBits, i));
        }
      }
      if order.MsbFirst? && numBits <= 8 {
        var bitsAvailable := 8 - bitPosition;
        if numBits <= bitsAvailable {
          WriteField(masked, numBits);
          return;
        }
      }
      ghost var bits := WordBits(order, masked, numBits);
      for i := 0 to numBits
        invariant Valid()
        invariant Contents() == old(Contents()) + bits[..i]
      {
        var bitIndex := if order.MsbFirst? then numBits - 1 - i else i;
        var bit := And(Shr(masked, bitIndex), 1);
        BitOfShift(masked, bitIndex);
        WriteSingleBit(bit);
        assert bits[..i + 1] == bits[..i] + [bits[i]];
      }
      assert bits[..numBits] == bits;
    }

    /** The MSB-first fast path: up to eight bits that fit in the current byte. */
    method WriteField(value: nat, n: nat)
      requires Valid() && order.MsbFirst? && n <= 8 - bitPosition && value < Pow2(n)
      modifies this
      ensures Valid()
      ensures Contents() == old(Contents()) + WordBits(order, value, n)
    {
      var shift := 8 - bitPosition - n;
      OrFillsField(currentByte, bitPosition, value, n);
      MaskIdentity(value, n);
      currentByte := Or(currentByte, Shl(And(value, Mask(n)), shift));
      bitPosition := bitPosition + n;
      if bitPosition == 8 {
        assert WordBits(order, currentByte, 8)[..8] == WordBits(order, currentByte, 8);
        FlushByte();
      }
    }

    /** How far into the current byte the stream is. */
    lemma PositionIsBitPosition()
      requires Valid()
      ensures |Contents()| % 8 == bitPosition
    {
    }

    /** The bits appended by the integer writers below, as the stream's own operation. */
    lemma WordLayout(value: nat, k: nat, e: Endianness)
      requires Valid()
      ensures BytesBits(if bitPosition == 0 then order else LsbFirst, WordBytes(value, k, e))
           == EncodeOp(order, |Contents()|, PutWord(value, k, e))
    {
      PositionIsBitPosition();
    }

    method WriteUint8(value: Byte)
      requires Valid()
      modifies this
      ensures Valid()
      ensures bitPosition == old(bitPosition)
      ensures Contents() == old(Contents()) + WordBits(if old(bitPosition) == 0 then order else LsbFirst, value, 8)
    {
      if bitPosition == 0 {
        BytesBitsAppend(order, buffer, value);
        buffer := buffer + [value];
      } else {
        ghost var bits := WordBits(LsbFirst, value, 8);
        for i := 0 to 8
          invariant Valid()
          invariant Contents() == old(Contents()) + bits[..i]
        {
          var bit := And(Shr(value, i), 1);
          BitOfShift(value, i);
          WriteSingleBit(bit);
          assert bits[..i + 1] == bits[..i] + [bits[i]];
        }
        assert bits[..8] == bits;
        assert |Contents()| == |old(Contents())| + 8;
      }
    }

    /** The aligned path of the wider writers: whole bytes go straight to the buffer. */
    method ExtendAligned(bytes: seq<Byte>)
      requires Valid() && bitPosition == 0
      modifies this
      ensures Valid() && bitPosition == 0
      ensures Contents() == old(Contents()) + BytesBits(order, bytes)
    {
      BytesBitsConcat(order, buffer, bytes);
      buffer := buffer + bytes;
    }

    /** The unaligned path: one `WriteUint8` per byte. */
    method WriteEach(bytes: seq<Byte>)
      requires Valid()
      modifies this
      ensures Valid() && bitPosition == old(bitPosition)
      ensures Contents() == old(Contents()) + BytesBits(if old(bitPosition) == 0 then order else LsbFirst, bytes)
    {
      ghost var o := if bitPosition == 0 then order else LsbFirst;
      for i := 0 to |bytes|
        invariant Valid() && bitPosition == old(bitPosition)
        invariant Contents() == old(Contents()) + BytesBits(o, bytes[..i])
      {
        WriteUint8(bytes[i]);
        EachAppends(old(Contents()), o, bytes, i);
      }
      assert bytes[..|bytes|] == bytes;
    }

    method WriteUint16(value: nat, e: Endianness)
      requires Valid() && value < Pow2(16)
      modifies this
      ensures Valid() && bitPosition == old(bitPosition)
      ensures Contents() == old(Contents()) + EncodeOp(order, |old(Contents())|, PutWord(value, 2, e))
    {
      WordLayout(value, 2, e);
      if bitPosition == 0 {
        ExtendAligned(WordBytes(value, 2, e));
      } else {
        WriteEach(WordBytes(value, 2, e));
      }
    }

    method WriteUint32(value: nat, e: Endianness)
      requires Valid() && value < Pow2(32)
      modifies this
      ensures Valid() && bitPosition == old(bitPosition)
      ensures Contents() == old(Contents()) + EncodeOp(order, |old(Contents())|, PutWord(value, 4, e))
    {
      WordLayout(value, 4, e);
      if bitPosition == 0 {
        ExtendAligned(WordBytes(value, 4, e));
      } else {
        WriteEach(WordBytes(value, 4, e));
      }
    }

    method WriteUint64(value: nat, e: Endianness)
      requires Valid() && value < Pow2(64)
      modifies this
      ensures Valid() && bitPosition == old(bitPosition)
      ensures Contents() == old(Contents()) + EncodeOp(order, |old(Contents())|, PutWord(value, 8, e))
    {
      WordLayout(value, 8, e);
      if bitPosition == 0 {
        ExtendAligned(WordBytes(value, 8, e));
      } else {
        HalvesFit(value);
        WordBytesHalves(value, e);
        match e
        case BigEndian => WriteHalves(Shr(value, 32), And(value, Mask(32)), e);
        case LittleEndian => WriteHalves(And(value, Mask(32)), Shr(value, 32), e);
      }
    }

    method WriteHalves(first: nat, second: nat, e: Endianness)
      requires Valid() && bitPosition > 0 && first < Pow2(32) && second < Pow2(32)
      modifies this
      ensures Valid() && bitPosition == old(bitPosition)
      ensures Contents() == old(Contents()) + BytesBits(LsbFirst, WordBytes(first, 4, e) + WordBytes(second, 4, e))
    {
      ghost var c := Contents();
      ghost var a, b := BytesBits(LsbFirst, WordBytes(first, 4, e)), BytesBits(LsbFirst, WordBytes(second, 4, e));
      WordLayout(first, 4, e);
      WriteUint32(first, e);
      assert Contents() == c + a;
      WordLayout(second, 4, e);
      WriteUint32(second, e);
      assert Contents() == c + a + b;
      TwoAppend(c, WordBytes(first, 4, e), WordBytes(second, 4, e));
    }

    /** The finished bytes hold every bit written, then zero padding to a whole byte. */
    method Finish() returns (bytes: seq<Byte>)
      requires Valid()
      modifies this
      ensures |old(Contents())| <= |BytesBits(order, bytes)| < |old(Contents())| + 8
      ensures Occurs(BytesBits(order, bytes), 0, old(Contents()))
      ensures forall i :: |old(Contents())| <= i < |BytesBits(order, bytes)| ==> !BytesBits(order, bytes)[i]
    {
      ghost var written, tail := Contents(), WordBits(order, currentByte, 8);
      ghost var n := |BytesBits(order, buffer)|;
      if bitPosition > 0 {
        FlushByte();
        assert BytesBits(order, buffer) == Contents();
        assert forall i :: |written| <= i < n + 8 ==> Contents()[i] == tail[i - n];
      }
      bytes := buffer;
      assert BytesBits(order, bytes)[0..|written|] == written;
    }
  }

  lemma {:induction false} EachAppends(before: seq<bool>, o: BitOrder, bytes: seq<Byte>, i: nat)
    requires i < |bytes|
    ensures before + BytesBits(o, bytes[..i]) + WordBits(o, bytes[i], 8) == before + BytesBits(o, bytes[..i + 1])
  {
    BytesBitsAppend(o, bytes[..i], bytes[i]);
    assert bytes[..i + 1] == bytes[..i] + [bytes[i]];
  }

  lemma {:induction false} TwoAppend(before: seq<bool>, a: seq<Byte>, b: seq<Byte>)
    ensures before + BytesBits(LsbFirst, a) + BytesBits(LsbFirst, b) == before + BytesBits(LsbFirst, a + b)
  {
    BytesBitsConcat(LsbFirst, a, b);
  }

  lemma HalvesFit(v: nat)
    requires v < Pow2(64)
    ensures Shr(v, 32) < Pow2(32) && And(v, Mask(32)) < Pow2(32)
  {
    ShrBound(v, 32, 32);
    MaskBound(v, 32);
  }

  /** Byte `i` of a word's low 32 bits and of its high half. */
  lemma {:induction false} ByteOfHalves(v: nat, i: nat)
    requires i < 4
    ensures ByteOf(And(v, Mask(32)), i) == ByteOf(v, i)
    ensures ByteOf(Shr(v, 32), i) == ByteOf(v, i + 4)
  {
    ByteOfLowHalf(v, i);
    ShrAdd(v, 32, 8 * i);
  }

  lemma {:induction false} ByteOfLowHalf(v: nat, i: nat)
    requires i < 4
    ensures ByteOf(And(v, Mask(32)), i) == ByteOf(v, i)
  {
    var a, b := Shr(And(v, Mask(32)), 8 * i), Shr(v, 8 * i);
    LowAndHigh(a, 8);
    LowAndHigh(b, 8);
    assert Pow2(8) == 256;
    MaskBound(a, 8);
    MaskBound(b, 8);
    forall j: nat | j < 8 ensures BitAt(And(a, Mask(8)), j) == BitAt(And(b, Mask(8)), j) {
      SameBit(v, i, j);
    }
    BitsDetermine(And(a, Mask(8)), And(b, Mask(8)), 8);
  }

  lemma SameBit(v: nat, i: nat, j: nat)
    requires i < 4 && j < 8
    ensures BitAt(And(Shr(And(v, Mask(32)), 8 * i), Mask(8)), j) == BitAt(And(Shr(v, 8 * i), Mask(8)), j)
  {
    AndBits(Shr(And(v, Mask(32)), 8 * i), Mask(8), j);
    AndBits(Shr(v, 8 * i), Mask(8), j);
    ShrBits(And(v, Mask(32)), 8 * i, j);
    ShrBits(v, 8 * i, j);
    AndBits(v, Mask(32), 8 * i + j);
    MaskBits(32, 8 * i + j);
  }

  lemma WordBytesHalves(v: nat, e: Endianness)
    ensures WordBytes(v, 8, e) ==
      if e.BigEndian? then WordBytes(Shr(v, 32), 4, e) + WordBytes(And(v, Mask(32)), 4, e)
      else WordBytes(And(v, Mask(32)), 4, e) + WordBytes(Shr(v, 32), 4, e)
  {
    var high, low := Shr(v, 32), And(v, Mask(32));
    forall i: nat | i < 4 ensures ByteOf(low, i) == ByteOf(v, i) && ByteOf(high, i) == ByteOf(v, i + 4) {
      ByteOfHalves(v, i);
    }
  }

}
