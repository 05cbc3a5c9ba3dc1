/** The variable-length writers and readers as the program runs them: loops of
    masks and shifts over `BitStreamEncoder` and `BitStreamDecoder`, at any
    alignment (crates/binschema-runtime/src/bitstream.rs:346-477, 907-1055). */
module VarLengthIo {
  import opened Wrappers
  import opened Bits
  import opened BitStream
  import opened VarLength
  import E = BitStreamEncoder
  import D = BitStreamDecoder

  // ---------------------------------------------------------------- masks and shifts

  lemma SevenBits(v: nat)
    ensures And(v, 0x7F) == v % 128 && Shr(v, 7) == v / 128
  {
    LowAndHigh(v, 7);
    assert Pow2(7) == 128 && Mask(7) == 0x7F;
  }

  lemma Continuation(b: nat)
    requires b < 128
    ensures Or(b, 0x80) == b + 128
  {
    OrIsAdd(b, 1, 7);
    assert Pow2(7) == 128 && Shl(1, 7) == 128;
  }

  lemma TopBit(b: Byte)
    ensures And(b, 0x80) == 0 <==> b < 128
  {
    AndOneBit(b, 7);
    assert Pow2(7) == 0x80;
    assert BitAt(b, 7) == (b / 128 % 2 == 1);
  }

  lemma SignBit(b: Byte)
    ensures And(b, 0x40) == 0 <==> (b / 64) % 2 == 0
  {
    AndOneBit(b, 6);
    assert Pow2(6) == 0x40;
    assert BitAt(b, 6) == (b / 64 % 2 == 1);
  }

  function Xor(a: nat, b: nat): nat
    decreases a + b
  {
    if a == 0 && b == 0 then 0
    else (if a % 2 != b % 2 then 1 else 0) + 2 * Xor(a / 2, b / 2)
  }

  lemma {:induction false} XorOnes(v: nat, n: nat)
    requires v < Pow2(n)
    ensures Xor(v, Pow2(n) - 1) == Pow2(n) - 1 - v
    decreases n
  {
    if n > 0 {
      XorOnes(v / 2, n - 1);
      assert (Pow2(n) - 1) / 2 == Pow2(n - 1) - 1 && (Pow2(n) - 1) % 2 == 1;
    }
  }

  lemma {:induction false} XorZero(v: nat)
    ensures Xor(v, 0) == v
  {
    if v > 0 {
      XorZero(v / 2);
    }
  }

  // ---------------------------------------------------------------- one byte

  /** How the encoder lays out whole bytes at its current alignment. */
  ghost function Layout(e: E.BitStreamEncoder): BitOrder
    reads e
  {
    if e.bitPosition == 0 then e.order else LsbFirst
  }

  /** `bs` was appended to `base`. */
  ghost predicate Wrote(e: E.BitStreamEncoder, base: seq<bool>, o: BitOrder, bs: seq<Byte>)
    reads e
  {
    e.Valid() && Layout(e) == o && e.Contents() == base + BytesBits(o, bs)
  }

  lemma NothingWritten(e: E.BitStreamEncoder)
    requires e.Valid()
    ensures Wrote(e, e.Contents(), Layout(e), [])
  {
    assert BytesBits(Layout(e), []) == [];
  }

  lemma Regroup(bs: seq<Byte>, b: Byte, tail: seq<Byte>)
    ensures bs + ([b] + tail) == bs + [b] + tail
  {
  }

  lemma PrefixGrows(bs: seq<Byte>, all: seq<Byte>, j: nat)
    requires j < |all|
    ensures bs + all[..j] + [all[j]] == bs + all[..j + 1]
  {
  }

  method Put(e: E.BitStreamEncoder, b: Byte, ghost base: seq<bool>, ghost o: BitOrder, ghost bs: seq<Byte>)
    requires Wrote(e, base, o, bs)
    modifies e
    ensures Wrote(e, base, o, bs + [b])
  {
    e.WriteUint8(b);
    BytesBitsAppend(o, bs, b);
  }

  /** The whole bytes ahead of the decoder, read at its current alignment. */
  ghost function Ahead(d: D.BitStreamDecoder): seq<Byte>
    reads d
  {
    BytesFrom(d.order, d.AllBits(), d.Position())
  }

  /** Where the whole bytes ahead end.  Reading bytes does not move it. */
  ghost function Horizon(d: D.BitStreamDecoder): nat
    reads d
  {
    d.Position() + 8 * |Ahead(d)|
  }

  ghost function BytesFrom(order: BitOrder, bits: seq<bool>, pos: nat): seq<Byte> {
    if pos > |bits| then [] else BitsToBytes(ByteOrder(order, pos), bits[pos..])
  }

  lemma BytesFromStep(order: BitOrder, bits: seq<bool>, pos: nat)
    requires pos + 8 <= |bits|
    ensures |BytesFrom(order, bits, pos)| > 0
    ensures BytesFrom(order, bits, pos)[0] == WordValue(ByteOrder(order, pos), bits[pos..pos + 8])
    ensures BytesFrom(order, bits, pos)[1..] == BytesFrom(order, bits, pos + 8)
  {
    assert ByteOrder(order, pos + 8) == ByteOrder(order, pos);
    assert bits[pos..][..8] == bits[pos..pos + 8] && bits[pos..][8..] == bits[pos + 8..];
  }

  /** Bytes appended at any position are the next bytes a decoder there finds. */
  lemma WrittenIsAhead(order: BitOrder, bits: seq<bool>, pos: nat, bs: seq<Byte>, later: seq<bool>)
    requires pos <= |bits| && bits[pos..] == BytesBits(ByteOrder(order, pos), bs) + later
    ensures BytesFrom(order, bits, pos) == bs + BitsToBytes(ByteOrder(order, pos), later)
  {
    BitsToBytesConcat(ByteOrder(order, pos), BytesBits(ByteOrder(order, pos), bs), later);
    BytesOfBytesBits(ByteOrder(order, pos), bs);
  }

  method NextByte(d: D.BitStreamDecoder) returns (r: Result<Byte, Error>)
    requires d.Valid()
    modifies d
    ensures d.Valid() && (r.Ok? ==> Horizon(d) == old(Horizon(d)))
    ensures if old(Ahead(d)) == [] then r == Err(UnexpectedEof) else r == Ok(old(Ahead(d))[0]) && Ahead(d) == old(Ahead(d))[1..]
  {
    if d.Position() + 8 <= |d.AllBits()| {
      BytesFromStep(d.order, d.AllBits(), d.Position());
    }
    r := d.ReadUint8();
  }

  // ---------------------------------------------------------------- LEB128 and zigzag

  method WriteLeb(e: E.BitStreamEncoder, value: nat)
    requires e.Valid() && value < TWO_64
    modifies e
    ensures Wrote(e, old(e.Contents()), old(Layout(e)), LebBytes(value))
  {
    ghost var base, o, bs: seq<Byte> := e.Contents(), Layout(e), [];
    NothingWritten(e);
    var val := value;
    while true
      invariant Wrote(e, base, o, bs) && bs + LebBytes(val) == LebBytes(value)
      decreases val
    {
      SevenBits(val);
      var byte := And(val, 0x7F);
      ghost var before := val;
      val := Shr(val, 7);
      if val != 0 {
        Continuation(byte);
        byte := Or(byte, 0x80);
      }
      Put(e, byte, base, o, bs);
      if val == 0 {
        assert LebBytes(before) == [byte];
        break;
      }
      Regroup(bs, byte, LebBytes(val));
      bs := bs + [byte];
    }
  }

  /** The rest of a LEB128 value, above the bits already in `result`. */
  function LebOnto(result: nat, shift: nat, more: Parsed<nat>): Parsed<nat> {
    match more
    case Err(e) => Err(e)
    case Ok((v, rest)) => Ok((result + v * Pow2(shift), rest))
  }

  lemma LebOntoStep(result: nat, shift: nat, b: nat, v: nat)
    ensures result + (b + 128 * v) * Pow2(shift) == result + b * Pow2(shift) + v * Pow2(shift + 7)
  {
    SevenMore(shift);
    var p := Pow2(shift);
    assert (b + 128 * v) * p == b * p + v * (128 * p);
  }

  /** One turn of the loop, where the shift stays in range. */
  lemma LebTurn(bs: seq<Byte>, result: nat, shift: nat, word: nat)
    requires bs != [] && shift <= 57 && result < Pow2(shift)
    requires word == Or(result, ShlWord(And(bs[0], 0x7F), shift))
    ensures word < Pow2(shift + 7)
    ensures LebOnto(result, shift, LebRead(bs, shift))
         == if And(bs[0], 0x80) == 0 then Ok((word, bs[1..])) else LebOnto(word, shift + 7, LebRead(bs[1..], shift + 7))
  {
    SevenBits(bs[0]);
    TopBit(bs[0]);
    GroupLands(result, bs[0] % 128, shift);
    LebOntoTurn(bs, result, shift);
  }

  lemma LebOntoTurn(bs: seq<Byte>, result: nat, shift: nat)
    requires bs != [] && shift <= 57
    ensures LebOnto(result, shift, LebRead(bs, shift))
         == if bs[0] < 128 then Ok((result + (bs[0] % 128) * Pow2(shift), bs[1..]))
            else LebOnto(result + (bs[0] % 128) * Pow2(shift), shift + 7, LebRead(bs[1..], shift + 7))
  {
    if bs[0] >= 128 {
      LebOntoMore(result, shift, bs[0] % 128, LebRead(bs[1..], shift + 7));
    }
  }

  lemma LebOntoMore(result: nat, shift: nat, b: nat, more: Parsed<nat>)
    ensures LebOnto(result, shift, match more case Err(e) => Err(e) case Ok((v, rest)) => Ok((b + 128 * v, rest)))
         == LebOnto(result + b * Pow2(shift), shift + 7, more)
  {
    if more.Ok? {
      LebOntoStep(result, shift, b, more.value.0);
    }
  }

  method ReadLeb(d: D.BitStreamDecoder) returns (r: Result<nat, Error>)
    requires d.Valid()
    modifies d
    ensures d.Valid() && (r.Ok? ==> Horizon(d) == old(Horizon(d)))
    ensures match LebRead(old(Ahead(d)), 0)
            case Ok((v, rest)) => r == Ok(v) && Ahead(d) == rest
            case Err(e) => r == Err(e)
  {
    var result: nat, shift: nat := 0, 0;
    ghost var whole := LebRead(Ahead(d), 0);
    ghost var turns: nat := 0;
    assert Pow2(0) == 1;
    while true
      invariant d.Valid() && Horizon(d) == old(Horizon(d)) && shift == 7 * turns && turns <= 9 && result < Pow2(shift)
      invariant whole == LebOnto(result, shift, LebRead(Ahead(d), shift))
      decreases 64 - shift
    {
      ghost var bs := Ahead(d);
      var byte := NextByte(d);
      if byte.Err? {
        return Err(byte.error);
      }
      ghost var before := result;
      result := Or(result, ShlWord(And(byte.value, 0x7F), shift));
      if shift <= 57 {
        LebTurn(bs, before, shift, result);
      }
      shift, turns := shift + 7, turns + 1;
      if shift > 64 {
        return Err(InvalidEncoding);
      }
      if And(byte.value, 0x80) == 0 {
        break;
      }
    }
    r := Ok(result);
  }

  /** `(value << 1) ^ (value >> 63)` on the two's complement word. */
  lemma ZigzagWord(n: int)
    requires IsI64(n)
    ensures Xor(2 * ToU64(n) % TWO_64, if n < 0 then TWO_64 - 1 else 0) == Zigzag(n)
  {
    LargePowers();
    XorZero(2 * ToU64(n) % TWO_64);
    XorOnes(2 * ToU64(n) % TWO_64, 64);
  }

  method WriteZigzag(e: E.BitStreamEncoder, value: int)
    requires e.Valid() && IsI64(value)
    modifies e
    ensures Wrote(e, old(e.Contents()), old(Layout(e)), LebBytes(Zigzag(value)))
  {
    var shifted: nat := 2 * ToU64(value) % TWO_64;
    var sign: nat := if value < 0 then TWO_64 - 1 else 0;
    ZigzagWord(value);
    WriteLeb(e, Xor(shifted, sign));
  }

  /** `(u >> 1) ^ -(u & 1)` on `i64`. */
  lemma UnzigzagWord(u: nat)
    requires u < TWO_64
    ensures Shr(u, 1) == u / 2 && And(u, 1) == u % 2
    ensures Xor(u / 2, if u % 2 == 1 then TWO_64 - 1 else 0) < TWO_64
    ensures ToI64(Xor(u / 2, if u % 2 == 1 then TWO_64 - 1 else 0)) == Unzigzag(u)
  {
    LargePowers();
    LowAndHigh(u, 1);
    assert Pow2(1) == 2 && Mask(1) == 1;
    XorZero(u / 2);
    XorOnes(u / 2, 64);
  }

  method ReadZigzag(d: D.BitStreamDecoder) returns (r: Result<int, Error>)
    requires d.Valid()
    modifies d
    ensures d.Valid() && (r.Ok? ==> Horizon(d) == old(Horizon(d)))
    ensures match ZigzagRead(old(Ahead(d)))
            case Ok((v, rest)) => r == Ok(v) && Ahead(d) == rest
            case Err(e) => r == Err(e)
  {
    ghost var bs := Ahead(d);
    var read := ReadLeb(d);
    if read.Err? {
      return Err(read.error);
    }
    LebReadBound(bs, 0);
    LargePowers();
    var u := read.value;
    UnzigzagWord(u);
    r := Ok(ToI64(Xor(Shr(u, 1), if And(u, 1) == 1 then TWO_64 - 1 else 0)));
  }

  lemma {:induction false} LebReadBound(bs: seq<Byte>, shift: nat)
    requires shift % 7 == 0 && shift <= 63
    ensures LebRead(bs, shift).Ok? ==> LebRead(bs, shift).value.0 < Pow2(63 - shift)
    decreases |bs|
  {
    if shift < 63 && bs != [] {
      SevenMore(63 - (shift + 7));
      LebReadBound(bs[1..], shift + 7);
    }
  }

  // ---------------------------------------------------------------- signed LEB128

  method WriteSleb(e: E.BitStreamEncoder, value: int)
    requires e.Valid() && IsI64(value)
    modifies e
    ensures Wrote(e, old(e.Contents()), old(Layout(e)), SlebBytes(value))
  {
    ghost var base, o, bs: seq<Byte> := e.Contents(), Layout(e), [];
    NothingWritten(e);
    var val := value;
    while true
      invariant IsI64(val) && Wrote(e, base, o, bs) && bs + SlebBytes(val) == SlebBytes(value)
      decreases if val < 0 then -val else val
    {
      SlebGroup(val);
      var byte: Byte := And(ToU64(val), 0x7F);
      ghost var before := val;
      val := val / 128;
      var signBitSet := And(byte, 0x40) != 0;
      if (val == 0 && !signBitSet) || (val == -1 && signBitSet) {
        Put(e, byte, base, o, bs);
        assert SlebBytes(before) == [byte];
        break;
      }
      byte := Or(byte, 0x80);
      Put(e, byte, base, o, bs);
      Regroup(bs, byte, SlebBytes(val));
      bs := bs + [byte];
    }
  }

  /** The low seven bits of `v`, and whether they hold all of it with its sign. */
  lemma SlebGroup(v: int)
    requires IsI64(v)
    ensures And(ToU64(v), 0x7F) == v % 128 && Or(v % 128, 0x80) == v % 128 + 128
    ensures (v / 128 == 0 && And(v % 128, 0x40) == 0) || (v / 128 == -1 && And(v % 128, 0x40) != 0) <==> -64 <= v < 64
  {
    SevenBits(ToU64(v));
    SameRemainder(v, 0x200_0000_0000_0000);
    Continuation(v % 128);
    SignBit(v % 128);
  }

  lemma SameRemainder(v: int, k: nat)
    ensures (v + 128 * k) % 128 == v % 128
  {
  }

  method ReadSleb(d: D.BitStreamDecoder) returns (r: Result<int, Error>)
    requires d.Valid()
    modifies d
    ensures d.Valid() && (r.Ok? ==> Horizon(d) == old(Horizon(d)))
    ensures match SlebRead(old(Ahead(d)), 0, 0)
            case Ok((v, rest)) => r == Ok(v) && Ahead(d) == rest
            case Err(e) => r == Err(e)
  {
    var result: nat, shift: nat, byte: Byte := 0, 0, 0;
    LargePowers();
    while true
      invariant d.Valid() && Horizon(d) == old(Horizon(d)) && result < TWO_64 && shift <= 70
      invariant SlebRead(old(Ahead(d)), 0, 0) == SlebRead(Ahead(d), result, shift)
      decreases 77 - shift
    {
      var read := NextByte(d);
      if read.Err? {
        return Err(read.error);
      }
      byte := read.value;
      SevenBits(byte);
      TopBit(byte);
      OrBound(result, ShlWord(byte % 128, shift), 64);
      result := Or(result, ShlWord(And(byte, 0x7F), shift));
      shift := shift + 7;
      if And(byte, 0x80) == 0 {
        break;
      }
      if shift > 70 {
        return Err(InvalidEncoding);
      }
    }
    SignBit(byte);
    r := Ok(ToI64(SignExtended(result, shift, byte)));
  }

  // ---------------------------------------------------------------- DER, EBML

  /** The writers' loop from the most significant byte: `(value >> (i * 8)) as u8`. */
  method PutBigEndian(e: E.BitStreamEncoder, value: nat, k: nat, ghost base: seq<bool>, ghost o: BitOrder, ghost bs: seq<Byte>)
    requires Wrote(e, base, o, bs)
    modifies e
    ensures Wrote(e, base, o, bs + WordBytes(value, k, BigEndian))
  {
    ghost var all := WordBytes(value, k, BigEndian);
    var i := k;
    assert bs + all[..0] == bs;
    while i > 0
      invariant 0 <= i <= k && Wrote(e, base, o, bs + all[..k - i])
    {
      i := i - 1;
      Put(e, ByteOf(value, i), base, o, bs + all[..k - i - 1]);
      PrefixGrows(bs, all, k - i - 1);
    }
    assert all[..k] == all;
  }

  method CountBytes(value: nat) returns (numBytes: nat)
    ensures numBytes == ByteLength(value)
  {
    var temp := value;
    numBytes := 0;
    while temp > 0
      invariant numBytes + ByteLength(temp) == ByteLength(value)
    {
      numBytes := numBytes + 1;
      LowAndHigh(temp, 8);
      assert Pow2(8) == 256;
      temp := Shr(temp, 8);
    }
  }

  method LengthByte(numBytes: nat) returns (b: Byte)
    requires numBytes < 128
    ensures b == 128 + numBytes
  {
    Continuation(numBytes);
    OrCommutes(0x80, numBytes);
    b := Or(0x80, numBytes);
  }

  method WriteDer(e: E.BitStreamEncoder, value: nat)
    requires e.Valid() && value < TWO_64
    modifies e
    ensures Wrote(e, old(e.Contents()), old(Layout(e)), DerBytes(value))
  {
    ghost var base, o := e.Contents(), Layout(e);
    NothingWritten(e);
    if value < 128 {
      Put(e, value, base, o, []);
    } else {
      WriteLongForm(e, value);
    }
  }

  method WriteLongForm(e: E.BitStreamEncoder, value: nat)
    requires e.Valid() && 128 <= value < TWO_64
    modifies e
    ensures Wrote(e, old(e.Contents()), old(Layout(e)), DerBytes(value))
  {
    ghost var base, o := e.Contents(), Layout(e);
    NothingWritten(e);
    var numBytes := CountBytes(value);
    ByteLengthOfWord(value);
    var head := LengthByte(numBytes);
    Put(e, head, base, o, []);
    PutBigEndian(e, value, numBytes, base, o, [head]);
  }

  /** The readers' loop over whole bytes: `(value << 8) | byte`. */
  method ReadBigEndian(d: D.BitStreamDecoder, start: Byte, k: nat) returns (r: Result<nat, Error>)
    requires d.Valid() && k <= 8 && (start == 0 || k < 8)
    modifies d
    ensures d.Valid() && (r.Ok? ==> Horizon(d) == old(Horizon(d)))
    ensures if k <= |old(Ahead(d))|
            then r == Ok(BytesValue([start] + old(Ahead(d))[..k], BigEndian)) && Ahead(d) == old(Ahead(d))[k..]
            else r == Err(UnexpectedEof)
  {
    ghost var bs := Ahead(d);
    var value: nat := start;
    OneByteValue(start);
    assert [start] + bs[..0] == [start];
    for i := 0 to k
      invariant d.Valid() && Horizon(d) == old(Horizon(d)) && i <= |bs| && Ahead(d) == bs[i..]
      invariant value == BytesValue([start] + bs[..i], BigEndian)
    {
      var byte := NextByte(d);
      if byte.Err? {
        return Err(byte.error);
      }
      BigEndianStep([start] + bs[..i], byte.value);
      assert [start] + bs[..i] + [byte.value] == [start] + bs[..i + 1];
      value := Or(Shl(value, 8), byte.value);
    }
    r := Ok(value);
  }

  lemma BigEndianStep(bs: seq<Byte>, b: Byte)
    ensures Or(Shl(BytesValue(bs, BigEndian), 8), b) == BytesValue(bs + [b], BigEndian)
  {
    assert (bs + [b])[..|bs|] == bs;
    HighOrLow(BytesValue(bs, BigEndian), b, 8);
    assert Pow2(8) == 256;
  }

  lemma LeadingZeroByte(bs: seq<Byte>)
    ensures BytesValue([0] + bs, BigEndian) == BytesValue(bs, BigEndian)
  {
    FirstByteWeighs(0, bs);
  }

  method ReadDer(d: D.BitStreamDecoder) returns (r: Result<nat, Error>)
    requires d.Valid()
    modifies d
    ensures d.Valid() && (r.Ok? ==> Horizon(d) == old(Horizon(d)))
    ensures match DerRead(old(Ahead(d)))
            case Ok((v, rest)) => r == Ok(v) && Ahead(d) == rest
            case Err(e) => r == Err(e)
  {
    var first := NextByte(d);
    if first.Err? {
      return Err(first.error);
    }
    if first.value < 128 {
      return Ok(first.value);
    }
    r := ReadLongForm(d, first.value);
  }

  method LengthOfLength(first: Byte) returns (numBytes: nat)
    requires first >= 128
    ensures numBytes == first - 128
  {
    SevenBits(first);
    numBytes := And(first, 0x7F);
  }

  method ReadLongForm(d: D.BitStreamDecoder, first: Byte) returns (r: Result<nat, Error>)
    requires d.Valid() && first >= 128
    modifies d
    ensures d.Valid() && (r.Ok? ==> Horizon(d) == old(Horizon(d)))
    ensures match DerLongForm(first - 128, old(Ahead(d)))
            case Ok((v, rest)) => r == Ok(v) && Ahead(d) == rest
            case Err(e) => r == Err(e)
  {
    var numBytes := LengthOfLength(first);
    if numBytes > 8 {
      return Err(InvalidEncoding);
    }
    if numBytes <= |Ahead(d)| {
      LeadingZeroByte(Ahead(d)[..numBytes]);
    }
    r := ReadBigEndian(d, 0, numBytes);
  }

  method WriteEbml(e: E.BitStreamEncoder, value: nat) returns (r: Result<(), Error>)
    requires e.Valid() && value < TWO_64
    modifies e
    ensures match EbmlBytes(value)
            case Ok(bs) => r == Ok(()) && Wrote(e, old(e.Contents()), old(Layout(e)), bs)
            case Err(err) => r == Err(err) && e.Valid() && e.Contents() == old(e.Contents())
  {
    var width, maxVal := ChooseWidth(value);
    if value > maxVal {
      return Err(InvalidEncoding);
    }
    WriteMarked(e, value, width);
    r := Ok(());
  }

  method WriteMarked(e: E.BitStreamEncoder, value: nat, width: nat)
    requires e.Valid() && value < Pow2(7 * width)
    modifies e
    ensures Wrote(e, old(e.Contents()), old(Layout(e)), WordBytes(Pow2(7 * width) + value, width, BigEndian))
  {
    ghost var base, o := e.Contents(), Layout(e);
    NothingWritten(e);
    var encoded := SetMarker(value, width);
    PutBigEndian(e, encoded, width, base, o, []);
    assert [] + WordBytes(encoded, width, BigEndian) == WordBytes(encoded, width, BigEndian);
  }

  method SetMarker(value: nat, width: nat) returns (encoded: nat)
    requires value < Pow2(7 * width)
    ensures encoded == Pow2(7 * width) + value
  {
    var markerBit := Shl(1, width * 7);
    encoded := Or(markerBit, value);
    HighOrLow(1, value, 7 * width);
  }

  method ChooseWidth(value: nat) returns (width: nat, maxVal: int)
    ensures 1 <= width <= 8 && maxVal == Pow2(7 * width) - 2
    ensures if value > maxVal then Groups(value + 1) > 8 else width == Groups(value + 1)
  {
    width := 1;
    maxVal := EbmlMax(width);
    EbmlMaxIsPower(width, value);
    while value > maxVal && width < 8
      invariant 1 <= width <= 8 && maxVal == EbmlMax(width) == Pow2(7 * width) - 2
      invariant value <= maxVal <==> Groups(value + 1) <= width
      invariant width <= Groups(value + 1)
      decreases 8 - width
    {
      width := width + 1;
      maxVal := EbmlMax(width);
      EbmlMaxIsPower(width, value);
    }
  }

  /** The largest value of a width: `(1 << (width * 7)) - 2`. */
  function EbmlMax(width: nat): int {
    Shl(1, 7 * width) - 2
  }

  lemma EbmlMaxIsPower(width: nat, value: nat)
    requires width >= 1
    ensures EbmlMax(width) == Pow2(7 * width) - 2
    ensures value <= EbmlMax(width) <==> Groups(value + 1) <= width
  {
    ShlIsMul(1, 7 * width);
    GroupsExactly(value + 1, width);
  }

  /** An EBML integer from its first byte, stripped of the marker, and the bytes after it. */
  lemma {:induction false} EbmlForm(first: Byte, rest: seq<Byte>, w: nat, start: nat)
    requires w == AnnouncedWidth(first) <= 8 && start == And(first, Pow2(8 - w) - 1)
    ensures start <= first
    ensures EbmlRead([first] + rest) == if w - 1 <= |rest|
                                        then Ok((BytesValue([start] + rest[..w - 1], BigEndian), rest[w - 1..]))
                                        else Err(UnexpectedEof)
  {
    StrippedMarker(first, 8 - w);
    var bs := [first] + rest;
    if w <= |bs| {
      assert rest[..w - 1] == bs[1..w] && rest[w - 1..] == bs[w..];
    }
  }

  method ReadEbml(d: D.BitStreamDecoder) returns (r: Result<nat, Error>)
    requires d.Valid()
    modifies d
    ensures d.Valid() && (r.Ok? ==> Horizon(d) == old(Horizon(d)))
    ensures match EbmlRead(old(Ahead(d)))
            case Ok((v, rest)) => r == Ok(v) && Ahead(d) == rest
            case Err(e) => r == Err(e)
  {
    ghost var bs := Ahead(d);
    var firstRead := NextByte(d);
    if firstRead.Err? {
      return Err(firstRead.error);
    }
    assert bs == [firstRead.value] + Ahead(d);
    r := ReadMarked(d, firstRead.value);
  }

  /** The rest of an EBML integer after its first byte. */
  method ReadMarked(d: D.BitStreamDecoder, first: Byte) returns (r: Result<nat, Error>)
    requires d.Valid()
    modifies d
    ensures d.Valid() && (r.Ok? ==> Horizon(d) == old(Horizon(d)))
    ensures match EbmlRead([first] + old(Ahead(d)))
            case Ok((v, rest)) => r == Ok(v) && Ahead(d) == rest
            case Err(e) => r == Err(e)
  {
    var width, mask := FindMarker(first);
    var start := And(first, mask - 1);
    EbmlForm(first, Ahead(d), width, start);
    r := ReadBigEndian(d, start, width - 1);
  }

  method FindMarker(first: Byte) returns (width: nat, mask: nat)
    ensures width == AnnouncedWidth(first) <= 8 && mask == Pow2(8 - width)
  {
    width, mask := 1, 0x80;
    assert Pow2(7) == 0x80 && Pow2(8) == 256;
    MarkerTest(first, 7);
    while And(first, mask) == 0 && width < 8
      invariant 1 <= width <= 8 && mask == Pow2(8 - width) && first < 2 * mask
      invariant And(first, mask) == 0 <==> first < mask
    {
      width := width + 1;
      HalfPower(8 - width);
      mask := Shr(mask, 1);
      MarkerTest(first, 8 - width);
    }
    if first >= mask {
      AnnouncedExactly(first, width);
    }
  }

  lemma StrippedMarker(first: nat, k: nat)
    ensures And(first, Pow2(k) - 1) == first % Pow2(k) <= first
  {
    ShlIsMul(1, k);
    LowAndHigh(first, k);
    MaskBound(first, k);
  }

  lemma HalfPower(k: nat)
    ensures Shr(Pow2(k + 1), 1) == Pow2(k)
  {
    assert Pow2(k + 1) == 2 * Pow2(k);
  }

  lemma MarkerTest(first: nat, k: nat)
    requires first < 2 * Pow2(k)
    ensures And(first, Pow2(k)) == 0 <==> first < Pow2(k)
  {
    AndOneBit(first, k);
    ShrBits(first, k, 0);
    LowAndHigh(first, k);
    if first >= Pow2(k) {
      RemainderAbove(first, Pow2(k));
    }
  }

  // ---------------------------------------------------------------- VLQ

  /** Groups of seven bits, least significant first. */
  method CollectGroups(value: nat) returns (bytes: seq<Byte>)
    ensures Reversed(bytes) == VlqHigh(value / 128) + [value % 128]
  {
    SevenBits(value);
    bytes := [And(value, 0x7F)];
    var remaining := Shr(value, 7);
    assert Reversed(bytes) == [value % 128];
    while remaining > 0
      invariant VlqHigh(value / 128) + [value % 128] == VlqHigh(remaining) + Reversed(bytes)
    {
      SevenBits(remaining);
      Continuation(remaining % 128);
      var next: Byte := Or(And(remaining, 0x7F), 0x80);
      ReversedStep(bytes, next);
      Regroup(VlqHigh(remaining / 128), next, Reversed(bytes));
      bytes := bytes + [next];
      remaining := Shr(remaining, 7);
    }
  }

  method WriteVlq(e: E.BitStreamEncoder, value: nat) returns (r: Result<(), Error>)
    requires e.Valid() && value < TWO_64
    modifies e
    ensures match VlqBytes(value)
            case Ok(bs) => r == Ok(()) && Wrote(e, old(e.Contents()), old(Layout(e)), bs)
            case Err(err) => r == Err(err) && e.Valid() && e.Contents() == old(e.Contents())
  {
    if value > VLQ_MAX {
      return Err(InvalidEncoding);
    }
    ghost var base, o := e.Contents(), Layout(e);
    NothingWritten(e);
    var bytes := CollectGroups(value);
    PutReversed(e, bytes, base, o);
    r := Ok(());
  }

  method PutReversed(e: E.BitStreamEncoder, bytes: seq<Byte>, ghost base: seq<bool>, ghost o: BitOrder)
    requires Wrote(e, base, o, [])
    modifies e
    ensures Wrote(e, base, o, Reversed(bytes))
  {
    var i := |bytes|;
    ghost var done: seq<Byte> := [];
    assert bytes[..i] == bytes;
    while i > 0
      invariant 0 <= i <= |bytes| && Wrote(e, base, o, done)
      invariant done + Reversed(bytes[..i]) == Reversed(bytes)
    {
      i := i - 1;
      Put(e, bytes[i], base, o, done);
      ReversedStep(bytes[..i], bytes[i]);
      assert bytes[..i + 1] == bytes[..i] + [bytes[i]];
      Regroup(done, bytes[i], Reversed(bytes[..i]));
      done := done + [bytes[i]];
    }
    assert bytes[..i] == [] && done == Reversed(bytes);
  }

  function Reversed(bs: seq<Byte>): seq<Byte> {
    if bs == [] then [] else [bs[|bs| - 1]] + Reversed(bs[..|bs| - 1])
  }

  lemma ReversedStep(bs: seq<Byte>, b: Byte)
    ensures Reversed(bs + [b]) == [b] + Reversed(bs)
  {
    assert (bs + [b])[..|bs|] == bs;
  }

  lemma VlqTurn(result: nat, b: Byte)
    ensures Or(Shl(result, 7), And(b, 0x7F)) == result * 128 + b % 128
    ensures And(b, 0x80) == 0 <==> b < 128
  {
    SevenBits(b);
    TopBit(b);
    assert Pow2(7) == 128;
    HighOrLow(result, b % 128, 7);
  }

  method ReadVlq(d: D.BitStreamDecoder) returns (r: Result<nat, Error>)
    requires d.Valid()
    modifies d
    ensures d.Valid() && (r.Ok? ==> Horizon(d) == old(Horizon(d)))
    ensures match VlqRead(old(Ahead(d)), 0, 0)
            case Ok((v, rest)) => r == Ok(v) && Ahead(d) == rest
            case Err(e) => r == Err(e)
  {
    var result: nat, bytesRead: nat := 0, 0;
    while true
      invariant d.Valid() && Horizon(d) == old(Horizon(d)) && bytesRead <= 4
      invariant VlqRead(old(Ahead(d)), 0, 0) == VlqRead(Ahead(d), result, bytesRead)
      decreases 4 - bytesRead
    {
      if bytesRead >= 4 {
        return Err(InvalidEncoding);
      }
      var read := NextByte(d);
      if read.Err? {
        return Err(read.error);
      }
      bytesRead := bytesRead + 1;
      VlqTurn(result, read.value);
      result := Or(Shl(result, 7), And(read.value, 0x7F));
      if And(read.value, 0x80) == 0 {
        break;
      }
    }
    r := Ok(result);
  }
}
