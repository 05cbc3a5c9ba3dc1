/** The six variable-length integer encodings, on bytes
    (crates/binschema-runtime/src/bitstream.rs:346-477, 907-1055).

    Writers are functions from a value to bytes, stated with division and
    remainder; readers take the bytes ahead and return a value with the bytes left
    over, or the reader's error.  `VarLengthIo` runs them over the bit stream with
    the program's masks and shifts. */
module VarLength {
  import opened Wrappers
  import opened Bits
  import opened BitStream

  type Parsed<T> = Result<(T, seq<Byte>), Error>

  const TWO_56: int := 0x100_0000_0000_0000
  const TWO_62: int := 0x4000_0000_0000_0000
  const TWO_63: int := 0x8000_0000_0000_0000
  const TWO_64: int := 0x1_0000_0000_0000_0000

  lemma LargePowers()
    ensures Pow2(56) == TWO_56 && Pow2(63) == TWO_63 && Pow2(64) == TWO_64
  {
    assert Pow2(14) == 0x4000;
    Pow2Add(14, 14);
    Pow2Add(28, 28);
    Pow2Add(56, 7);
    Pow2Add(63, 1);
  }

  lemma PowerBound(n: nat)
    requires n <= 64
    ensures Pow2(n) <= TWO_64
    ensures n <= 63 ==> Pow2(n) <= TWO_63
    ensures n <= 56 ==> Pow2(n) <= TWO_56
  {
    LargePowers();
    Pow2Monotone(n, if n <= 56 then 56 else if n <= 63 then 63 else 64);
  }

  lemma PowerComplement(n: nat)
    requires n <= 64
    ensures Pow2(64 - n) * Pow2(n) == TWO_64
  {
    LargePowers();
    Pow2Add(64 - n, n);
  }

  lemma OrWord(a: nat, b: nat)
    requires a < TWO_64 && b < TWO_64
    ensures Or(a, b) < TWO_64
  {
    LargePowers();
    OrBound(a, b, 64);
  }

  // ---------------------------------------------------------------- LEB128

  function LebBytes(v: nat): seq<Byte> {
    if v < 128 then [v] else [v % 128 + 128] + LebBytes(v / 128)
  }

  /** The reader gives up on the byte that takes `shift` past 64, whatever it holds. */
  function LebRead(bs: seq<Byte>, shift: nat): Parsed<nat>
    decreases |bs|
  {
    if bs == [] then Err(UnexpectedEof)
    else if shift + 7 > 64 then Err(InvalidEncoding)
    else if bs[0] < 128 then Ok((bs[0], bs[1..]))
    else
      match LebRead(bs[1..], shift + 7)
      case Err(e) => Err(e)
      case Ok((v, rest)) => Ok((bs[0] % 128 + 128 * v, rest))
  }

  lemma {:induction false} LebReadsFrom(v: nat, i: nat, rest: seq<Byte>)
    requires i <= 9
    ensures LebRead(LebBytes(v) + rest, 7 * i)
         == if v < Pow2(7 * (9 - i)) && i < 9 then Ok((v, rest)) else Err(InvalidEncoding)
    decreases v
  {
    if i < 9 {
      SevenMore(7 * (8 - i));
      assert 7 * (9 - i) == 7 * (8 - i) + 7;
      if v < 128 {
        assert (LebBytes(v) + rest)[1..] == rest;
      } else {
        assert LebBytes(v) + rest == [v % 128 + 128] + (LebBytes(v / 128) + rest);
        LebReadsFrom(v / 128, i + 1, rest);
      }
    }
  }

  /** Values below 2^63 read back; every larger `u64` is written in ten bytes and refused. */
  lemma LebRoundTrip(v: nat, rest: seq<Byte>)
    requires v < TWO_64
    ensures LebRead(LebBytes(v) + rest, 0) == if v < TWO_63 then Ok((v, rest)) else Err(InvalidEncoding)
  {
    LargePowers();
    LebReadsFrom(v, 0, rest);
  }

  // ---------------------------------------------------------------- zigzag

  predicate IsI64(n: int) {
    -TWO_63 <= n < TWO_63
  }

  /** Two's complement, and back. */
  function ToU64(n: int): (u: nat)
    requires IsI64(n)
    ensures u < TWO_64
  {
    if n < 0 then n + TWO_64 else n
  }

  function ToI64(u: nat): (n: int)
    requires u < TWO_64
    ensures IsI64(n) && ToU64(n) == u
  {
    if u < TWO_63 then u else u - TWO_64
  }

  function Zigzag(n: int): (u: nat)
    requires IsI64(n)
    ensures u < TWO_64
  {
    if n < 0 then -2 * n - 1 else 2 * n
  }

  function Unzigzag(u: nat): int {
    if u % 2 == 0 then u / 2 else -(u / 2) - 1
  }

  function ZigzagRead(bs: seq<Byte>): Parsed<int> {
    match LebRead(bs, 0)
    case Err(e) => Err(e)
    case Ok((u, rest)) => Ok((Unzigzag(u), rest))
  }

  lemma ZigzagRoundTrip(n: int, rest: seq<Byte>)
    requires IsI64(n)
    ensures Unzigzag(Zigzag(n)) == n
    ensures ZigzagRead(LebBytes(Zigzag(n)) + rest)
         == if -TWO_62 <= n < TWO_62 then Ok((n, rest)) else Err(InvalidEncoding)
  {
    LebRoundTrip(Zigzag(n), rest);
  }

  // ---------------------------------------------------------------- signed LEB128

  function SlebBytes(v: int): seq<Byte>
    decreases if v < 0 then -v else v
  {
    if -64 <= v < 64 then [v % 128] else [v % 128 + 128] + SlebBytes(v / 128)
  }

  /** `v << shift` on `u64`; the shift distance wraps at 64 as in a release build. */
  function ShlWord(v: nat, shift: nat): (r: nat)
    ensures r < TWO_64
  {
    Shl(v, shift % 64) % TWO_64
  }

  /** The reader's loop: `result` holds the bits read so far, as a two's complement word. */
  function SlebRead(bs: seq<Byte>, result: nat, shift: nat): Parsed<int>
    requires result < TWO_64
    decreases |bs|
  {
    if bs == [] then Err(UnexpectedEof)
    else
      OrWord(result, ShlWord(bs[0] % 128, shift));
      var word := Or(result, ShlWord(bs[0] % 128, shift));
      if bs[0] < 128 then Ok((ToI64(SignExtended(word, shift + 7, bs[0])), bs[1..]))
      else if shift + 7 > 70 then Err(InvalidEncoding)
      else SlebRead(bs[1..], word, shift + 7)
  }

  /** Fill with ones above `shift` when the last byte has its sign bit set. */
  function SignExtended(word: nat, shift: nat, last: Byte): (r: nat)
    requires word < TWO_64
    ensures r < TWO_64
  {
    if shift < 64 && (last / 64) % 2 == 1 then
      PowerBound(shift);
      OrWord(word, TWO_64 - Pow2(shift));
      Or(word, TWO_64 - Pow2(shift))
    else word
  }

  lemma ShiftedBound(b: nat, shift: nat)
    requires b < 128 && shift + 7 <= 64
    ensures Shl(b, shift) < TWO_64
  {
    SevenMore(shift);
    PowerBound(shift + 7);
    ShlIsMul(b, shift);
    GroupFits(0, b, Pow2(shift));
  }

  lemma NothingShiftedOut(b: nat, shift: nat)
    requires b < 128 && shift + 7 <= 64
    ensures ShlWord(b, shift) == Shl(b, shift)
  {
    ShiftedBound(b, shift);
    SmallRemainder(shift, 64);
    SmallRemainder(Shl(b, shift), TWO_64);
  }

  /** A group of seven bits lands above the bits read before it. */
  lemma GroupLands(acc: nat, b: nat, shift: nat)
    requires acc < Pow2(shift) && b < 128 && shift + 7 <= 64
    ensures Pow2(shift + 7) == 128 * Pow2(shift)
    ensures Or(acc, ShlWord(b, shift)) == acc + b * Pow2(shift) < Pow2(shift + 7)
  {
    NothingShiftedOut(b, shift);
    SevenMore(shift);
    OrIsAdd(acc, b, shift);
    ShlIsMul(b, shift);
    GroupFits(acc, b, Pow2(shift));
  }

  lemma GroupFits(acc: nat, b: nat, p: nat)
    requires acc < p && b < 128
    ensures 0 <= acc + b * p < 128 * p
  {
    assert (b + 1) * p <= 128 * p;
  }

  lemma SignFills(word: nat, shift: nat)
    requires shift < 64 && word < Pow2(shift)
    ensures Pow2(shift) <= TWO_64 && Or(word, TWO_64 - Pow2(shift)) == word + TWO_64 - Pow2(shift)
  {
    PowerBound(shift);
    PowerComplement(shift);
    OnesAbove(Pow2(64 - shift), shift);
    OrIsAdd(word, Pow2(64 - shift) - 1, shift);
  }

  lemma OnesAbove(high: nat, shift: nat)
    requires high >= 1
    ensures Shl(high - 1, shift) == high * Pow2(shift) - Pow2(shift)
  {
    ShlIsMul(high - 1, shift);
  }

  lemma SlebReadLast(b: Byte, rest: seq<Byte>, acc: nat, shift: nat)
    requires b < 128 && acc < TWO_64 && Or(acc, ShlWord(b, shift)) < TWO_64
    ensures SlebRead([b] + rest, acc, shift)
         == Ok((ToI64(SignExtended(Or(acc, ShlWord(b, shift)), shift + 7, b)), rest))
  {
    assert ([b] + rest)[1..] == rest;
  }

  lemma {:induction false} SlebReadOn(bs: seq<Byte>, acc: nat, shift: nat, word: nat)
    requires bs != [] && bs[0] >= 128 && acc < TWO_64 && shift + 7 <= 70
    requires word == Or(acc, ShlWord(bs[0] % 128, shift)) && word < TWO_64
    ensures SlebRead(bs, acc, shift) == SlebRead(bs[1..], word, shift + 7)
  {
  }

  lemma {:induction false} SlebReadMore(b: Byte, rest: seq<Byte>, acc: nat, shift: nat)
    requires b >= 128 && acc < TWO_64 && Or(acc, ShlWord(b - 128, shift)) < TWO_64 && shift + 7 <= 70
    ensures SlebRead([b] + rest, acc, shift) == SlebRead(rest, Or(acc, ShlWord(b - 128, shift)), shift + 7)
  {
    var bs := [b] + rest;
    assert bs[1..] == rest && bs[0] % 128 == b - 128;
    SlebReadOn(bs, acc, shift, Or(acc, ShlWord(b - 128, shift)));
  }

  lemma SlebLastGroup(v: int, acc: nat, i: nat, rest: seq<Byte>)
    requires i < 9 && acc < Pow2(7 * i) && -64 <= v < 64 && acc < TWO_64
    ensures SlebRead([v % 128] + rest, acc, 7 * i) == Ok((acc + v * Pow2(7 * i), rest))
  {
    var b: Byte := v % 128;
    GroupLands(acc, b, 7 * i);
    PowerBound(7 * i + 7);
    SlebReadLast(b, rest, acc, 7 * i);
    ExtendedValue(v, acc, 7 * i);
  }

  lemma ExtendedValue(v: int, acc: nat, shift: nat)
    requires shift + 7 < 64 && -64 <= v < 64 && acc < Pow2(shift)
    requires Pow2(shift + 7) == 128 * Pow2(shift) && acc + (v % 128) * Pow2(shift) < Pow2(shift + 7) <= TWO_63
    ensures ToI64(SignExtended(acc + (v % 128) * Pow2(shift), shift + 7, v % 128)) == acc + v * Pow2(shift)
  {
    SignedGroup(v, acc, Pow2(shift));
    ExtendedGroup(acc + (v % 128) * Pow2(shift), shift + 7, v % 128, acc + v * Pow2(shift));
  }

  /** A group word becomes the signed value it stands for. */
  lemma ExtendedGroup(word: nat, shift: nat, last: Byte, value: int)
    requires shift < 64 && last < 128 && word < Pow2(shift) <= TWO_63
    requires value == if last >= 64 then word - Pow2(shift) else word
    ensures ToI64(SignExtended(word, shift, last)) == value
  {
    SignFills(word, shift);
  }

  lemma SignedGroup(v: int, acc: nat, p: nat)
    requires acc < p && -64 <= v < 64
    ensures if v < 0 then acc + (v % 128) * p - 128 * p == acc + v * p else acc + v * p < 64 * p
  {
    if v < 0 {
      assert v % 128 == v + 128;
    } else {
      assert (v + 1) * p <= 64 * p;
    }
  }

  /** The tenth byte holds the sign alone. */
  lemma SlebTenthByte(v: int, acc: nat, i: nat, rest: seq<Byte>)
    requires i == 9 && acc < Pow2(7 * i) && (v == 0 || v == -1)
    ensures acc < TWO_64 && SlebRead([v % 128] + rest, acc, 7 * i) == Ok((acc + v * Pow2(7 * i), rest))
  {
    LargePowers();
    assert 7 * i == 63;
    TopBitLands(acc, v % 128);
    SlebReadLast(v % 128, rest, acc, 63);
  }

  lemma TopBitLands(acc: nat, b: Byte)
    requires acc < TWO_63 && (b == 0 || b == 127)
    ensures Or(acc, ShlWord(b, 63)) == if b == 0 then acc else acc + TWO_63
  {
    LargePowers();
    ShlIsMul(b, 63);
    if b == 0 {
      OrZero(acc);
    } else {
      assert 127 * TWO_63 == 63 * TWO_64 + TWO_63;
      ShlIsMul(1, 63);
      OrIsAdd(acc, 1, 63);
    }
  }

  /** `v` in two's complement with `n` bits below the sign. */
  predicate FitsBelow(v: int, n: nat) {
    0 - Pow2(n) <= v < Pow2(n)
  }

  lemma QuotientFits(v: int, n: nat)
    requires FitsBelow(v, n + 7)
    ensures FitsBelow(v / 128, n)
  {
    SevenMore(n);
  }

  lemma {:induction false} SlebReadsFrom(v: int, acc: nat, i: nat, rest: seq<Byte>)
    requires i <= 9 && acc < Pow2(7 * i) && acc < TWO_64
    requires FitsBelow(v, 63 - 7 * i)
    ensures SlebRead(SlebBytes(v) + rest, acc, 7 * i) == Ok((acc + v * Pow2(7 * i), rest))
    decreases 9 - i
  {
    if i == 9 {
      SlebTenthByte(v, acc, i, rest);
    } else if -64 <= v < 64 {
      SlebLastGroup(v, acc, i, rest);
    } else {
      SlebTurnFits(v, acc, i);
      QuotientFits(v, 63 - 7 * (i + 1));
      SlebTurn(v, acc, i, rest);
      SlebReadsFrom(v / 128, acc + (v % 128) * Pow2(7 * i), i + 1, rest);
      GroupsAddUp(v, acc, i);
    }
  }

  lemma SlebTurnFits(v: int, acc: nat, i: nat)
    requires i < 9 && acc < Pow2(7 * i)
    ensures 0 <= acc + (v % 128) * Pow2(7 * i) < Pow2(7 * (i + 1)) <= TWO_63
  {
    SevenMore(7 * i);
    GroupFits(acc, v % 128, Pow2(7 * i));
    PowerBound(7 * (i + 1));
  }

  lemma SlebTurn(v: int, acc: nat, i: nat, rest: seq<Byte>)
    requires i < 9 && acc < Pow2(7 * i) && acc < TWO_64 && !(-64 <= v < 64)
    requires 0 <= acc + (v % 128) * Pow2(7 * i) < TWO_64
    ensures SlebRead(SlebBytes(v) + rest, acc, 7 * i)
         == SlebRead(SlebBytes(v / 128) + rest, acc + (v % 128) * Pow2(7 * i), 7 * (i + 1))
  {
    var b: Byte, tail := v % 128 + 128, SlebBytes(v / 128) + rest;
    assert SlebBytes(v) + rest == [b] + tail;
    GroupLands(acc, v % 128, 7 * i);
    SlebReadMore(b, tail, acc, 7 * i);
  }

  lemma GroupsAddUp(v: int, acc: nat, i: nat)
    ensures acc + (v % 128) * Pow2(7 * i) + (v / 128) * Pow2(7 * (i + 1)) == acc + v * Pow2(7 * i)
  {
    SevenMore(7 * i);
    assert v == v % 128 + 128 * (v / 128);
  }

  /** Every `i64` reads back. */
  lemma SlebRoundTrip(v: int, rest: seq<Byte>)
    requires IsI64(v)
    ensures SlebRead(SlebBytes(v) + rest, 0, 0) == Ok((v, rest))
  {
    LargePowers();
    SlebReadsFrom(v, 0, 0, rest);
  }

  // ---------------------------------------------------------------- DER lengths

  /** The fewest bytes that hold `v`. */
  function ByteLength(v: nat): (k: nat)
    ensures v < Pow2(8 * k)
    ensures v > 0 ==> k > 0 && Pow2(8 * (k - 1)) <= v
  {
    if v == 0 then 0
    else
      var rest := ByteLength(v / 256);
      Pow2Add(8 * rest, 8);
      assert Pow2(8) == 256;
      assert rest > 0 ==> Pow2(8 * rest) == 256 * Pow2(8 * (rest - 1)) by {
        if rest > 0 { Pow2Add(8 * (rest - 1), 8); }
      }
      1 + rest
  }

  lemma ByteLengthOfWord(v: nat)
    requires v < TWO_64
    ensures ByteLength(v) <= 8
  {
    LargePowers();
    if ByteLength(v) > 8 {
      Pow2Monotone(64, 8 * (ByteLength(v) - 1));
    }
  }

  function DerBytes(v: nat): seq<Byte>
    requires v < TWO_64
  {
    ByteLengthOfWord(v);
    if v < 128 then [v] else [128 + ByteLength(v)] + WordBytes(v, ByteLength(v), BigEndian)
  }

  function DerRead(bs: seq<Byte>): Parsed<nat> {
    if bs == [] then Err(UnexpectedEof)
    else if bs[0] < 128 then Ok((bs[0], bs[1..]))
    else DerLongForm(bs[0] - 128, bs[1..])
  }

  function DerLongForm(n: nat, tail: seq<Byte>): Parsed<nat> {
    if n > 8 then Err(InvalidEncoding)
    else if n > |tail| then Err(UnexpectedEof)
    else Ok((BytesValue(tail[..n], BigEndian), tail[n..]))
  }

  /** Every `u64` reads back. */
  lemma DerRoundTrip(v: nat, rest: seq<Byte>)
    requires v < TWO_64
    ensures DerRead(DerBytes(v) + rest) == Ok((v, rest))
  {
    var bs := DerBytes(v) + rest;
    if v < 128 {
      assert bs[1..] == rest;
    } else {
      var k := ByteLength(v);
      ByteLengthOfWord(v);
      BytesRoundTrip(v, k, BigEndian);
      assert bs[1..] == WordBytes(v, k, BigEndian) + rest;
    }
  }

  // ---------------------------------------------------------------- EBML

  /** How many groups of seven bits `x` takes. */
  function Groups(x: nat): (k: nat)
    ensures k >= 1
  {
    if x < 128 then 1 else 1 + Groups(x / 128)
  }

  /** One value per width is reserved, so `v` takes the width of `v + 1`. */
  function EbmlBytes(v: nat): Result<seq<Byte>, Error> {
    var w := Groups(v + 1);
    if w > 8 then Err(InvalidEncoding) else Ok(WordBytes(Pow2(7 * w) + v, w, BigEndian))
  }

  lemma {:induction false} GroupsExactly(x: nat, w: nat)
    requires w >= 1
    ensures Groups(x) <= w <==> x < Pow2(7 * w)
    decreases w
  {
    SevenMore(7 * (w - 1));
    assert 7 * (w - 1) + 7 == 7 * w;
    if w == 1 {
      assert Pow2(7 * (w - 1)) == 1;
    } else {
      GroupsExactly(x / 128, w - 1);
    }
  }

  /** The width announced by the leading zeros of the first byte; a byte of zeros announces eight. */
  function AnnouncedWidth(first: Byte): (w: nat)
    ensures 1 <= w
    decreases 256 - first
  {
    if first >= 128 then 1 else if first == 0 then 8 else 1 + AnnouncedWidth(2 * first)
  }

  function WithoutMarker(first: Byte, w: nat): Byte
    requires w <= 8
  {
    RemainderAtMost(first, Pow2(8 - w));
    first % Pow2(8 - w)
  }

  lemma RemainderAtMost(x: nat, m: nat)
    requires m > 0
    ensures x % m <= x
  {
  }

  /** The first byte without its marker, then the bytes that follow. */
  function EbmlRead(bs: seq<Byte>): Parsed<nat> {
    if bs == [] then Err(UnexpectedEof)
    else
      var w := AnnouncedWidth(bs[0]);
      AnnouncedAtMost(bs[0]);
      if w > |bs| then Err(UnexpectedEof)
      else Ok((BytesValue([WithoutMarker(bs[0], w)] + bs[1..w], BigEndian), bs[w..]))
  }

  lemma {:induction false} AnnouncedExactly(first: Byte, w: nat)
    requires 1 <= w <= 8 && Pow2(8 - w) <= first < Pow2(9 - w)
    ensures AnnouncedWidth(first) == w
    decreases w
  {
    if w == 1 {
      assert first >= 128 by { assert Pow2(7) == 128; }
    } else {
      assert Pow2(9 - w) == 2 * Pow2(8 - w) && Pow2(10 - w) == 2 * Pow2(9 - w);
      Pow2Monotone(9 - w, 7);
      assert Pow2(7) == 128;
      AnnouncedExactly(2 * first, w - 1);
    }
  }

  /** The width that fits a nonzero first byte. */
  lemma {:induction false} SomeWidth(first: Byte, w: nat) returns (r: nat)
    requires 1 <= w <= 8 && 0 < first < Pow2(9 - w)
    ensures w <= r <= 8 && Pow2(8 - r) <= first < Pow2(9 - r)
    decreases 8 - w
  {
    assert Pow2(0) == 1;
    if w == 8 || first >= Pow2(8 - w) {
      r := w;
    } else {
      r := SomeWidth(first, w + 1);
    }
  }

  lemma AnnouncedAtMost(first: Byte)
    ensures AnnouncedWidth(first) <= 8
  {
    if first > 0 {
      assert Pow2(8) == 256;
      var w := SomeWidth(first, 1);
      AnnouncedExactly(first, w);
    }
  }

  /** A first byte is a big-endian word's quotient by the weight of the bytes after it. */
  lemma FirstByteWeighs(first: Byte, tail: seq<Byte>)
    ensures BytesValue([first] + tail, BigEndian) == first * Pow2(8 * |tail|) + BytesValue(tail, BigEndian)
    ensures BytesValue(tail, BigEndian) < Pow2(8 * |tail|)
  {
    BigEndianConcat([first], tail);
    BytesValueBound(tail, BigEndian);
    OneByteValue(first);
  }

  lemma OneByteValue(b: Byte)
    ensures BytesValue([b], BigEndian) == b
  {
    assert [b][..0] == [];
  }

  /** With the marker `m` times the weight `p` of the rest, the first byte holds the
      marker and nothing above it, and the value is what is left without it. */
  lemma MarkerInFirstByte(first: nat, tail: nat, v: nat, p: nat, m: nat)
    requires m >= 1 && v < m * p && tail < p && first * p + tail == m * p + v
    ensures m <= first < 2 * m && first % m == first - m
    ensures (first - m) * p + tail == v
  {
    var above := first - m;
    assert above * p + tail == v;
    if above < 0 {
      Scaled(above, -1, p);
      assert false;
    } else if above >= m {
      Scaled(m, above, p);
      assert false;
    }
    RemainderAbove(first, m);
  }

  lemma EbmlReadsBack(v: nat, w: nat, rest: seq<Byte>)
    requires 1 <= w <= 8 && v < Pow2(7 * w)
    ensures EbmlRead(WordBytes(Pow2(7 * w) + v, w, BigEndian) + rest) == Ok((v, rest))
  {
    var written := WordBytes(Pow2(7 * w) + v, w, BigEndian);
    var first, tail := written[0], written[1..];
    assert written == [first] + tail;
    MarkerByte(v, w, first, tail);
    AnnouncedExactly(first, w);
    var bs := written + rest;
    assert bs[0] == first && bs[1..w] == tail && bs[w..] == rest;
  }

  lemma MarkerByte(v: nat, w: nat, first: Byte, tail: seq<Byte>)
    requires 1 <= w <= 8 && v < Pow2(7 * w)
    requires WordBytes(Pow2(7 * w) + v, w, BigEndian) == [first] + tail
    ensures Pow2(8 - w) <= first < Pow2(9 - w)
    ensures BytesValue([WithoutMarker(first, w)] + tail, BigEndian) == v
  {
    Pow2Monotone(7 * w + 1, 8 * w);
    BytesRoundTrip(Pow2(7 * w) + v, w, BigEndian);
    assert |tail| == w - 1;
    Pow2Add(8 - w, 8 * |tail|);
    assert 8 - w + 8 * |tail| == 7 * w;
    MarkerStripped(v, w, first, tail);
  }

  lemma MarkerStripped(v: nat, w: nat, first: Byte, tail: seq<Byte>)
    requires w <= 8 && v < Pow2(8 - w) * Pow2(8 * |tail|)
    requires BytesValue([first] + tail, BigEndian) == Pow2(8 - w) * Pow2(8 * |tail|) + v
    ensures Pow2(8 - w) <= first < 2 * Pow2(8 - w)
    ensures BytesValue([WithoutMarker(first, w)] + tail, BigEndian) == v
  {
    FirstByteWeighs(first, tail);
    MarkerInFirstByte(first, BytesValue(tail, BigEndian), v, Pow2(8 * |tail|), Pow2(8 - w));
    FirstByteWeighs(WithoutMarker(first, w), tail);
  }

  /** Values up to 2^56 - 2 read back, and the writer refuses every other. */
  lemma EbmlRoundTrip(v: nat, rest: seq<Byte>)
    ensures if v + 2 <= TWO_56
            then EbmlBytes(v).Ok? && EbmlRead(EbmlBytes(v).value + rest) == Ok((v, rest))
            else EbmlBytes(v) == Err(InvalidEncoding)
  {
    FitsInEight(v + 1);
    if v + 2 <= TWO_56 {
      GroupsExactly(v + 1, Groups(v + 1));
      EbmlReadsBack(v, Groups(v + 1), rest);
    }
  }

  lemma FitsInEight(x: nat)
    ensures Groups(x) <= 8 <==> x < TWO_56
  {
    GroupsExactly(x, 8);
    LargePowers();
  }

  // ---------------------------------------------------------------- MIDI-style VLQ

  const VLQ_MAX: nat := 0x0FFF_FFFF

  /** The groups above the last, each with its continuation bit. */
  function VlqHigh(v: nat): seq<Byte> {
    if v == 0 then [] else VlqHigh(v / 128) + [v % 128 + 128]
  }

  function VlqBytes(v: nat): Result<seq<Byte>, Error> {
    if v > VLQ_MAX then Err(InvalidEncoding) else Ok(VlqHigh(v / 128) + [v % 128])
  }

  function VlqRead(bs: seq<Byte>, result: nat, count: nat): Parsed<nat>
    decreases |bs|
  {
    if count >= 4 then Err(InvalidEncoding)
    else if bs == [] then Err(UnexpectedEof)
    else
      var next := result * 128 + bs[0] % 128;
      if bs[0] < 128 then Ok((next, bs[1..])) else VlqRead(bs[1..], next, count + 1)
  }

  lemma {:induction false} VlqHighLength(v: nat, k: nat)
    requires v < Pow2(7 * k)
    ensures |VlqHigh(v)| <= k
    decreases k
  {
    if v > 0 {
      assert k > 0;
      Pow2Add(7 * (k - 1), 7);
      assert Pow2(7) == 128 && 7 * (k - 1) + 7 == 7 * k;
      VlqHighLength(v / 128, k - 1);
    }
  }

  lemma {:induction false} VlqHighReads(v: nat, tail: seq<Byte>)
    requires |VlqHigh(v)| <= 4
    ensures VlqRead(VlqHigh(v) + tail, 0, 0) == VlqRead(tail, v, |VlqHigh(v)|)
    decreases v
  {
    if v == 0 {
      assert VlqHigh(v) + tail == tail;
    } else {
      var last: Byte := v % 128 + 128;
      assert VlqHigh(v) + tail == VlqHigh(v / 128) + ([last] + tail);
      VlqHighReads(v / 128, [last] + tail);
      assert ([last] + tail)[1..] == tail;
    }
  }

  /** Values up to 0x0FFFFFFF read back, and the writer refuses every other. */
  lemma VlqRoundTrip(v: nat, rest: seq<Byte>)
    ensures if v <= VLQ_MAX
            then VlqBytes(v).Ok? && VlqRead(VlqBytes(v).value + rest, 0, 0) == Ok((v, rest))
            else VlqBytes(v) == Err(InvalidEncoding)
  {
    if v <= VLQ_MAX {
      assert Pow2(14) == 0x4000;
      SevenMore(14);
      VlqHighLength(v / 128, 3);
      var last: Byte := v % 128;
      VlqHighReads(v / 128, [last] + rest);
      assert VlqBytes(v).value + rest == VlqHigh(v / 128) + ([last] + rest);
      assert ([last] + rest)[1..] == rest;
    }
  }
}
