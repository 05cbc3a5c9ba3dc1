/** Writers, `finish` and readers run one after the other: what is written to a
    `BitStreamEncoder` is read from a `BitStreamDecoder` over the finished bytes, for
    any sequence of bit fields, integers and variable-length integers
    (crates/binschema-runtime/src/bitstream.rs). */
module BitStreamRoundTrip {
  import opened Wrappers
  import opened Bits
  import opened BitStream
  import opened VarLength
  import opened VarLengthIo
  import E = BitStreamEncoder
  import D = BitStreamDecoder

  /** What a program reads, without its value. */
  datatype Kind = FixedKind(shape: Shape) | LebKind | ZigzagKind | SlebKind | DerKind | EbmlKind | VlqKind

  /** What a program writes. */
  datatype Item =
    | Fixed(op: Op)
    | Leb(value: nat)
    | Zigzag(number: int)
    | Sleb(number: int)
    | Der(value: nat)
    | Ebml(value: nat)
    | Vlq(value: nat)
  {
    /** The value fits the writer's parameter, the writer takes it, and the reader reads it
        back: exactly the ranges of the round trips of `VarLength`. */
    predicate Valid() {
      match this
      case Fixed(op) => op.Valid()
      case Leb(v) => v < TWO_63
      case Zigzag(n) => -TWO_62 <= n < TWO_62
      case Sleb(n) => IsI64(n)
      case Der(v) => v < TWO_64
      case Ebml(v) => v + 2 <= TWO_56
      case Vlq(v) => v <= VLQ_MAX
    }

    function Kind(): Kind {
      match this
      case Fixed(op) => FixedKind(op.Shape())
      case Leb(_) => LebKind
      case Zigzag(_) => ZigzagKind
      case Sleb(_) => SlebKind
      case Der(_) => DerKind
      case Ebml(_) => EbmlKind
      case Vlq(_) => VlqKind
    }

    /** What the matching read returns. */
    function Value(): int {
      match this
      case Fixed(op) => op.Value()
      case Leb(v) => v
      case Zigzag(n) => n
      case Sleb(n) => n
      case Der(v) => v
      case Ebml(v) => v
      case Vlq(v) => v
    }
  }

  function Accepted(written: Result<seq<Byte>, Error>): seq<Byte> {
    match written
    case Ok(bs) => bs
    case Err(_) => []
  }

  /** The bytes of a variable-length item. */
  ghost function ItemBytes(item: Item): seq<Byte>
    requires !item.Fixed?
  {
    match item
    case Leb(v) => LebBytes(v)
    case Zigzag(n) => if IsI64(n) then LebBytes(VarLength.Zigzag(n)) else []
    case Sleb(n) => if IsI64(n) then SlebBytes(n) else []
    case Der(v) => if v < TWO_64 then DerBytes(v) else []
    case Ebml(v) => Accepted(EbmlBytes(v))
    case Vlq(v) => Accepted(VlqBytes(v))
  }

  ghost function ItemBits(order: BitOrder, pos: nat, item: Item): seq<bool> {
    if item.Fixed? then EncodeOp(order, pos, item.op) else BytesBits(ByteOrder(order, pos), ItemBytes(item))
  }

  ghost predicate AllValid(items: seq<Item>) {
    forall item | item in items :: item.Valid()
  }

  /** The bits an item makes, as a function of where it stands. */
  ghost function BitsOf(order: BitOrder): (nat, Item) -> seq<bool> {
    (pos: nat, item: Item) => ItemBits(order, pos, item)
  }

  /** The stream after the first `n` items. */
  ghost function Stream<T>(bits: (nat, T) -> seq<bool>, items: seq<T>, n: nat): seq<bool>
    requires n <= |items|
  {
    if n == 0 then []
    else
      var before := Stream(bits, items, n - 1);
      before + bits(|before|, items[n - 1])
  }

  // ---------------------------------------------------------------- writing

  method WriteOp(e: E.BitStreamEncoder, op: Op)
    requires e.Valid() && op.Valid()
    modifies e
    ensures e.Valid() && e.Contents() == old(e.Contents()) + EncodeOp(e.order, |old(e.Contents())|, op)
  {
    match op
    case PutBits(v, n) => e.WriteBits(v, n);
    case PutWord(v, k, end) =>
      if k == 1 {
        e.PositionIsBitPosition();
        assert Pow2(8) == 256;
        ByteIsWord(e.order, |e.Contents()|, v, end);
        e.WriteUint8(v);
      } else if k == 2 {
        e.WriteUint16(v, end);
      } else if k == 4 {
        e.WriteUint32(v, end);
      } else {
        e.WriteUint64(v, end);
      }
  }

  method WriteItem(e: E.BitStreamEncoder, item: Item)
    requires e.Valid() && item.Valid()
    modifies e
    ensures e.Valid() && e.Contents() == old(e.Contents()) + ItemBits(e.order, |old(e.Contents())|, item)
  {
    e.PositionIsBitPosition();
    match item
    case Fixed(op) => WriteOp(e, op);
    case Leb(v) => WriteLeb(e, v);
    case Zigzag(n) => WriteZigzag(e, n);
    case Sleb(n) => WriteSleb(e, n);
    case Der(v) => WriteDer(e, v);
    case Ebml(v) =>
      EbmlRoundTrip(v, []);
      var written := WriteEbml(e, v);
    case Vlq(v) =>
      VlqRoundTrip(v, []);
      var written := WriteVlq(e, v);
  }

  // ---------------------------------------------------------------- reading

  method ReadOp(d: D.BitStreamDecoder, shape: Shape, ghost op: Op) returns (r: Result<nat, Error>)
    requires d.Valid() && op.Valid() && shape == op.Shape()
    requires Occurs(d.AllBits(), d.Position(), EncodeOp(d.order, d.Position(), op))
    modifies d
    ensures d.Valid() && r == Ok(op.Value()) && d.Position() == old(d.Position()) + shape.Width()
  {
    OpRoundTrip(d.order, d.AllBits(), d.Position(), op);
    match shape
    case BitsShape(n) => r := d.ReadBits(n);
    case WordShape(k, end) =>
      if k == 1 {
        ByteReadsAsWord(d.order, d.AllBits(), d.Position(), end);
        var read := d.ReadUint8();
        r := Ok(read.value);
      } else if k == 2 {
        r := d.ReadUint16(end);
      } else if k == 4 {
        r := d.ReadUint32(end);
      } else {
        r := d.ReadUint64(end);
      }
  }

  /** The bytes of an item are ahead of a decoder where they stand. */
  lemma ItemIsAhead(order: BitOrder, bits: seq<bool>, pos: nat, bs: seq<Byte>) returns (rest: seq<Byte>)
    requires Occurs(bits, pos, BytesBits(ByteOrder(order, pos), bs))
    ensures BytesFrom(order, bits, pos) == bs + rest
  {
    var o, end := ByteOrder(order, pos), pos + |BytesBits(ByteOrder(order, pos), bs)|;
    assert bits[pos..] == bits[pos..end] + bits[end..];
    WrittenIsAhead(order, bits, pos, bs, bits[end..]);
    rest := BitsToBytes(o, bits[end..]);
  }

  /** Every reader gives the item back and leaves the rest. */
  method ReadVariable(d: D.BitStreamDecoder, kind: Kind, ghost item: Item, ghost rest: seq<Byte>) returns (r: Result<int, Error>)
    requires d.Valid() && item.Valid() && !item.Fixed? && kind == item.Kind()
    requires Ahead(d) == ItemBytes(item) + rest
    modifies d
    ensures d.Valid() && r == Ok(item.Value()) && Ahead(d) == rest && Horizon(d) == old(Horizon(d))
  {
    match kind
    case LebKind =>
      LebRoundTrip(item.value, rest);
      r := ReadLeb(d);
    case ZigzagKind =>
      ZigzagRoundTrip(item.number, rest);
      r := ReadZigzag(d);
    case SlebKind =>
      SlebRoundTrip(item.number, rest);
      r := ReadSleb(d);
    case DerKind =>
      DerRoundTrip(item.value, rest);
      r := ReadDer(d);
    case EbmlKind =>
      EbmlRoundTrip(item.value, rest);
      r := ReadEbml(d);
    case VlqKind =>
      VlqRoundTrip(item.value, rest);
      r := ReadVlq(d);
  }

  method ReadItem(d: D.BitStreamDecoder, kind: Kind, ghost item: Item) returns (r: Result<int, Error>)
    requires d.Valid() && item.Valid() && kind == item.Kind()
    requires Occurs(d.AllBits(), d.Position(), ItemBits(d.order, d.Position(), item))
    modifies d
    ensures d.Valid() && r == Ok(item.Value())
    ensures d.Position() == old(d.Position()) + |ItemBits(d.order, old(d.Position()), item)|
  {
    if kind.FixedKind? {
      r := ReadOp(d, kind.shape, item.op);
    } else {
      ghost var bs := ItemBytes(item);
      ghost var rest := ItemIsAhead(d.order, d.AllBits(), d.Position(), bs);
      r := ReadVariable(d, kind, item, rest);
    }
  }

  // ---------------------------------------------------------------- the whole way

  /** Item `n` stands in `all` after the items before it. */
  ghost predicate Stands<T>(bits: (nat, T) -> seq<bool>, all: seq<bool>, items: seq<T>, n: nat)
    requires n < |items|
  {
    var pos := |Stream(bits, items, n)|;
    Occurs(all, pos, bits(pos, items[n]))
  }

  lemma {:induction false} LastStands<T>(bits: (nat, T) -> seq<bool>, all: seq<bool>, items: seq<T>, n: nat)
    requires n < |items| && Occurs(all, 0, Stream(bits, items, n + 1))
    ensures Occurs(all, 0, Stream(bits, items, n))
    ensures Stands(bits, all, items, n)
  {
    var before := Stream(bits, items, n);
    OccursSplit(all, 0, before, bits(|before|, items[n]));
  }

  lemma {:induction false} PrefixStands<T>(bits: (nat, T) -> seq<bool>, all: seq<bool>, items: seq<T>, n: nat, m: nat)
    requires m <= n <= |items| && Occurs(all, 0, Stream(bits, items, n))
    ensures Occurs(all, 0, Stream(bits, items, m))
    decreases n
  {
    if m < n {
      LastStands(bits, all, items, n - 1);
      PrefixStands(bits, all, items, n - 1, m);
    }
  }

  /** Every item stands in the finished stream where it was written. */
  lemma {:induction false} ItemsStand<T>(bits: (nat, T) -> seq<bool>, all: seq<bool>, items: seq<T>, i: nat)
    requires i < |items| && Occurs(all, 0, Stream(bits, items, |items|))
    ensures Stands(bits, all, items, i)
  {
    PrefixStands(bits, all, items, |items|, i + 1);
    LastStands(bits, all, items, i);
  }

  method WriteNext(e: E.BitStreamEncoder, items: seq<Item>, i: nat)
    requires AllValid(items) && i < |items| && e.Valid() && e.Contents() == Stream(BitsOf(e.order), items, i)
    modifies e
    ensures e.Valid() && e.Contents() == Stream(BitsOf(e.order), items, i + 1)
  {
    assert items[i] in items;
    WriteItem(e, items[i]);
  }

  method WriteAll(e: E.BitStreamEncoder, items: seq<Item>)
    requires AllValid(items) && e.Valid() && e.Contents() == []
    modifies e
    ensures e.Valid() && e.Contents() == Stream(BitsOf(e.order), items, |items|)
  {
    for i := 0 to |items|
      invariant e.Valid() && e.Contents() == Stream(BitsOf(e.order), items, i)
    {
      WriteNext(e, items, i);
    }
  }

  ghost predicate At(d: D.BitStreamDecoder, items: seq<Item>, i: nat)
    reads d
    requires i <= |items|
  {
    d.Valid() && d.Position() == |Stream(BitsOf(d.order), items, i)| && Occurs(d.AllBits(), 0, Stream(BitsOf(d.order), items, |items|))
  }

  method ReadNext(d: D.BitStreamDecoder, kind: Kind, ghost items: seq<Item>, ghost i: nat) returns (r: Result<int, Error>)
    requires AllValid(items) && i < |items| && kind == items[i].Kind() && At(d, items, i)
    modifies d
    ensures At(d, items, i + 1) && r == Ok(items[i].Value())
  {
    assert items[i] in items;
    ItemsStand(BitsOf(d.order), d.AllBits(), items, i);
    r := ReadItem(d, kind, items[i]);
  }

  /** Every read returns the value written. */
  predicate Returned(values: seq<Result<int, Error>>, items: seq<Item>, n: nat) {
    |values| == n <= |items| && forall i | 0 <= i < n :: values[i] == Ok(items[i].Value())
  }

  lemma ReturnedMore(values: seq<Result<int, Error>>, items: seq<Item>, n: nat, value: Result<int, Error>)
    requires Returned(values, items, n) && n < |items| && value == Ok(items[n].Value())
    ensures Returned(values + [value], items, n + 1)
  {
  }

  method ReadAll(d: D.BitStreamDecoder, kinds: seq<Kind>, ghost items: seq<Item>) returns (values: seq<Result<int, Error>>)
    requires AllValid(items) && |kinds| == |items| && (forall i | 0 <= i < |items| :: kinds[i] == items[i].Kind()) && At(d, items, 0)
    modifies d
    ensures Returned(values, items, |items|)
  {
    values := [];
    for i := 0 to |kinds|
      invariant At(d, items, i) && Returned(values, items, i)
    {
      var value := ReadNext(d, kinds[i], items, i);
      ReturnedMore(values, items, i, value);
      values := values + [value];
    }
  }

  /** For both bit orders and any sequence of items, each at whatever alignment the ones
      before left: write them all, finish, and read them back in order knowing only their
      kinds. */
  method RoundTrip(order: BitOrder, items: seq<Item>) returns (values: seq<Result<int, Error>>)
    requires AllValid(items)
    ensures Returned(values, items, |items|)
  {
    var e := new E.BitStreamEncoder(order);
    WriteAll(e, items);
    var bytes := e.Finish();
    var d := new D.BitStreamDecoder(bytes, order);
    values := ReadAll(d, seq(|items|, i requires 0 <= i < |items| => items[i].Kind()), items);
  }
}
