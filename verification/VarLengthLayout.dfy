/** How the six variable-length encodings lie on the wire, for every value
    (crates/binschema-runtime/src/bitstream.rs:346-477, 907-1055).

    A round trip leaves open how many bytes a value takes and which they are.  Here
    each writer's length is the least that holds the value, each of its bytes is
    given outright, and the group readers are given the value of every input, the
    ones no writer makes included. */
module VarLengthLayout {
  import opened Wrappers
  import opened Bits
  import opened BitStream
  import opened VarLength

  /** The `i`-th group of seven bits, from the least significant. */
  function Group(v: int, i: nat): (g: nat)
    ensures g < 128
  {
    v / Pow2(7 * i) % 128
  }

  lemma SevenPerGroup(w: nat)
    ensures Pow2(7 * (w + 1)) == 128 * Pow2(7 * w)
  {
    SevenMore(7 * w);
    assert 7 * (w + 1) == 7 * w + 7;
  }

  /** Dividing by 128 and then by `p` is dividing by their product. */
  lemma DivideTwice(v: int, p: nat)
    requires p > 0
    ensures v / 128 / p == v / (128 * p)
  {
    var high := v / 128;
    var q, g := high / p, high % p;
    Quotient(v, q, 128 * g + v % 128, 128 * p);
  }

  lemma Quotient(v: int, q: int, r: int, m: int)
    requires 0 <= r < m && v == q * m + r
    ensures v / m == q
  {
    var other := v / m;
    if other > q {
      Scaled(q + 1, other, m);
      assert false;
    } else if other < q {
      Scaled(other + 1, q, m);
      assert false;
    }
  }

  lemma GroupAbove(v: int, i: nat)
    ensures Group(v, i + 1) == Group(v / 128, i)
  {
    SevenPerGroup(i);
    DivideTwice(v, Pow2(7 * i));
  }

  lemma LowestGroup(v: int)
    ensures Group(v, 0) == v % 128
  {
    assert Pow2(7 * 0) == 1;
  }

  /** Groups with the continuation bit on all but the last, least significant first. */
  predicate LittleGroups(bs: seq<Byte>, v: int) {
    forall i :: 0 <= i < |bs| ==> bs[i] == Group(v, i) + if i < |bs| - 1 then 128 else 0
  }

  /** The same, most significant first. */
  predicate BigGroups(bs: seq<Byte>, v: int) {
    forall i :: 0 <= i < |bs| ==> bs[i] == Group(v, |bs| - 1 - i) + if i < |bs| - 1 then 128 else 0
  }

  lemma LittleGroupsGrow(bs: seq<Byte>, v: int)
    requires bs != [] && LittleGroups(bs, v / 128)
    ensures LittleGroups([v % 128 + 128] + bs, v)
  {
    var longer := [v % 128 + 128] + bs;
    LowestGroup(v);
    forall i | 0 <= i < |longer| ensures longer[i] == Group(v, i) + if i < |longer| - 1 then 128 else 0 {
      if i > 0 {
        GroupAbove(v, i - 1);
      }
    }
  }

  // ---------------------------------------------------------------- LEB128 and zigzag

  /** `v` takes the least number of groups, at least one. */
  lemma {:induction false} LebLayout(v: nat, w: nat)
    requires w >= 1
    ensures |LebBytes(v)| >= 1 && LittleGroups(LebBytes(v), v)
    ensures |LebBytes(v)| <= w <==> v < Pow2(7 * w)
    decreases v
  {
    SevenPerGroup(w - 1);
    if v < 128 {
      LowestGroup(v);
      Pow2Monotone(0, 7 * (w - 1));
    } else {
      LebLayout(v / 128, if w > 1 then w - 1 else 1);
      LittleGroupsGrow(LebBytes(v / 128), v);
      assert w == 1 ==> Pow2(7 * (w - 1)) == 1;
    }
  }

  /** A signed number takes the least number of groups that hold it in two's complement. */
  lemma ZigzagLength(n: int, w: nat)
    requires IsI64(n) && w >= 1
    ensures |LebBytes(Zigzag(n))| <= w <==> FitsBelow(n, 7 * w - 1)
  {
    LebLayout(Zigzag(n), w);
    assert Pow2(7 * w) == 2 * Pow2(7 * w - 1);
  }

  // ---------------------------------------------------------------- signed LEB128

  lemma {:induction false} SlebLayout(v: int, w: nat)
    requires w >= 1
    ensures |SlebBytes(v)| >= 1 && LittleGroups(SlebBytes(v), v)
    ensures |SlebBytes(v)| <= w <==> FitsBelow(v, 7 * w - 1)
    decreases if v < 0 then -v else v
  {
    assert Pow2(6) == 64;
    Pow2Monotone(6, 7 * w - 1);
    if -64 <= v < 64 {
      LowestGroup(v);
    } else {
      SlebLayout(v / 128, if w > 1 then w - 1 else 1);
      LittleGroupsGrow(SlebBytes(v / 128), v);
      if w > 1 {
        SevenMore(7 * (w - 1) - 1);
        assert 7 * (w - 1) - 1 + 7 == 7 * w - 1;
      }
    }
  }

  // ---------------------------------------------------------------- DER lengths

  /** One byte below 128; otherwise their number, marked, and the fewest bytes of the
      value, most significant first. */
  lemma DerLayout(v: nat, w: nat)
    requires v < TWO_64 && w >= 1
    ensures |DerBytes(v)| == 1 <==> v < 128
    ensures v < 128 ==> DerBytes(v) == [v]
    ensures v >= 128 ==>
      var bs := DerBytes(v);
      && bs[0] == 128 + |bs| - 1 && BytesValue(bs[1..], BigEndian) == v
      && (|bs| <= 1 + w <==> v < Pow2(8 * w))
  {
    if v >= 128 {
      var k := ByteLength(v);
      BytesRoundTrip(v, k, BigEndian);
      assert DerBytes(v)[1..] == WordBytes(v, k, BigEndian);
      if k <= w {
        Pow2Monotone(8 * k, 8 * w);
      } else {
        Pow2Monotone(8 * w, 8 * (k - 1));
      }
    }
  }

  // ---------------------------------------------------------------- EBML

  /** The least width `w` with `v <= 2^(7w) - 2`, and the value under its marker bit. */
  lemma EbmlLayout(v: nat, w: nat)
    requires v + 2 <= TWO_56 && w >= 1
    ensures EbmlBytes(v).Ok?
    ensures var bs := EbmlBytes(v).value;
      && 1 <= |bs| <= 8
      && (|bs| <= w <==> v as int <= Pow2(7 * w) - 2)
      && BytesValue(bs, BigEndian) == Pow2(7 * |bs|) + v
  {
    var n := Groups(v + 1);
    FitsInEight(v + 1);
    GroupsExactly(v + 1, w);
    GroupsExactly(v + 1, n);
    Pow2Monotone(7 * n + 1, 8 * n);
    BytesRoundTrip(Pow2(7 * n) + v, n, BigEndian);
  }

  // ---------------------------------------------------------------- VLQ

  lemma {:induction false} VlqHighCount(v: nat, w: nat)
    ensures |VlqHigh(v)| <= w <==> v < Pow2(7 * w)
    decreases v
  {
    Pow2Monotone(0, 7 * w);
    if v > 0 && w > 0 {
      SevenPerGroup(w - 1);
      VlqHighCount(v / 128, w - 1);
    }
  }

  lemma BigGroupsGrow(bs: seq<Byte>, v: nat, last: nat)
    requires last < 128 && BigGroups(bs + [v % 128], v)
    ensures BigGroups(bs + [v % 128 + 128] + [last], 128 * v + last)
  {
    var all, shorter, longer := 128 * v + last, bs + [v % 128], bs + [v % 128 + 128] + [last];
    var n := |bs| + 1;
    LowestGroup(all);
    forall i | 0 <= i < |longer| ensures longer[i] == Group(all, n - i) + if i < n then 128 else 0 {
      if i < n {
        GroupAbove(all, n - 1 - i);
        assert shorter[i] == Group(v, n - 1 - i) + if i < n - 1 then 128 else 0;
      }
    }
  }

  lemma {:induction false} VlqHighGroups(v: nat, last: nat)
    requires last < 128
    ensures BigGroups(VlqHigh(v) + [last], 128 * v + last)
    decreases v
  {
    if v == 0 {
      LowestGroup(last);
    } else {
      VlqHighGroups(v / 128, v % 128);
      BigGroupsGrow(VlqHigh(v / 128), v, last);
    }
  }

  lemma VlqLayout(v: nat, w: nat)
    requires v <= VLQ_MAX && w >= 1
    ensures VlqBytes(v).Ok?
    ensures var bs := VlqBytes(v).value;
      && 1 <= |bs| <= 4 && BigGroups(bs, v)
      && (|bs| <= w <==> v < Pow2(7 * w))
  {
    VlqHighGroups(v / 128, v % 128);
    VlqHighCount(v / 128, w - 1);
    VlqHighCount(v / 128, 3);
    SevenPerGroup(w - 1);
    assert Pow2(14) == 0x4000;
    SevenMore(14);
  }

  // ---------------------------------------------------------------- what the readers make of any bytes

  /** The first `n` bytes go on and the next one ends the number. */
  predicate EndsAt(bs: seq<Byte>, n: nat) {
    n < |bs| && bs[n] < 128 && forall i :: 0 <= i < n ==> bs[i] >= 128
  }

  predicate NeverEnds(bs: seq<Byte>) {
    forall i :: 0 <= i < |bs| ==> bs[i] >= 128
  }

  /** The sum of the groups, the first with weight 1. */
  function LittleSum(bs: seq<Byte>): nat {
    if bs == [] then 0 else LittleSum(bs[..|bs| - 1]) + bs[|bs| - 1] % 128 * Pow2(7 * (|bs| - 1))
  }

  /** The sum of the groups, the last with weight 1. */
  function BigSum(bs: seq<Byte>): nat {
    if bs == [] then 0 else bs[0] % 128 * Pow2(7 * (|bs| - 1)) + BigSum(bs[1..])
  }

  lemma {:induction false} LittleSumFirst(b: Byte, bs: seq<Byte>)
    ensures LittleSum([b] + bs) == b % 128 + 128 * LittleSum(bs)
    decreases |bs|
  {
    var all := [b] + bs;
    assert Pow2(7 * 0) == 1;
    if bs == [] {
      assert all[..0] == [];
    } else {
      var n := |bs| - 1;
      assert all[..|all| - 1] == [b] + bs[..n];
      LittleSumFirst(b, bs[..n]);
      SevenPerGroup(n);
      Regroup(bs[n] % 128, Pow2(7 * n));
    }
  }

  lemma Regroup(g: nat, p: nat)
    ensures g * (128 * p) == 128 * (g * p)
  {
  }

  lemma {:induction false} LebReadsTurn(bs: seq<Byte>, n: nat, i: nat)
    requires i <= 9 && EndsAt(bs, n)
    ensures LebRead(bs, 7 * i) == if n + i < 9 then Ok((LittleSum(bs[..n + 1]), bs[n + 1..])) else Err(InvalidEncoding)
    decreases |bs|
  {
    if i < 9 {
      var tail := bs[1..];
      assert bs[..n + 1] == [bs[0]] + tail[..n] && bs[n + 1..] == tail[n..];
      LittleSumFirst(bs[0], tail[..n]);
      if n > 0 {
        LebReadsTurn(tail, n - 1, i + 1);
      } else {
        assert tail[..n] == [];
      }
    }
  }

  lemma {:induction false} LebRunsOut(bs: seq<Byte>, i: nat)
    requires i <= 9 && NeverEnds(bs)
    ensures LebRead(bs, 7 * i) == Err(if |bs| + i <= 9 then UnexpectedEof else InvalidEncoding)
    decreases |bs|
  {
    if bs != [] && i < 9 {
      LebRunsOut(bs[1..], i + 1);
    }
  }

  /** Up to nine groups give their sum, padded or not; more are refused, and so is a
      number that does not end. */
  lemma {:induction false} LebReadsAny(bs: seq<Byte>, n: nat)
    ensures EndsAt(bs, n) ==>
      LebRead(bs, 0) == if n < 9 then Ok((LittleSum(bs[..n + 1]), bs[n + 1..])) else Err(InvalidEncoding)
    ensures NeverEnds(bs) ==> LebRead(bs, 0) == Err(if |bs| <= 9 then UnexpectedEof else InvalidEncoding)
  {
    if EndsAt(bs, n) {
      LebReadsTurn(bs, n, 0);
    }
    if NeverEnds(bs) {
      LebRunsOut(bs, 0);
    }
  }

  lemma {:induction false} VlqReadsTurn(bs: seq<Byte>, n: nat, result: nat, count: nat)
    requires count <= 4 && EndsAt(bs, n)
    ensures VlqRead(bs, result, count) ==
      if n + count < 4 then Ok((result * Pow2(7 * (n + 1)) + BigSum(bs[..n + 1]), bs[n + 1..])) else Err(InvalidEncoding)
    decreases |bs|
  {
    if count < 4 {
      var tail, next := bs[1..], result * 128 + bs[0] % 128;
      assert bs[..n + 1][1..] == tail[..n] && bs[n + 1..] == tail[n..];
      SevenPerGroup(n);
      if n > 0 {
        VlqReadsTurn(tail, n - 1, next, count + 1);
        OneMoreGroup(result, bs[0] % 128, Pow2(7 * n), BigSum(tail[..n]));
      } else {
        assert tail[..n] == [] && Pow2(7 * n) == 1;
      }
    }
  }

  lemma {:induction false} VlqRunsOut(bs: seq<Byte>, result: nat, count: nat)
    requires count <= 4 && NeverEnds(bs)
    ensures VlqRead(bs, result, count) == Err(if |bs| + count < 4 then UnexpectedEof else InvalidEncoding)
    decreases |bs|
  {
    if bs != [] && count < 4 {
      VlqRunsOut(bs[1..], result * 128 + bs[0] % 128, count + 1);
    }
  }

  lemma OneMoreGroup(result: nat, g: nat, p: nat, low: nat)
    ensures (result * 128 + g) * p + low == result * (128 * p) + (g * p + low)
  {
  }

  /** Up to four groups give their sum; more are refused, and so is a number that does not end. */
  lemma {:induction false} VlqReadsAny(bs: seq<Byte>, n: nat)
    ensures EndsAt(bs, n) ==>
      VlqRead(bs, 0, 0) == if n < 4 then Ok((BigSum(bs[..n + 1]), bs[n + 1..])) else Err(InvalidEncoding)
    ensures NeverEnds(bs) ==> VlqRead(bs, 0, 0) == Err(if |bs| < 4 then UnexpectedEof else InvalidEncoding)
  {
    if EndsAt(bs, n) {
      VlqReadsTurn(bs, n, 0, 0);
    }
    if NeverEnds(bs) {
      VlqRunsOut(bs, 0, 0);
    }
  }

  /** What the reader makes of a last group, `shift` bits after the first. */
  lemma {:induction false} SlebEnds(b: Byte, rest: seq<Byte>, acc: nat, shift: nat)
    requires b < 128 && shift + 7 <= 63 && acc < Pow2(shift) && acc < TWO_64
    ensures var word := acc + b * Pow2(shift);
      SlebRead([b] + rest, acc, shift) == Ok((if b >= 64 then word - Pow2(shift + 7) else word, rest))
  {
    var word := acc + b * Pow2(shift);
    GroupLands(acc, b, shift);
    PowerBound(shift + 7);
    SlebReadLast(b, rest, acc, shift);
    ExtendedGroup(word, shift + 7, b, if b >= 64 then word - Pow2(shift + 7) else word);
  }

  /** And of a group that is not the last. */
  lemma {:induction false} SlebGoesOn(b: Byte, rest: seq<Byte>, acc: nat, shift: nat) returns (word: nat)
    requires b >= 128 && shift + 7 <= 63 && acc < Pow2(shift) && acc < TWO_64
    ensures word == acc + (b - 128) * Pow2(shift) < Pow2(shift + 7) && word < TWO_64
    ensures SlebRead([b] + rest, acc, shift) == SlebRead(rest, word, shift + 7)
  {
    GroupLands(acc, b - 128, shift);
    word := Or(acc, ShlWord(b - 128, shift));
    PowerBound(shift + 7);
    SlebReadMore(b, rest, acc, shift);
  }

  /** The value of `bs` when its `n + 1` groups come `shift` bits above `acc`. */
  function SignedSum(bs: seq<Byte>, n: nat, acc: nat, shift: nat): int
    requires n < |bs|
  {
    var word := acc + LittleSum(bs[..n + 1]) * Pow2(shift);
    if bs[n] >= 64 then word - Pow2(shift + 7 * (n + 1)) else word
  }

  lemma {:induction false} SignedSumFirst(bs: seq<Byte>, n: nat, acc: nat, shift: nat, word: nat)
    requires 0 < n < |bs| && bs[0] >= 128 && word == acc + (bs[0] - 128) * Pow2(shift)
    ensures SignedSum(bs, n, acc, shift) == SignedSum(bs[1..], n - 1, word, shift + 7)
  {
    var tail := bs[1..];
    assert bs[..n + 1] == [bs[0]] + tail[..n];
    LittleSumFirst(bs[0], tail[..n]);
    SevenMore(shift);
    GatherGroup(acc, bs[0] - 128, LittleSum(tail[..n]), Pow2(shift), LittleSum(bs[..n + 1]), word, Pow2(shift + 7));
    assert shift + 7 * (n + 1) == shift + 7 + 7 * n;
  }

  lemma {:induction false} SignedSumOnly(bs: seq<Byte>, acc: nat, shift: nat)
    requires bs != [] && bs[0] < 128
    ensures SignedSum(bs, 0, acc, shift) == acc + bs[0] * Pow2(shift) - if bs[0] >= 64 then Pow2(shift + 7) else 0
  {
    assert bs[..1] == [bs[0]] + [];
    LittleSumFirst(bs[0], []);
  }

  ghost predicate SlebReads(bs: seq<Byte>, n: nat, acc: nat, shift: nat)
    requires n < |bs| && acc < TWO_64
  {
    SlebRead(bs, acc, shift) == Ok((SignedSum(bs, n, acc, shift), bs[n + 1..]))
  }

  lemma {:induction false} SlebReadsOne(bs: seq<Byte>, acc: nat, shift: nat)
    requires EndsAt(bs, 0) && shift + 7 <= 63 && acc < Pow2(shift) && acc < TWO_64
    ensures SlebReads(bs, 0, acc, shift)
  {
    assert bs == [bs[0]] + bs[1..];
    SignedSumOnly(bs, acc, shift);
    SlebEnds(bs[0], bs[1..], acc, shift);
  }

  lemma {:induction false} SlebReadsFirst(bs: seq<Byte>, n: nat, acc: nat, shift: nat) returns (word: nat)
    requires 0 < n < |bs| && bs[0] >= 128 && shift + 7 <= 63 && acc < Pow2(shift) && acc < TWO_64
    ensures word < Pow2(shift + 7) && word < TWO_64
    ensures SlebReads(bs[1..], n - 1, word, shift + 7) ==> SlebReads(bs, n, acc, shift)
  {
    assert bs == [bs[0]] + bs[1..] && bs[n + 1..] == bs[1..][n..];
    word := SlebGoesOn(bs[0], bs[1..], acc, shift);
    SignedSumFirst(bs, n, acc, shift, word);
  }

  lemma {:induction false} SlebReadsTurn(bs: seq<Byte>, n: nat, acc: nat, shift: nat)
    requires EndsAt(bs, n) && shift + 7 * (n + 1) <= 63 && acc < Pow2(shift) && acc < TWO_64
    ensures SlebReads(bs, n, acc, shift)
    decreases n
  {
    if n == 0 {
      SlebReadsOne(bs, acc, shift);
    } else {
      var word := SlebReadsFirst(bs, n, acc, shift);
      SlebReadsTurn(bs[1..], n - 1, word, shift + 7);
    }
  }

  lemma GatherGroup(acc: nat, g: nat, high: nat, p: nat, sum: nat, word: nat, q: nat)
    requires sum == g + 128 * high && word == acc + g * p && q == 128 * p
    ensures acc + sum * p == word + high * q
  {
    calc {
      sum * p;
      (g + 128 * high) * p;
      g * p + 128 * high * p;
      g * p + high * q;
    }
  }

  /** Up to nine groups give their sum in two's complement, padded or not. */
  lemma {:induction false} SlebReadsAny(bs: seq<Byte>, n: nat)
    requires EndsAt(bs, n) && n < 9
    ensures var sum := LittleSum(bs[..n + 1]);
      SlebRead(bs, 0, 0) == Ok((if bs[n] >= 64 then sum - Pow2(7 * (n + 1)) else sum, bs[n + 1..]))
  {
    SlebReadsTurn(bs, n, 0, 0);
  }
}
