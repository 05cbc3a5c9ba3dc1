/** The log-body bloom filter: n-gram collection, double hashing, substring
    probes and the sidecar format (crates/block/src/bloom.rs).

    The two seeded hashes are one function from a gram to a pair of `u64`; the
    sizes `optimal_params` computes in floating point are any `m >= 1` and `k >= 1`.
    `usize` has 64 bits. */
module Bloom {
  import opened Wrappers
  import opened Bits
  import opened BitStream

  const U64: nat := 0x1_0000_0000_0000_0000
  const U32: nat := 0x1_0000_0000
  const BYTES_PER_DISTINCT_GRAM: nat := 40
  const HEADER_LEN: nat := 18
  const MAGIC: seq<Byte> := [0x53, 0x42, 0x4C, 0x4D]
  const FORMAT_VERSION: Byte := 1

  type Gram = seq<Byte>
  type Pair = (nat, nat)
  type Hash = Gram -> Pair

  /** Both hashes are `u64`. */
  ghost predicate IsHash(hash: Hash) {
    forall g: Gram :: hash(g).0 < U64 && hash(g).1 < U64
  }

  // ---------------------------------------------------------------- grams

  /** The windows of `n` bytes, left to right. */
  function Windows(body: seq<Byte>, n: nat): (ws: seq<Gram>)
    requires n > 0
    ensures |ws| == if |body| < n then 0 else |body| - n + 1
  {
    if |body| < n then []
    else seq(|body| - n + 1, i requires 0 <= i <= |body| - n => body[i..i + n])
  }

  predicate OccursAt(pattern: seq<Byte>, body: seq<Byte>, at: nat) {
    at + |pattern| <= |body| && body[at..at + |pattern|] == pattern
  }

  /** `pattern` is a byte substring of one of the bodies. */
  ghost predicate Occurs(pattern: seq<Byte>, bodies: seq<seq<Byte>>) {
    exists j, at: nat :: 0 <= j < |bodies| && OccursAt(pattern, bodies[j], at)
  }

  predicate Seen(grams: seq<Pair>, h1: nat) {
    exists i :: 0 <= i < |grams| && grams[i].0 == h1
  }

  /** Grams kept after `ws`: one per distinct first hash, the first to come. */
  function Collect(hash: Hash, grams: seq<Pair>, ws: seq<Gram>): seq<Pair>
    decreases |ws|
  {
    if ws == [] then grams
    else
      var before := Collect(hash, grams, ws[..|ws| - 1]);
      var pair := hash(ws[|ws| - 1]);
      if Seen(before, pair.0) then before else before + [pair]
  }

  function CollectBodies(hash: Hash, n: nat, bodies: seq<seq<Byte>>): seq<Pair>
    requires n > 0
    decreases |bodies|
  {
    if bodies == [] then []
    else Collect(hash, CollectBodies(hash, n, bodies[..|bodies| - 1]), Windows(bodies[|bodies| - 1], n))
  }

  /** The strings the bodies are taken from, with every part of one another one: all byte
      strings, or the ASCII strings, say. */
  ghost predicate Closed(text: seq<Byte> -> bool) {
    forall t: seq<Byte>, i: nat, j: nat | text(t) && i <= j <= |t| :: text(t[i..j])
  }

  predicate IsAscii(t: seq<Byte>) {
    forall i | 0 <= i < |t| :: t[i] < 128
  }

  lemma TextsAreClosed()
    ensures Closed((t: seq<Byte>) => true) && Closed(IsAscii)
  {
  }

  ghost predicate AllTexts(bodies: seq<seq<Byte>>, text: seq<Byte> -> bool) {
    forall j | 0 <= j < |bodies| :: text(bodies[j])
  }

  /** Grams with equal first hashes have equal second hashes. */
  ghost predicate FirstHashDecides(hash: Hash, n: nat, text: seq<Byte> -> bool) {
    forall a: Gram, b: Gram | |a| == n && |b| == n && text(a) && text(b) && hash(a).0 == hash(b).0 :: hash(a).1 == hash(b).1
  }

  // ---------------------------------------------------------------- bits

  function Ceil8(m: nat): nat {
    (m + 7) / 8
  }

  predicate IsSet(bits: seq<Byte>, p: nat)
    requires p < 8 * |bits|
  {
    BitAt(bits[p / 8], p % 8)
  }

  /** Probe `i` of a gram: `h1 + i * h2` in wrapping `u64` arithmetic, modulo the size. */
  function Probe(h: Pair, i: nat, m: nat): (p: nat)
    requires m > 0
    ensures p < m && p / 8 < Ceil8(m)
  {
    ((h.0 + i * h.1 % U64) % U64) % m
  }

  function SetBit(bits: seq<Byte>, p: nat): (r: seq<Byte>)
    requires p < 8 * |bits|
    ensures |r| == |bits|
  {
    OrInByte(bits[p / 8], p % 8);
    bits[p / 8 := Or(bits[p / 8], Shl(1, p % 8))]
  }

  /** The bits after the first `k` probes of a gram are set. */
  function SetProbes(bits: seq<Byte>, h: Pair, m: nat, k: nat): (r: seq<Byte>)
    requires m > 0 && |bits| == Ceil8(m)
    ensures |r| == |bits|
  {
    if k == 0 then bits else SetBit(SetProbes(bits, h, m, k - 1), Probe(h, k - 1, m))
  }

  function SetGrams(bits: seq<Byte>, grams: seq<Pair>, m: nat, k: nat): (r: seq<Byte>)
    requires m > 0 && |bits| == Ceil8(m)
    ensures |r| == |bits|
    decreases |grams|
  {
    if grams == [] then bits
    else SetProbes(SetGrams(bits, grams[..|grams| - 1], m, k), grams[|grams| - 1], m, k)
  }

  function Zeros(n: nat): (r: seq<Byte>)
    ensures |r| == n
  {
    seq(n, _ => 0)
  }

  /** The value of a built filter. */
  datatype Filter = Filter(ngram: nat, k: nat, mBits: nat, bits: seq<Byte>)
  {
    /** The fields fit their types and the bit array its size. */
    predicate Sized() {
      ngram < 256 && k < U32 && mBits < U64 && |bits| == Ceil8(mBits)
    }

    /** A filter that was built. */
    predicate Valid() {
      Sized() && ngram > 0 && k > 0 && mBits > 0
    }

    /** No probe divides by zero. */
    predicate CanProbe() {
      Sized() && (k > 0 ==> mBits > 0)
    }

    /** Asking for the pattern ends with an answer and not in a panic. */
    predicate Answers(pattern: seq<Byte>) {
      ngram > 0 && (|pattern| < ngram || CanProbe())
    }

    /** Every probe of the gram is set. */
    predicate Admits(h: Pair)
      requires CanProbe()
    {
      forall i: nat | i < k :: IsSet(bits, Probe(h, i, mBits))
    }

    /** The pattern is too short to tell, or every gram of it is admitted. */
    predicate MayContain(hash: Hash, pattern: seq<Byte>)
      requires Answers(pattern)
    {
      forall w | w in Windows(pattern, ngram) :: Admits(hash(w))
    }
  }

  /** The probes without intermediate wrapping. */
  lemma ProbeWrapsOnce(h: Pair, i: nat, m: nat)
    requires m > 0
    ensures Probe(h, i, m) == (h.0 + i * h.1) % U64 % m
  {
    SumWraps(h.0, i * h.1, U64);
  }

  lemma SumWraps(a: nat, b: nat, u: nat)
    requires u > 0
    ensures (a + b % u) % u == (a + b) % u
  {
    var p, q := (a + b % u) / u, b / u;
    assert (p + q) * u == p * u + q * u;
    DivisionIsUnique(a + b, p + q, (a + b % u) % u, u);
  }

  /** Probe `i` of the window at `at` finds its bit, at `h1 + i * h2` in 64 bits and modulo
      the size, not set. */
  predicate ClearAt(f: Filter, hash: Hash, pattern: seq<Byte>, at: nat, i: nat)
    requires f.Sized()
  {
    && at + f.ngram <= |pattern| && i < f.k && f.mBits > 0
    && var (h1, h2) := hash(pattern[at..at + f.ngram]);
    && var p := (h1 + i * h2) % U64 % f.mBits;
    && !BitAt(f.bits[p / 8], p % 8)
  }

  lemma ClearIsNotSet(f: Filter, hash: Hash, pattern: seq<Byte>, at: nat, i: nat)
    requires f.CanProbe() && at + f.ngram <= |pattern| && i < f.k
    ensures ClearAt(f, hash, pattern, at, i) <==> !IsSet(f.bits, Probe(hash(pattern[at..at + f.ngram]), i, f.mBits))
  {
    ProbeWrapsOnce(hash(pattern[at..at + f.ngram]), i, f.mBits);
  }

  /** A pattern is rejected exactly when some probe of some window of it, at any position,
      finds a bit that is not set. */
  lemma RejectsExactly(f: Filter, hash: Hash, pattern: seq<Byte>)
    requires f.Answers(pattern) && f.Sized()
    ensures !f.MayContain(hash, pattern) <==> exists at: nat, i: nat :: ClearAt(f, hash, pattern, at, i)
  {
    var ws := Windows(pattern, f.ngram);
    if at: nat, i: nat :| ClearAt(f, hash, pattern, at, i) {
      ClearIsNotSet(f, hash, pattern, at, i);
      assert ws[at] in ws && !f.Admits(hash(ws[at]));
    }
    if !f.MayContain(hash, pattern) {
      var w :| w in ws && !f.Admits(hash(w));
      var at: nat :| at < |ws| && ws[at] == w;
      var i: nat :| i < f.k && !IsSet(f.bits, Probe(hash(w), i, f.mBits));
      ClearIsNotSet(f, hash, pattern, at, i);
    }
  }

  function Build(n: nat, grams: seq<Pair>, m: nat, k: nat): (f: Filter)
    requires 1 <= n < 256 && 1 <= m < U64 && 1 <= k < U32
    ensures f.Valid()
  {
    Filter(n, k, m, SetGrams(Zeros(Ceil8(m)), grams, m, k))
  }

  // ---------------------------------------------------------------- exactly the probes are set

  lemma OrInByte(b: Byte, j: nat)
    requires j < 8
    ensures Or(b, Shl(1, j)) < 256
  {
    assert Pow2(8) == 256 && Pow2(1) == 2;
    ShlBound(1, j, 1);
    Pow2Monotone(1 + j, 8);
    OrBound(b, Shl(1, j), 8);
  }

  lemma SetBitExactly(bits: seq<Byte>, p: nat, q: nat)
    requires p < 8 * |bits| && q < 8 * |bits|
    ensures IsSet(SetBit(bits, p), q) <==> IsSet(bits, q) || q == p
  {
    if q / 8 == p / 8 {
      OrBits(bits[p / 8], Shl(1, p % 8), q % 8);
      ShlBits(1, p % 8, q % 8);
      OneHasOneBit(q % 8 - p % 8);
    }
  }

  predicate Probed(h: Pair, m: nat, k: nat, p: nat)
    requires m > 0
  {
    exists i: nat :: i < k && Probe(h, i, m) == p
  }

  lemma {:induction false} SetProbesExactly(bits: seq<Byte>, h: Pair, m: nat, k: nat, q: nat)
    requires m > 0 && |bits| == Ceil8(m) && q < 8 * |bits|
    ensures IsSet(SetProbes(bits, h, m, k), q) <==> IsSet(bits, q) || Probed(h, m, k, q)
  {
    if k > 0 {
      SetProbesExactly(bits, h, m, k - 1, q);
      SetBitExactly(SetProbes(bits, h, m, k - 1), Probe(h, k - 1, m), q);
    }
  }

  lemma {:induction false} SetGramsExactly(bits: seq<Byte>, grams: seq<Pair>, m: nat, k: nat, q: nat)
    requires m > 0 && |bits| == Ceil8(m) && q < 8 * |bits|
    ensures IsSet(SetGrams(bits, grams, m, k), q) <==> IsSet(bits, q) || exists g :: g in grams && Probed(g, m, k, q)
    decreases |grams|
  {
    if grams != [] {
      var n := |grams| - 1;
      SetGramsExactly(bits, grams[..n], m, k, q);
      SetProbesExactly(SetGrams(bits, grams[..n], m, k), grams[n], m, k, q);
      assert forall g :: g in grams <==> g in grams[..n] || g == grams[n];
    }
  }

  /** In a built filter a bit is set exactly when some collected gram probes it. */
  lemma BuiltExactly(n: nat, grams: seq<Pair>, m: nat, k: nat, q: nat)
    requires 1 <= n < 256 && 1 <= m < U64 && 1 <= k < U32 && q < 8 * Ceil8(m)
    ensures IsSet(Build(n, grams, m, k).bits, q) <==> exists g :: g in grams && Probed(g, m, k, q)
  {
    SetGramsExactly(Zeros(Ceil8(m)), grams, m, k, q);
    ZeroHasNoBits(q % 8);
  }

  // ---------------------------------------------------------------- no false negatives

  lemma {:induction false} CollectKeeps(hash: Hash, grams: seq<Pair>, ws: seq<Gram>)
    ensures |grams| <= |Collect(hash, grams, ws)| && Collect(hash, grams, ws)[..|grams|] == grams
    decreases |ws|
  {
    if ws != [] {
      CollectKeeps(hash, grams, ws[..|ws| - 1]);
    }
  }

  lemma SeenStays(hash: Hash, grams: seq<Pair>, ws: seq<Gram>, h1: nat)
    requires Seen(grams, h1)
    ensures Seen(Collect(hash, grams, ws), h1)
  {
    CollectKeeps(hash, grams, ws);
    var x :| 0 <= x < |grams| && grams[x].0 == h1;
    assert Collect(hash, grams, ws)[x] == grams[x];
  }

  /** Every window's first hash is among the grams kept. */
  lemma {:induction false} CollectSees(hash: Hash, grams: seq<Pair>, ws: seq<Gram>, i: nat)
    requires i < |ws|
    ensures Seen(Collect(hash, grams, ws), hash(ws[i]).0)
    decreases |ws|
  {
    var n := |ws| - 1;
    var before, after := Collect(hash, grams, ws[..n]), Collect(hash, grams, ws);
    if i < n {
      CollectSees(hash, grams, ws[..n], i);
      var j :| 0 <= j < |before| && before[j].0 == hash(ws[i]).0;
      assert after[j] == before[j];
    } else if !Seen(before, hash(ws[n]).0) {
      assert after[|before|] == hash(ws[n]);
    }
  }

  /** Every kept pair is the hash of some gram of width `n`. */
  ghost predicate AreHashes(hash: Hash, n: nat, text: seq<Byte> -> bool, grams: seq<Pair>) {
    forall i | 0 <= i < |grams| :: IsHashOf(hash, n, text, grams[i])
  }

  ghost predicate IsHashOf(hash: Hash, n: nat, text: seq<Byte> -> bool, pair: Pair) {
    exists g: Gram :: |g| == n && text(g) && hash(g) == pair
  }

  lemma {:induction false} CollectHashes(hash: Hash, n: nat, text: seq<Byte> -> bool, grams: seq<Pair>, ws: seq<Gram>)
    requires AreHashes(hash, n, text, grams) && forall i | 0 <= i < |ws| :: |ws[i]| == n && text(ws[i])
    ensures AreHashes(hash, n, text, Collect(hash, grams, ws))
    decreases |ws|
  {
    if ws != [] {
      CollectHashes(hash, n, text, grams, ws[..|ws| - 1]);
      assert IsHashOf(hash, n, text, hash(ws[|ws| - 1]));
    }
  }

  lemma {:induction false} CollectBodiesHashes(hash: Hash, n: nat, text: seq<Byte> -> bool, bodies: seq<seq<Byte>>)
    requires n > 0 && Closed(text) && AllTexts(bodies, text)
    ensures AreHashes(hash, n, text, CollectBodies(hash, n, bodies))
    decreases |bodies|
  {
    if bodies != [] {
      var last := |bodies| - 1;
      CollectBodiesHashes(hash, n, text, bodies[..last]);
      CollectHashes(hash, n, text, CollectBodies(hash, n, bodies[..last]), Windows(bodies[last], n));
    }
  }

  lemma {:induction false} SeenLater(hash: Hash, n: nat, bodies: seq<seq<Byte>>, h1: nat)
    requires n > 0 && bodies != [] && Seen(CollectBodies(hash, n, bodies[..|bodies| - 1]), h1)
    ensures Seen(CollectBodies(hash, n, bodies), h1)
  {
    SeenStays(hash, CollectBodies(hash, n, bodies[..|bodies| - 1]), Windows(bodies[|bodies| - 1], n), h1);
  }

  lemma {:induction false} SeenInLast(hash: Hash, n: nat, bodies: seq<seq<Byte>>, i: nat)
    requires n > 0 && bodies != [] && i < |Windows(bodies[|bodies| - 1], n)|
    ensures Seen(CollectBodies(hash, n, bodies), hash(Windows(bodies[|bodies| - 1], n)[i]).0)
  {
    CollectSees(hash, CollectBodies(hash, n, bodies[..|bodies| - 1]), Windows(bodies[|bodies| - 1], n), i);
  }

  /** The first hash of every window of every body is seen. */
  lemma {:induction false} BodiesSeen(hash: Hash, n: nat, bodies: seq<seq<Byte>>, j: nat, i: nat)
    requires n > 0 && j < |bodies| && i < |Windows(bodies[j], n)|
    ensures Seen(CollectBodies(hash, n, bodies), hash(Windows(bodies[j], n)[i]).0)
    decreases |bodies|
  {
    if j < |bodies| - 1 {
      BodiesSeen(hash, n, bodies[..|bodies| - 1], j, i);
      SeenLater(hash, n, bodies, hash(Windows(bodies[j], n)[i]).0);
    } else {
      SeenInLast(hash, n, bodies, i);
    }
  }

  /** When the first hash decides the second, every window's pair is kept. */
  lemma BodiesKept(hash: Hash, n: nat, text: seq<Byte> -> bool, bodies: seq<seq<Byte>>, j: nat, i: nat)
    requires n > 0 && Closed(text) && AllTexts(bodies, text) && FirstHashDecides(hash, n, text)
    requires j < |bodies| && i < |Windows(bodies[j], n)|
    ensures hash(Windows(bodies[j], n)[i]) in CollectBodies(hash, n, bodies)
  {
    var grams, w := CollectBodies(hash, n, bodies), Windows(bodies[j], n)[i];
    BodiesSeen(hash, n, bodies, j, i);
    CollectBodiesHashes(hash, n, text, bodies);
    var x :| 0 <= x < |grams| && grams[x].0 == hash(w).0;
    assert IsHashOf(hash, n, text, grams[x]);
    var g: Gram :| |g| == n && text(g) && hash(g) == grams[x];
    assert text(w) && hash(g).1 == hash(w).1;
  }

  /** A window of a substring is a window of the body. */
  lemma WindowOfSubstring(pattern: seq<Byte>, body: seq<Byte>, at: nat, n: nat, i: nat)
    requires n > 0 && OccursAt(pattern, body, at) && i < |Windows(pattern, n)|
    ensures at + i < |Windows(body, n)| && Windows(pattern, n)[i] == Windows(body, n)[at + i]
  {
    SliceOfSlice(body, at, |pattern|, i, n);
  }

  lemma KeptIsAdmitted(n: nat, grams: seq<Pair>, m: nat, k: nat, h: Pair)
    requires 1 <= n < 256 && 1 <= m < U64 && 1 <= k < U32 && h in grams
    ensures Build(n, grams, m, k).Admits(h)
  {
    forall i: nat | i < k ensures IsSet(Build(n, grams, m, k).bits, Probe(h, i, m)) {
      BuiltExactly(n, grams, m, k, Probe(h, i, m));
      assert Probed(h, m, k, Probe(h, i, m));
    }
  }

  /** A filter of any size never rules out a pattern that occurs in a body. */
  ghost predicate NoFalseNegatives(hash: Hash, n: nat, text: seq<Byte> -> bool)
    requires 1 <= n < 256
  {
    forall bodies: seq<seq<Byte>>, pattern: seq<Byte>, m: nat, k: nat |
      1 <= m < U64 && 1 <= k < U32 && AllTexts(bodies, text) && Occurs(pattern, bodies) ::
      Build(n, CollectBodies(hash, n, bodies), m, k).MayContain(hash, pattern)
  }

  lemma {:induction false} OccurringIsAdmitted(
    hash: Hash, n: nat, text: seq<Byte> -> bool, bodies: seq<seq<Byte>>, pattern: seq<Byte>, m: nat, k: nat)
    requires 1 <= n < 256 && 1 <= m < U64 && 1 <= k < U32
    requires Closed(text) && AllTexts(bodies, text) && Occurs(pattern, bodies) && FirstHashDecides(hash, n, text)
    ensures Build(n, CollectBodies(hash, n, bodies), m, k).MayContain(hash, pattern)
  {
    forall i: nat | i < |Windows(pattern, n)| ensures hash(Windows(pattern, n)[i]) in CollectBodies(hash, n, bodies) {
      WindowIsKept(hash, n, text, bodies, pattern, i);
    }
    KeptPatternIsAdmitted(hash, n, CollectBodies(hash, n, bodies), pattern, m, k);
  }

  lemma {:induction false} WindowIsKept(hash: Hash, n: nat, text: seq<Byte> -> bool, bodies: seq<seq<Byte>>, pattern: seq<Byte>, i: nat)
    requires 1 <= n < 256 && i < |Windows(pattern, n)|
    requires Closed(text) && AllTexts(bodies, text) && Occurs(pattern, bodies) && FirstHashDecides(hash, n, text)
    ensures hash(Windows(pattern, n)[i]) in CollectBodies(hash, n, bodies)
  {
    var j, at: nat :| 0 <= j < |bodies| && OccursAt(pattern, bodies[j], at);
    WindowOfSubstring(pattern, bodies[j], at, n, i);
    BodiesKept(hash, n, text, bodies, j, at + i);
  }

  lemma {:induction false} KeptPatternIsAdmitted(hash: Hash, n: nat, grams: seq<Pair>, pattern: seq<Byte>, m: nat, k: nat)
    requires 1 <= n < 256 && 1 <= m < U64 && 1 <= k < U32
    requires forall i: nat | i < |Windows(pattern, n)| :: hash(Windows(pattern, n)[i]) in grams
    ensures Build(n, grams, m, k).MayContain(hash, pattern)
  {
    var f := Build(n, grams, m, k);
    forall w | w in Windows(pattern, n) ensures f.Admits(hash(w)) {
      KeptIsAdmitted(n, grams, m, k, hash(w));
    }
  }

  // ---------------------------------------------------------------- and only then

  lemma WrapsOnce(x: nat, m: nat)
    requires 0 < m && x < 2 * m
    ensures x % m == if x < m then x else x - m
  {
    if x < m {
      SmallRemainder(x, m);
    } else {
      RemainderAbove(x, m);
    }
  }

  /** Two words differ modulo all but one of the largest sizes. */
  lemma ApartModulo(x: nat, y: nat, m: nat)
    requires x < U64 && y < U64 && x != y && U64 - 3 <= m < U64
    requires m != x - y && m != y - x
    ensures x % m != y % m
  {
    WrapsOnce(x, m);
    WrapsOnce(y, m);
  }

  /** A size under which `z` collides with neither `x` nor `y`. */
  lemma SizeApart(x: nat, y: nat, z: nat) returns (m: nat)
    requires x < U64 && y < U64 && z < U64 && z != x && z != y
    ensures 1 <= m < U64 && z % m != x % m && z % m != y % m
  {
    m := U64 - 1;
    if m == z - x || m == x - z || m == z - y || m == y - z {
      m := U64 - 2;
      if m == z - x || m == x - z || m == z - y || m == y - z {
        m := U64 - 3;
      }
    }
    ApartModulo(z, x, m);
    ApartModulo(z, y, m);
  }

  lemma OneWindow(g: Gram)
    requires |g| > 0
    ensures Windows(g, |g|) == [g]
  {
    assert g[0..|g|] == g;
  }

  lemma CollectTwo(hash: Hash, a: Gram, b: Gram)
    requires |a| == |b| > 0 && hash(a).0 == hash(b).0
    ensures CollectBodies(hash, |a|, [a, b]) == [hash(a)]
  {
    OneWindow(a);
    OneWindow(b);
    assert [a, b][..1] == [a] && [a][..0] == [] && [b][..0] == [];
    assert CollectBodies(hash, |a|, []) == [];
    assert Collect(hash, [], [a]) == [hash(a)];
    assert CollectBodies(hash, |a|, [a]) == [hash(a)];
    assert [hash(a)][0].0 == hash(b).0;
    assert Collect(hash, [hash(a)], [b]) == [hash(a)];
  }

  /** A gram dropped for its first hash is missed under some size with two probes. */
  lemma DroppedGramIsMissed(hash: Hash, a: Gram, b: Gram) returns (m: nat)
    requires 1 <= |a| == |b| < 256 && IsHash(hash)
    requires hash(a).0 == hash(b).0 && hash(a).1 != hash(b).1 && hash(b).1 != 0
    ensures 1 <= m < U64 && Occurs(b, [a, b])
    ensures !Build(|a|, CollectBodies(hash, |a|, [a, b]), m, 2).MayContain(hash, b)
  {
    var ha, hb := hash(a), hash(b);
    var x, y, z := ha.0, (ha.0 + ha.1) % U64, (hb.0 + hb.1) % U64;
    DistinctSums(ha.0, ha.1, hb.1);
    m := SizeApart(x, y, z);
    ProbesOfTwo(ha, m);
    ProbesOfTwo(hb, m);
    CollectTwo(hash, a, b);
    OneWindow(b);
    assert OccursAt(b, [a, b][1], 0) by { assert b[0..|b|] == b; }
    var f := Build(|a|, [ha], m, 2);
    BuiltExactly(|a|, [ha], m, 2, Probe(hb, 1, m));
    assert !IsSet(f.bits, Probe(hb, 1, m));
    assert b in Windows(b, |b|);
  }

  lemma DistinctSums(h: nat, x: nat, y: nat)
    requires h < U64 && x < U64 && y < U64 && x != y && y != 0
    ensures (h + y) % U64 != h && (h + y) % U64 != (h + x) % U64
  {
    WrapsOnce(h + y, U64);
    WrapsOnce(h + x, U64);
  }

  lemma ProbesOfTwo(h: Pair, m: nat)
    requires m > 0 && h.0 < U64 && h.1 < U64
    ensures Probe(h, 0, m) == h.0 % m && Probe(h, 1, m) == ((h.0 + h.1) % U64) % m
  {
    SmallRemainder(0 * h.1, U64);
    SmallRemainder(1 * h.1, U64);
    SmallRemainder(h.0, U64);
  }

  /** The filter has no false negatives, for any bodies, pattern and size, if and
      only if grams with equal first hashes have equal second hashes. */
  lemma NoFalseNegativesExactly(hash: Hash, n: nat, text: seq<Byte> -> bool)
    requires 1 <= n < 256 && IsHash(hash) && Closed(text)
    ensures NoFalseNegatives(hash, n, text) <==> FirstHashDecides(hash, n, text)
  {
    if FirstHashDecides(hash, n, text) {
      forall bodies: seq<seq<Byte>>, pattern: seq<Byte>, m: nat, k: nat |
        1 <= m < U64 && 1 <= k < U32 && AllTexts(bodies, text) && Occurs(pattern, bodies)
        ensures Build(n, CollectBodies(hash, n, bodies), m, k).MayContain(hash, pattern)
      {
        OccurringIsAdmitted(hash, n, text, bodies, pattern, m, k);
      }
    } else {
      var a: Gram, b: Gram :|
        |a| == n && |b| == n && text(a) && text(b) && hash(a).0 == hash(b).0 && hash(a).1 != hash(b).1;
      assert AllTexts([a, b], text) && AllTexts([b, a], text);
      if hash(b).1 != 0 {
        var m := DroppedGramIsMissed(hash, a, b);
      } else {
        var m := DroppedGramIsMissed(hash, b, a);
      }
    }
  }

  // ---------------------------------------------------------------- sidecar format

  function Serialize(f: Filter): seq<Byte>
    requires f.Valid()
  {
    MAGIC + [FORMAT_VERSION, f.ngram] + WordBytes(f.k, 4, BigEndian) + WordBytes(f.mBits, 8, BigEndian) + f.bits
  }

  /** Bytes after the bit array are ignored. */
  function Parse(buf: seq<Byte>): Option<Filter> {
    if |buf| < HEADER_LEN || buf[..4] != MAGIC || buf[4] != FORMAT_VERSION then None
    else
      var m := BytesValue(buf[10..18], BigEndian);
      if |buf| < HEADER_LEN + Ceil8(m) then None
      else Some(Filter(buf[5], BytesValue(buf[6..10], BigEndian), m, buf[HEADER_LEN..HEADER_LEN + Ceil8(m)]))
  }

  lemma WordSizes()
    ensures Pow2(32) == U32 && Pow2(64) == U64
  {
    assert Pow2(8) == 256;
    Pow2Add(8, 8);
    Pow2Add(16, 16);
    Pow2Add(32, 32);
  }

  /** A filter is recovered from its sidecar, whatever follows it. */
  lemma SidecarRoundTrip(f: Filter, extra: seq<Byte>)
    requires f.Valid()
    ensures Parse(Serialize(f) + extra) == Some(f)
  {
    var buf, k, m := Serialize(f) + extra, WordBytes(f.k, 4, BigEndian), WordBytes(f.mBits, 8, BigEndian);
    WordSizes();
    BytesRoundTrip(f.k, 4, BigEndian);
    BytesRoundTrip(f.mBits, 8, BigEndian);
    SidecarSlices(f.ngram, k, m, f.bits, extra);
  }

  /** The sidecar byte by byte: magic, version, n-gram, the probe count and the size in
      network order, then the bit array. */
  lemma SidecarLayout(f: Filter, j: nat)
    requires f.Valid()
    ensures var buf := Serialize(f);
      && |buf| == 18 + |f.bits| && buf[..4] == [0x53, 0x42, 0x4C, 0x4D] && buf[4] == 1 && buf[5] == f.ngram
      && (j < 4 ==> buf[6..10][j] == f.k / Pow2(8 * (3 - j)) % 256)
      && (j < 8 ==> buf[10..18][j] == f.mBits / Pow2(8 * (7 - j)) % 256)
      && buf[18..] == f.bits
  {
    var buf, k, m := Serialize(f), WordBytes(f.k, 4, BigEndian), WordBytes(f.mBits, 8, BigEndian);
    SidecarSlices(f.ngram, k, m, f.bits, []);
    assert buf + [] == buf;
    if j < 4 {
      NetworkByte(f.k, 4, j);
    }
    if j < 8 {
      NetworkByte(f.mBits, 8, j);
    }
  }

  lemma NetworkByte(v: nat, k: nat, j: nat)
    requires j < k
    ensures WordBytes(v, k, BigEndian)[j] == v / Pow2(8 * (k - 1 - j)) % 256
  {
    assert WordBytes(v, k, BigEndian)[j] == ByteOf(v, k - 1 - j);
    LowAndHigh(v, 8 * (k - 1 - j));
  }

  lemma SidecarSlices(ngram: Byte, k: seq<Byte>, m: seq<Byte>, bits: seq<Byte>, extra: seq<Byte>)
    requires |k| == 4 && |m| == 8
    ensures var buf := MAGIC + [FORMAT_VERSION, ngram] + k + m + bits + extra;
      && buf[..4] == MAGIC && buf[4] == FORMAT_VERSION && buf[5] == ngram
      && buf[6..10] == k && buf[10..18] == m && buf[18..18 + |bits|] == bits
  {
  }

  /** Any bytes that parse give a filter of the right size.  It answers every pattern
      exactly when its windows are not empty and it has bits for its probes. */
  lemma ParsedAnswersExactly(buf: seq<Byte>)
    requires Parse(buf).Some?
    ensures var f := Parse(buf).value;
      f.Sized() && ((forall pattern :: f.Answers(pattern)) <==> f.ngram > 0 && (f.k > 0 ==> f.mBits > 0))
  {
    var f := Parse(buf).value;
    WordSizes();
    BytesValueBound(buf[6..10], BigEndian);
    BytesValueBound(buf[10..18], BigEndian);
    assert !f.Answers(buf + seq(f.ngram, _ => 0)) <==> f.ngram == 0 || (f.k > 0 && f.mBits == 0);
  }

  /** Eighteen bytes that parse to a filter with empty windows, and eighteen that parse to
      one without bits. */
  lemma UnusableSidecarsParse()
    ensures var f := Parse(MAGIC + [FORMAT_VERSION, 0] + Zeros(12)); f.Some? && !f.value.Answers([])
    ensures var f := Parse(MAGIC + [FORMAT_VERSION, 1] + [0, 0, 0, 1] + Zeros(8)); f.Some? && !f.value.Answers([0])
  {
    var a, b := MAGIC + [FORMAT_VERSION, 0] + Zeros(12), MAGIC + [FORMAT_VERSION, 1] + [0, 0, 0, 1] + Zeros(8);
    NoBytesNoValue(8);
    assert a[10..18] == Zeros(8) && b[10..18] == Zeros(8) && b[6..10] == [0, 0, 0, 1];
    assert BytesValue([0, 0, 0, 1], BigEndian) == 1 by {
      assert [0, 0, 0, 1][..3] == [0, 0, 0] && [0, 0, 0] == Zeros(3);
      NoBytesNoValue(3);
    }
  }

  lemma {:induction false} NoBytesNoValue(n: nat)
    ensures BytesValue(Zeros(n), BigEndian) == 0
  {
    if n > 0 {
      NoBytesNoValue(n - 1);
      assert Zeros(n)[..n - 1] == Zeros(n - 1);
    }
  }

  /** End to end: no pattern that occurs in a body is ruled out, by the filter built
      over the bodies or by the one read back from its sidecar. */
  lemma NoBlockIsSkipped(
    hash: Hash, n: nat, text: seq<Byte> -> bool, bodies: seq<seq<Byte>>, pattern: seq<Byte>, m: nat, k: nat)
    requires 1 <= n < 256 && 1 <= m < U64 && 1 <= k < U32
    requires Closed(text) && AllTexts(bodies, text) && Occurs(pattern, bodies) && FirstHashDecides(hash, n, text)
    ensures var f := Build(n, CollectBodies(hash, n, bodies), m, k);
      var back := Parse(Serialize(f));
      f.MayContain(hash, pattern) && back.Some? && back.value.Valid() && back.value.MayContain(hash, pattern)
  {
    var f := Build(n, CollectBodies(hash, n, bodies), m, k);
    OccurringIsAdmitted(hash, n, text, bodies, pattern, m, k);
    SidecarRoundTrip(f, []);
    assert Serialize(f) + [] == Serialize(f);
  }

  // ---------------------------------------------------------------- the program's objects

  function Saturated(n: nat): nat {
    if n > USIZE_MAX then USIZE_MAX else n
  }

  function FirstHashes(grams: seq<Pair>): set<nat> {
    set i | 0 <= i < |grams| :: grams[i].0
  }

  class BodyBloomBuilder {
    const ngram: nat
    var seen: set<nat>
    var grams: seq<Pair>

    ghost predicate Valid()
      reads this
    {
      1 <= ngram < 256 && seen == FirstHashes(grams)
    }

    constructor (cfgNgram: nat)
      ensures Valid() && grams == []
      ensures ngram == if cfgNgram == 0 then 1 else if cfgNgram > 255 then 255 else cfgNgram
    {
      ngram := if cfgNgram == 0 then 1 else if cfgNgram > 255 then 255 else cfgNgram;
      seen, grams := {}, [];
    }

    /** One window: already seen, refused for space, or kept. */
    method AddGram(pair: Pair, maxBytes: nat) returns (ok: bool)
      requires Valid()
      modifies this
      ensures Valid()
      ensures ok <==> Seen(old(grams), pair.0) || Saturated((|old(grams)| + 1) * BYTES_PER_DISTINCT_GRAM) <= maxBytes
      ensures grams == if !ok || Seen(old(grams), pair.0) then old(grams) else old(grams) + [pair]
    {
      if pair.0 in seen {
        return true;
      }
      var nextBytes := Saturated((|grams| + 1) * BYTES_PER_DISTINCT_GRAM);
      if nextBytes > maxBytes {
        return false;
      }
      FirstHashesAppend(grams, pair);
      seen := seen + {pair.0};
      grams := grams + [pair];
      return true;
    }

    /** All grams of the body are collected, or `false` at the first one without room. */
    method AddBodyBounded(hash: Hash, body: seq<Byte>, maxBytes: nat) returns (ok: bool)
      requires Valid()
      modifies this
      ensures Valid()
      ensures ok ==> grams == Collect(hash, old(grams), Windows(body, ngram))
      ensures !ok ==> exists j :: Refused(hash, old(grams), Windows(body, ngram), j, grams, maxBytes)
    {
      if |body| < ngram {
        return true;
      }
      ghost var ws := Windows(body, ngram);
      assert ws[..0] == [];
      for i := 0 to |body| - ngram + 1
        invariant Valid() && grams == Collect(hash, old(grams), ws[..i])
      {
        var pair := hash(body[i..i + ngram]);
        assert body[i..i + ngram] == ws[i] && ws[..i + 1][..i] == ws[..i];
        ok := AddGram(pair, maxBytes);
        if !ok {
          assert Refused(hash, old(grams), ws, i, grams, maxBytes);
          return;
        }
      }
      assert ws[..|body| - ngram + 1] == ws;
      return true;
    }

    method AddBody(hash: Hash, body: seq<Byte>)
      requires Valid()
      modifies this
      ensures Valid() && grams == Collect(hash, old(grams), Windows(body, ngram))
    {
      var ok := AddBodyBounded(hash, body, USIZE_MAX);
      assert ok;
    }

    method EstimatedBytes() returns (n: nat)
      ensures n == Saturated(|grams| * BYTES_PER_DISTINCT_GRAM)
    {
      n := Saturated(|grams| * BYTES_PER_DISTINCT_GRAM);
    }

    /** The sizes `(m, k)` come from the floating-point formula. */
    method FinishBounded(m: nat, k: nat, maxBytes: nat) returns (r: BodyBloom?)
      requires Valid() && 1 <= m < U64 && 1 <= k < U32
      ensures r == null <==>
        Saturated(Saturated(|grams| * BYTES_PER_DISTINCT_GRAM) + Ceil8(m)) > maxBytes
      ensures r != null ==> fresh(r) && fresh(r.bits) && r.Valid() && r.View() == Build(ngram, grams, m, k)
    {
      var estimated := EstimatedBytes();
      if Saturated(estimated + Ceil8(m)) > maxBytes {
        return null;
      }
      var bloom := new BodyBloom(ngram, k, m);
      assert grams[..0] == [];
      for i := 0 to |grams|
        invariant bloom.Valid() && fresh(bloom) && fresh(bloom.bits)
        invariant bloom.View() == Build(ngram, grams[..i], m, k)
      {
        assert grams[..i + 1][..i] == grams[..i];
        bloom.SetGram(grams[i]);
      }
      assert grams[..|grams|] == grams;
      r := bloom;
    }
  }

  /** Window `j` is new and there is no room for it; the ones before were collected. */
  ghost predicate Refused(hash: Hash, before: seq<Pair>, ws: seq<Gram>, j: int, after: seq<Pair>, maxBytes: nat) {
    && 0 <= j < |ws|
    && after == Collect(hash, before, ws[..j])
    && !Seen(after, hash(ws[j]).0)
    && Saturated((|after| + 1) * BYTES_PER_DISTINCT_GRAM) > maxBytes
  }

  lemma FirstHashesAppend(grams: seq<Pair>, pair: Pair)
    ensures FirstHashes(grams + [pair]) == FirstHashes(grams) + {pair.0}
  {
    var all := grams + [pair];
    forall h | h in FirstHashes(grams) + {pair.0} ensures h in FirstHashes(all) {
      if h in FirstHashes(grams) {
        var i :| 0 <= i < |grams| && grams[i].0 == h;
        assert all[i].0 == h;
      } else {
        assert all[|grams|].0 == h;
      }
    }
  }

  class BodyBloom {
    const ngram: nat
    const k: nat
    const mBits: nat
    const bits: array<Byte>

    ghost predicate Valid()
      reads this, bits
    {
      View().Valid()
    }

    ghost function View(): Filter
      reads this, bits
    {
      Filter(ngram, k, mBits, bits[..])
    }

    constructor (ngram: nat, k: nat, mBits: nat)
      requires 1 <= ngram < 256 && 1 <= k < U32 && 1 <= mBits < U64
      ensures fresh(bits) && Valid() && View() == Build(ngram, [], mBits, k)
    {
      this.ngram, this.k, this.mBits := ngram, k, mBits;
      bits := new Byte[Ceil8(mBits)](_ => 0);
      new;
      assert bits[..] == Zeros(Ceil8(mBits));
    }

    constructor FromFilter(f: Filter)
      ensures fresh(bits) && View() == f
    {
      ngram, k, mBits := f.ngram, f.k, f.mBits;
      bits := new Byte[|f.bits|](i requires 0 <= i < |f.bits| => f.bits[i]);
      new;
      assert bits[..] == f.bits;
    }

    method SetGram(h: Pair)
      requires Valid()
      modifies bits
      ensures Valid()
      ensures bits[..] == SetProbes(old(bits[..]), h, mBits, k)
    {
      for i := 0 to k
        invariant bits[..] == SetProbes(old(bits[..]), h, mBits, i)
      {
        var pos := Probe(h, i, mBits);
        OrInByte(bits[pos / 8], pos % 8);
        bits[pos / 8] := Or(bits[pos / 8], Shl(1, pos % 8));
      }
    }

    method TestGram(h: Pair) returns (b: bool)
      requires View().CanProbe()
      ensures b <==> View().Admits(h)
    {
      for i := 0 to k
        invariant forall j: nat | j < i :: IsSet(bits[..], Probe(h, j, mBits))
      {
        var pos := Probe(h, i, mBits);
        ShlIsMul(1, pos % 8);
        AndOneBit(bits[pos / 8], pos % 8);
        assert bits[..][pos / 8] == bits[pos / 8];
        if And(bits[pos / 8], Shl(1, pos % 8)) == 0 {
          assert !IsSet(bits[..], pos);
          return false;
        }
      }
      return true;
    }

    /** `None` stands for the panic of a window of no bytes or a division by zero. */
    method ContainsPattern(hash: Hash, pattern: seq<Byte>) returns (r: Option<bool>)
      requires View().Sized()
      ensures r.Some? <==> View().Answers(pattern)
      ensures r.Some? ==> (r.value <==> View().MayContain(hash, pattern))
    {
      if |pattern| < ngram {
        return Some(true);
      }
      if ngram == 0 || (k > 0 && mBits == 0) {
        return None;
      }
      ghost var ws := Windows(pattern, ngram);
      for i := 0 to |pattern| - ngram + 1
        invariant forall j | 0 <= j < i :: View().Admits(hash(ws[j]))
      {
        assert pattern[i..i + ngram] == ws[i];
        var present := TestGram(hash(pattern[i..i + ngram]));
        if !present {
          assert ws[i] in ws;
          return Some(false);
        }
      }
      return Some(true);
    }

    method ToBytesBounded(maxBytes: nat) returns (r: Option<seq<Byte>>)
      requires Valid()
      ensures r == if HEADER_LEN + bits.Length > maxBytes then None else Some(Serialize(View()))
    {
      if HEADER_LEN + bits.Length > maxBytes {
        return None;
      }
      var out := MAGIC;
      out := out + [FORMAT_VERSION, ngram];
      out := out + WordBytes(k, 4, BigEndian);
      out := out + WordBytes(mBits, 8, BigEndian);
      out := out + bits[..];
      return Some(out);
    }
  }

  method FromBytes(buf: seq<Byte>) returns (r: BodyBloom?)
    ensures r == null <==> Parse(buf) == None
    ensures r != null ==> fresh(r) && fresh(r.bits) && r.View() == Parse(buf).value && r.View().Sized()
  {
    var parsed := Parse(buf);
    if parsed.None? {
      return null;
    }
    ParsedAnswersExactly(buf);
    r := new BodyBloom.FromFilter(parsed.value);
  }

  /** The one-shot build over all bodies. */
  method BuildFromBodies(hash: Hash, bodies: seq<seq<Byte>>, cfgNgram: nat, params: nat -> Pair) returns (r: BodyBloom)
    requires forall n :: 1 <= params(n).0 < U64 && 1 <= params(n).1 < U32
    ensures fresh(r) && r.Valid()
    ensures 1 <= r.ngram < 256
    ensures var grams := CollectBodies(hash, r.ngram, bodies);
      r.View() == Build(r.ngram, grams, params(|grams|).0, params(|grams|).1)
  {
    var builder := new BodyBloomBuilder(cfgNgram);
    assert bodies[..0] == [];
    for i := 0 to |bodies|
      invariant builder.Valid() && fresh(builder)
      invariant builder.grams == CollectBodies(hash, builder.ngram, bodies[..i])
    {
      assert bodies[..i + 1][..i] == bodies[..i];
      builder.AddBody(hash, bodies[i]);
    }
    assert bodies[..|bodies|] == bodies;
    var (m, k) := params(|builder.grams|);
    var built := builder.FinishBounded(m, k, USIZE_MAX);
    assert built != null;
    r := built;
  }
}
