/** Bit operations on unsigned machine words, as functions on naturals, with the
    bit-by-bit laws the stream codec rests on.  Words are kept in range by their
    users; no operation here truncates. */
module Bits {

  function Pow2(n: nat): (p: nat)
    ensures p >= 1
  {
    if n == 0 then 1 else 2 * Pow2(n - 1)
  }

  /** Bit `i` of `v`, counting from the least significant. */
  predicate BitAt(v: nat, i: nat)
    decreases i
  {
    if i == 0 then v % 2 == 1 else BitAt(v / 2, i - 1)
  }

  function Or(a: nat, b: nat): nat
    decreases a + b
  {
    if a == 0 && b == 0 then 0
    else (if a % 2 == 1 || b % 2 == 1 then 1 else 0) + 2 * Or(a / 2, b / 2)
  }

  function And(a: nat, b: nat): nat
    decreases a + b
  {
    if a == 0 || b == 0 then 0
    else (if a % 2 == 1 && b % 2 == 1 then 1 else 0) + 2 * And(a / 2, b / 2)
  }

  function Shl(v: nat, k: nat): (r: nat)
    ensures r >= v
  {
    if k == 0 then v else 2 * Shl(v, k - 1)
  }

  function Shr(v: nat, k: nat): nat {
    if k == 0 then v else Shr(v / 2, k - 1)
  }

  /** The `n` low bits set. */
  function Mask(n: nat): nat {
    Shl(1, n) - 1
  }

  // ---------------------------------------------------------------- bit laws

  lemma {:induction false} ZeroHasNoBits(i: nat)
    ensures !BitAt(0, i)
  {
    if i > 0 {
      ZeroHasNoBits(i - 1);
    }
  }

  lemma {:induction false} OrBits(a: nat, b: nat, i: nat)
    ensures BitAt(Or(a, b), i) <==> BitAt(a, i) || BitAt(b, i)
    decreases i
  {
    OrHalves(a, b);
    if i > 0 {
      OrBits(a / 2, b / 2, i - 1);
    }
  }

  lemma OrHalves(a: nat, b: nat)
    ensures Or(a, b) % 2 == (if a % 2 == 1 || b % 2 == 1 then 1 else 0)
    ensures Or(a, b) / 2 == Or(a / 2, b / 2)
  {
  }

  lemma {:induction false} AndBits(a: nat, b: nat, i: nat)
    ensures BitAt(And(a, b), i) <==> BitAt(a, i) && BitAt(b, i)
    decreases i
  {
    if a == 0 || b == 0 {
      ZeroHasNoBits(i);
    } else if i > 0 {
      AndBits(a / 2, b / 2, i - 1);
    }
  }

  lemma {:induction false} ShlBits(v: nat, k: nat, i: nat)
    ensures BitAt(Shl(v, k), i) <==> i >= k && BitAt(v, i - k)
    decreases k
  {
    if k > 0 && i > 0 {
      ShlBits(v, k - 1, i - 1);
      assert Shl(v, k) / 2 == Shl(v, k - 1);
    }
  }

  lemma {:induction false} ShrBits(v: nat, k: nat, i: nat)
    ensures BitAt(Shr(v, k), i) <==> BitAt(v, i + k)
    decreases k
  {
    if k > 0 {
      ShrBits(v / 2, k - 1, i);
    }
  }

  lemma {:induction false} ShlIsMul(v: nat, k: nat)
    ensures Shl(v, k) == v * Pow2(k)
  {
    if k > 0 {
      ShlIsMul(v, k - 1);
    }
  }

  lemma {:induction false} MaskBits(n: nat, i: nat)
    ensures BitAt(Mask(n), i) <==> i < n
    decreases n
  {
    if n == 0 {
      ZeroHasNoBits(i);
    } else if i > 0 {
      MaskBits(n - 1, i - 1);
      assert Mask(n) / 2 == Mask(n - 1);
    }
  }

  /** A number below `2^n` has no bit at or above `n`. */
  lemma {:induction false} HighBitsClear(v: nat, n: nat, i: nat)
    requires v < Pow2(n) && i >= n
    ensures !BitAt(v, i)
    decreases n
  {
    if n == 0 {
      ZeroHasNoBits(i);
    } else {
      HighBitsClear(v / 2, n - 1, i - 1);
    }
  }

  /** Two `n`-bit numbers with the same bits are equal. */
  lemma {:induction false} BitsDetermine(a: nat, b: nat, n: nat)
    requires a < Pow2(n) && b < Pow2(n)
    requires forall i: nat :: i < n ==> BitAt(a, i) == BitAt(b, i)
    ensures a == b
  {
    if n > 0 {
      assert BitAt(a, 0) == BitAt(b, 0);
      forall i: nat | i < n - 1 ensures BitAt(a / 2, i) == BitAt(b / 2, i) {
        assert BitAt(a, i + 1) == BitAt(b, i + 1);
      }
      BitsDetermine(a / 2, b / 2, n - 1);
    }
  }

  lemma {:induction false} MaskBound(v: nat, n: nat)
    ensures And(v, Mask(n)) < Pow2(n) && And(v, Mask(n)) <= v
    decreases n
  {
    if n > 0 && v > 0 {
      MaskBound(v / 2, n - 1);
      assert Mask(n) == 1 + 2 * Mask(n - 1);
    }
  }

  lemma {:induction false} OrBound(a: nat, b: nat, n: nat)
    requires a < Pow2(n) && b < Pow2(n)
    ensures Or(a, b) < Pow2(n)
    decreases n
  {
    if n > 0 {
      OrBound(a / 2, b / 2, n - 1);
    }
  }

  lemma {:induction false} ShlBound(v: nat, k: nat, n: nat)
    requires v < Pow2(n)
    ensures Shl(v, k) < Pow2(n + k)
  {
    if k > 0 {
      ShlBound(v, k - 1, n);
      assert Pow2(n + k) == 2 * Pow2(n + k - 1);
    }
  }

  lemma {:induction false} ShrBound(v: nat, k: nat, n: nat)
    requires v < Pow2(n + k)
    ensures Shr(v, k) < Pow2(n)
    decreases k
  {
    if k > 0 {
      assert Pow2(n + k) == 2 * Pow2(n + k - 1);
      ShrBound(v / 2, k - 1, n);
    }
  }

  lemma {:induction false} Pow2Monotone(m: nat, n: nat)
    requires m <= n
    ensures Pow2(m) <= Pow2(n)
  {
    if m < n {
      Pow2Monotone(m, n - 1);
    }
  }

  lemma {:induction false} Pow2Add(m: nat, n: nat)
    ensures Pow2(m + n) == Pow2(m) * Pow2(n)
  {
    if n > 0 {
      Pow2Add(m, n - 1);
      assert Pow2(m + n) == 2 * Pow2(m + n - 1);
    }
  }

  /** Or-ing disjoint words adds them: `a` below `2^k`, `b` shifted above it. */
  lemma {:induction false} OrIsAdd(a: nat, b: nat, k: nat)
    requires a < Pow2(k)
    ensures Or(a, Shl(b, k)) == a + Shl(b, k)
  {
    if k == 0 {
      OrZero(b);
    } else {
      OrIsAdd(a / 2, b, k - 1);
      assert Shl(b, k) == 2 * Shl(b, k - 1);
    }
  }

  lemma {:induction false} OrZero(b: nat)
    ensures Or(0, b) == b && Or(b, 0) == b
  {
    if b > 0 {
      OrZero(b / 2);
    }
  }

  /** A word is its high part shifted back plus its masked low part. */
  lemma {:induction false} SplitWord(v: nat, n: nat)
    ensures v == Shl(Shr(v, n), n) + And(v, Mask(n))
    decreases n
  {
    if n == 0 {
      assert Mask(0) == 0;
    } else {
      SplitWord(v / 2, n - 1);
    }
  }

  /** `(v >> k) & 1` is bit `k`. */
  lemma BitOfShift(v: nat, k: nat)
    ensures And(Shr(v, k), 1) == if BitAt(v, k) then 1 else 0
  {
    ShrBits(v, k, 0);
    assert And(Shr(v, k) / 2, 0) == 0;
  }

  lemma MaskIdentity(v: nat, n: nat)
    requires v < Pow2(n)
    ensures And(v, Mask(n)) == v
  {
    SplitWord(v, n);
    ShrBound(v, n, 0);
    ShlIsMul(0, n);
  }

  lemma {:induction false} OrCommutes(a: nat, b: nat)
    ensures Or(a, b) == Or(b, a)
    decreases a + b
  {
    if a > 0 || b > 0 {
      OrCommutes(a / 2, b / 2);
    }
  }

  lemma HighOrLow(high: nat, low: nat, k: nat)
    requires low < Pow2(k)
    ensures Or(Shl(high, k), low) == high * Pow2(k) + low
  {
    OrCommutes(Shl(high, k), low);
    OrIsAdd(low, high, k);
    ShlIsMul(high, k);
  }

  lemma LowAndHigh(v: nat, n: nat)
    ensures And(v, Mask(n)) == v % Pow2(n) && Shr(v, n) == v / Pow2(n)
  {
    SplitWord(v, n);
    ShlIsMul(Shr(v, n), n);
    MaskBound(v, n);
    DivisionIsUnique(v, Shr(v, n), And(v, Mask(n)), Pow2(n));
  }

  lemma DivisionIsUnique(v: nat, q: nat, r: nat, m: nat)
    requires r < m && v == q * m + r
    ensures q == v / m && r == v % m
  {
    var d := v / m - q;
    assert d * m == r - v % m;
    if d > 0 {
      Scaled(1, d, m);
      assert false;
    } else if d < 0 {
      Scaled(d, -1, m);
      assert false;
    }
  }

  lemma Scaled(a: int, b: int, p: nat)
    requires a <= b
    ensures a * p <= b * p
  {
  }

  lemma SevenMore(n: nat)
    ensures Pow2(n + 7) == 128 * Pow2(n)
  {
    Pow2Add(n, 7);
    assert Pow2(7) == 128;
  }

  lemma EightMore(n: nat)
    ensures Pow2(n + 8) == 256 * Pow2(n)
  {
    SevenMore(n);
    assert Pow2(n + 8) == 2 * Pow2(n + 7);
  }

  lemma {:induction false} AndOneBit(v: nat, k: nat)
    ensures And(v, Pow2(k)) == if BitAt(v, k) then Pow2(k) else 0
    decreases k
  {
    if v == 0 {
      ZeroHasNoBits(k);
    } else if k > 0 {
      AndOneBit(v / 2, k - 1);
    } else {
      assert And(v / 2, 0) == 0;
    }
  }

  lemma OneHasOneBit(d: int)
    ensures d >= 0 ==> (BitAt(1, d) <==> d == 0)
  {
    if d > 0 {
      ZeroHasNoBits(d - 1);
    }
  }

  lemma RemainderAbove(x: nat, m: nat)
    requires m <= x < 2 * m
    ensures x % m == x - m
  {
    assert x / m == 1;
  }

  lemma SmallRemainder(x: nat, m: nat)
    requires x < m
    ensures x % m == x
  {
  }
}
