/**
 * Bit arithmetic on the `int` values of MergeSortMPI.c: group sizes, ranks
 * and the masks `1 << r`, all in [0, 2^31), and `~(1 << r)`, which is negative
 * in C and is modelled by its 32-bit unsigned pattern in [2^31, 2^32).  C's
 * `&`, `|`, `~` and `<<` are written out on natural numbers; on these values
 * they agree bit for bit with the two's-complement operations on a 32-bit
 * `int`.
 */
module Bits {

  /** 2^k, the value of `1 << k`. */
  function Pow2(k: nat): (r: nat)
    ensures r >= 1
  {
    if k == 0 then 1 else 2 * Pow2(k - 1)
  }

  /** Bit i of x; bit 0 is the least significant. */
  function Bit(x: nat, i: nat): (b: nat)
    ensures b <= 1
  {
    if i == 0 then x % 2 else Bit(x / 2, i - 1)
  }

  /** `a & b`. */
  function BitAnd(a: nat, b: nat): (r: nat)
    decreases a
  {
    if a == 0 then 0
    else 2 * BitAnd(a / 2, b / 2) + (if a % 2 == 1 && b % 2 == 1 then 1 else 0)
  }

  /** `a | b`. */
  function BitOr(a: nat, b: nat): (r: nat)
    decreases a + b
  {
    if a == 0 then b
    else if b == 0 then a
    else 2 * BitOr(a / 2, b / 2) + (if a % 2 == 1 || b % 2 == 1 then 1 else 0)
  }

  /** 2^31: every non-negative 32-bit `int` is below it. */
  const IntLimit: nat := 0x8000_0000

  /** -2^31, the smallest 32-bit `int`. */
  const IntMin: int := -0x8000_0000

  /** `~m` on a 32-bit `int`, read as its unsigned bit pattern. */
  function BitNot32(m: nat): (r: nat)
    requires m < 2 * IntLimit
  {
    2 * IntLimit - 1 - m
  }

  /** Base-2 logarithm, rounded down (`log2` of the group size, which is exact for a power of two). */
  function Log2(x: nat): (k: nat)
  {
    if x <= 1 then 0 else 1 + Log2(x / 2)
  }

  /** `is_power_of_2`: `x > 0 && !(x & (x - 1))`. */
  predicate IsPowerOf2(x: int): (b: bool)
  {
    x > 0 && BitAnd(x, x - 1) == 0
  }

  // ---------------------------------------------------------------------------
  // Powers of two

  lemma {:induction false} Pow2Add(a: nat, b: nat)
    ensures Pow2(a + b) == Pow2(a) * Pow2(b)
  {
    if a > 0 {
      Pow2Add(a - 1, b);
    }
  }

  lemma {:induction false} Pow2Monotonic(a: nat, b: nat)
    ensures a < b <==> Pow2(a) < Pow2(b)
  {
    if a > 0 && b > 0 {
      Pow2Monotonic(a - 1, b - 1);
    } else if b > 0 {
      Pow2Monotonic(0, b - 1);
    } else if a > 0 {
      Pow2Monotonic(a - 1, 0);
    }
  }

  /** 2^31 and 2^32 as numbers. */
  lemma Pow2Int32()
    ensures Pow2(31) == IntLimit && Pow2(32) == 2 * IntLimit
  {
    assert Pow2(4) == 16;
    Pow2Add(4, 4);
    Pow2Add(8, 8);
    Pow2Add(16, 16);
    Pow2Add(16, 15);
    Pow2Add(8, 7);
    Pow2Add(4, 3);
  }

  /** Every shift `1 << k` with k < 31 stays inside a non-negative `int`. */
  lemma Pow2BelowIntLimit(k: nat)
    requires k < 31
    ensures Pow2(k) < IntLimit
  {
    Pow2Int32();
    Pow2Monotonic(k, 31);
  }

  lemma {:induction false} Log2OfPow2(k: nat)
    ensures Log2(Pow2(k)) == k
  {
    if k > 0 {
      Log2OfPow2(k - 1);
    }
  }

  // ---------------------------------------------------------------------------
  // The bitwise operators, bit by bit

  lemma {:induction false} BitOfZero(i: nat)
    ensures Bit(0, i) == 0
  {
    if i > 0 {
      BitOfZero(i - 1);
    }
  }

  /** `a & b` has bit i set exactly when both a and b do. */
  lemma {:induction false} BitAndAt(a: nat, b: nat, i: nat)
    ensures Bit(BitAnd(a, b), i) == (if Bit(a, i) == 1 && Bit(b, i) == 1 then 1 else 0)
    decreases i
  {
    if a == 0 {
      BitOfZero(i);
    } else if i > 0 {
      BitAndAt(a / 2, b / 2, i - 1);
    }
  }

  /** `a | b` has bit i set exactly when a or b does. */
  lemma {:induction false} BitOrAt(a: nat, b: nat, i: nat)
    ensures Bit(BitOr(a, b), i) == (if Bit(a, i) == 1 || Bit(b, i) == 1 then 1 else 0)
    decreases i
  {
    if a == 0 {
      BitOfZero(i);
    } else if b == 0 {
      BitOfZero(i);
    } else if i > 0 {
      BitOrAt(a / 2, b / 2, i - 1);
    }
  }

  /** `~m` flips each of the 32 bits of m. */
  lemma {:induction false} BitNot32At(m: nat, i: nat)
    requires m < 2 * IntLimit && i < 32
    ensures Bit(BitNot32(m), i) == 1 - Bit(m, i)
  {
    Pow2Int32();
    ComplementAt(32, m, i);
  }

  lemma {:induction false} ComplementAt(n: nat, m: nat, i: nat)
    requires m < Pow2(n) && i < n
    ensures Bit(Pow2(n) - 1 - m, i) == 1 - Bit(m, i)
    decreases i
  {
    var c := Pow2(n) - 1 - m;
    assert c % 2 == 1 - m % 2 by {
      assert Pow2(n) == 2 * Pow2(n - 1);
    }
    if i > 0 {
      assert c / 2 == Pow2(n - 1) - 1 - m / 2 by {
        assert Pow2(n) == 2 * Pow2(n - 1);
      }
      ComplementAt(n - 1, m / 2, i - 1);
    }
  }

  /** A number with bit r set is at least 2^r. */
  lemma {:induction false} BitSetBound(x: nat, r: nat)
    requires Bit(x, r) == 1
    ensures Pow2(r) <= x
  {
    if r > 0 {
      BitSetBound(x / 2, r - 1);
    }
  }

  /** Adding 2^r to x always flips bit r (a carry only reaches higher bits). */
  lemma {:induction false} AddPow2FlipsBit(x: nat, r: nat)
    ensures Bit(x + Pow2(r), r) == 1 - Bit(x, r)
  {
    if r > 0 {
      assert (x + Pow2(r)) / 2 == x / 2 + Pow2(r - 1);
      AddPow2FlipsBit(x / 2, r - 1);
    }
  }

  /** `x & (2^n - 1)` is x itself when x has at most n bits. */
  lemma {:induction false} AllOnesMask(x: nat, n: nat)
    requires x < Pow2(n)
    ensures BitAnd(x, Pow2(n) - 1) == x
  {
    if x > 0 {
      var half := Pow2(n - 1);
      assert n > 0 && Pow2(n) == 2 * half;
      var m := Pow2(n) - 1;
      assert m % 2 == 1 && m / 2 == half - 1;
      assert x / 2 < half;
      AllOnesMask(x / 2, n - 1);
      assert BitAnd(x, m) == 2 * BitAnd(x / 2, m / 2) + x % 2;
    }
  }

  /** `x & (2^n - 1 - 2^r)` clears bit r of x and keeps every other bit. */
  lemma {:induction false} ClearBitMask(x: nat, n: nat, r: nat)
    requires r < n && x < Pow2(n)
    ensures Pow2(r) < Pow2(n)
    ensures BitAnd(x, Pow2(n) - 1 - Pow2(r)) == if Bit(x, r) == 1 then x - Pow2(r) else x
    decreases r
  {
    var m := Pow2(n) - 1 - Pow2(r);
    Pow2Monotonic(r, n);
    if x > 0 {
      if r == 0 {
        assert m % 2 == 0 && m / 2 == Pow2(n - 1) - 1;
        AllOnesMask(x / 2, n - 1);
      } else {
        assert m % 2 == 1 && m / 2 == Pow2(n - 1) - 1 - Pow2(r - 1);
        ClearBitMask(x / 2, n - 1, r - 1);
        assert Bit(x, r) == Bit(x / 2, r - 1);
      }
    } else {
      BitOfZero(r);
    }
  }

  /** `x | 2^r` sets bit r of x and keeps every other bit. */
  lemma {:induction false} SetBitMask(x: nat, r: nat)
    ensures BitOr(x, Pow2(r)) == if Bit(x, r) == 1 then x else x + Pow2(r)
  {
    if x > 0 {
      if r == 0 {
        assert BitOr(x / 2, 0) == x / 2;
      } else {
        SetBitMask(x / 2, r - 1);
      }
    } else {
      BitOfZero(r);
    }
  }

  // ---------------------------------------------------------------------------
  // is_power_of_2

  lemma {:induction false} AndSelf(x: nat)
    ensures BitAnd(x, x) == x
  {
    if x > 0 {
      AndSelf(x / 2);
    }
  }

  lemma {:induction false} PowerOf2HasNoLowerBits(k: nat)
    ensures BitAnd(Pow2(k), Pow2(k) - 1) == 0
  {
    if k > 0 {
      assert (Pow2(k) - 1) / 2 == Pow2(k - 1) - 1;
      PowerOf2HasNoLowerBits(k - 1);
    }
  }

  lemma {:induction false} SingleBitIsPowerOf2(x: nat)
    requires x > 0 && BitAnd(x, x - 1) == 0
    ensures x == Pow2(Log2(x))
  {
    if x > 1 {
      if x % 2 == 1 {
        assert (x - 1) / 2 == x / 2;
        AndSelf(x / 2);
        assert false;
      } else {
        assert (x - 1) / 2 == x / 2 - 1;
        SingleBitIsPowerOf2(x / 2);
      }
    }
  }

  /** `is_power_of_2(x)` holds exactly when x is 2^k for some k >= 0. */
  lemma IsPowerOf2Exactly(x: int)
    ensures IsPowerOf2(x) <==> exists k: nat :: x == Pow2(k)
  {
    if IsPowerOf2(x) {
      SingleBitIsPowerOf2(x);
    }
    if exists k: nat :: x == Pow2(k) {
      var k: nat :| x == Pow2(k);
      PowerOf2HasNoLowerBits(k);
    }
  }

  /** For a power of two, `log2` gives back the exponent. */
  lemma PowerOf2Log2(x: int)
    requires IsPowerOf2(x)
    ensures x == Pow2(Log2(x))
  {
    SingleBitIsPowerOf2(x);
  }
}
