/** Bitwise operators on natural numbers, and the alignment macro MY_ALIGN of lib/mysql/my_global.h. */
module Bits {
  import opened Basics

  function Pow2(n: nat): (r: nat)
    ensures r > 0
  {
    if n == 0 then 1 else 2 * Pow2(n - 1)
  }

  function BitAnd(x: nat, y: nat): nat {
    if x == 0 || y == 0 then 0
    else (if x % 2 == 1 && y % 2 == 1 then 1 else 0) + 2 * BitAnd(x / 2, y / 2)
  }

  function BitOr(x: nat, y: nat): nat {
    if x == 0 then y
    else if y == 0 then x
    else (if x % 2 == 1 || y % 2 == 1 then 1 else 0) + 2 * BitOr(x / 2, y / 2)
  }

  /** x without its k lowest bits. */
  function ClearLow(x: nat, k: nat): (r: nat)
    ensures r <= x < r + Pow2(k)
  {
    if k == 0 then x else 2 * ClearLow(x / 2, k - 1)
  }

  /** Is x a multiple of 2^k, bit by bit? */
  predicate LowClear(x: nat, k: nat) {
    k == 0 || (x % 2 == 0 && LowClear(x / 2, k - 1))
  }

  lemma {:induction false} ClearedIsClear(x: nat, k: nat)
    ensures LowClear(ClearLow(x, k), k)
  {
    if k > 0 {
      ClearedIsClear(x / 2, k - 1);
      assert ClearLow(x, k) / 2 == ClearLow(x / 2, k - 1);
    }
  }

  /** Two different multiples of 2^k are at least 2^k apart. */
  lemma {:induction false} ClearGap(x: nat, y: nat, k: nat)
    requires LowClear(x, k) && LowClear(y, k) && x < y
    ensures x + Pow2(k) <= y
  {
    if k > 0 {
      ClearGap(x / 2, y / 2, k - 1);
    }
  }

  lemma {:induction false} Pow2Grows(k: nat, n: nat)
    requires k <= n
    ensures Pow2(k) <= Pow2(n)
  {
    if k < n {
      Pow2Grows(k, n - 1);
    }
  }

  lemma {:induction false} Pow2IsClear(k: nat, n: nat)
    requires k <= n
    ensures LowClear(Pow2(n), k)
  {
    if k > 0 {
      Pow2IsClear(k - 1, n - 1);
      assert Pow2(n) / 2 == Pow2(n - 1);
    }
  }

  lemma {:induction false} AndOnes(x: nat, n: nat)
    requires x < Pow2(n)
    ensures BitAnd(x, Pow2(n) - 1) == x
  {
    if n > 0 {
      AndOnes(x / 2, n - 1);
    }
  }

  lemma AndEven(x: nat, m: nat)
    ensures BitAnd(x, 2 * m) == 2 * BitAnd(x / 2, m)
  {
    assert (2 * m) / 2 == m;
  }

  /** And-ing with the mask of bits k to n-1 clears the k low bits. */
  lemma {:induction false} AndHighMask(x: nat, k: nat, n: nat)
    requires k <= n && x < Pow2(n)
    ensures Pow2(k) <= Pow2(n) && BitAnd(x, Pow2(n) - Pow2(k)) == ClearLow(x, k)
  {
    Pow2Grows(k, n);
    if k == 0 {
      AndOnes(x, n);
    } else {
      AndHighMask(x / 2, k - 1, n - 1);
      AndEven(x, Pow2(n - 1) - Pow2(k - 1));
    }
  }

  /** Or-ing bits below 2^k into a multiple of 2^k adds them. */
  lemma {:induction false} OrAdds(x: nat, y: nat, k: nat)
    requires LowClear(x, k) && y < Pow2(k)
    ensures BitOr(x, y) == x + y
  {
    if k > 0 {
      OrAdds(x / 2, y / 2, k - 1);
    }
  }

  // ---------- multiples in the ordinary sense ----------

  lemma MulStep(p: nat, q: nat, m: nat)
    requires p < q
    ensures p * m + m <= q * m
  {
    assert q * m == p * m + m + (q - p - 1) * m;
  }

  /** Division by m is the only way to write x as q * m + r with r < m. */
  lemma DivUnique(x: nat, q: nat, r: nat, m: nat)
    requires r < m && x == q * m + r
    ensures x / m == q && x % m == r
  {
    var p := x / m;
    assert x == p * m + x % m;
    if p < q {
      MulStep(p, q, m);
    } else if q < p {
      MulStep(q, p, m);
    }
  }

  lemma HalfMod(x: nat, m: nat)
    requires m > 0
    ensures x % (2 * m) == 2 * ((x / 2) % m) + x % 2
  {
    var q, r := (x / 2) / m, (x / 2) % m;
    assert x / 2 == q * m + r;
    assert x == q * (2 * m) + (2 * r + x % 2);
    DivUnique(x, q, 2 * r + x % 2, 2 * m);
  }

  lemma {:induction false} LowClearIffMultiple(x: nat, k: nat)
    ensures LowClear(x, k) <==> x % Pow2(k) == 0
  {
    if k > 0 {
      LowClearIffMultiple(x / 2, k - 1);
      HalfMod(x, Pow2(k - 1));
    }
  }

  // ---------- MY_ALIGN ----------

  lemma Pow2Constants()
    ensures Pow2(7) == 0x80 && Pow2(8) == 0x100 && Pow2(16) == 0x1_0000 && Pow2(24) == 0x100_0000
  {
    assert Pow2(4) == 0x10;
    assert Pow2(12) == 0x1000;
    assert Pow2(20) == 0x10_0000;
  }

  lemma Pow2Of64()
    ensures Pow2(64) == TWO64
  {
    Pow2Constants();
    assert Pow2(32) == 0x1_0000_0000;
    assert Pow2(40) == 0x100_0000_0000;
    assert Pow2(48) == 0x1_0000_0000_0000;
    assert Pow2(56) == 0x100_0000_0000_0000;
  }

  /** MY_ALIGN(A, L) in 64-bit unsigned arithmetic. */
  function MyAlign(a: nat, l: nat): nat
    requires 0 < l < TWO64
  {
    BitAnd((a + l - 1) % TWO64, TWO64 - 1 - (l - 1))
  }

  ghost predicate LeastMultiple(r: nat, a: nat, l: nat)
    requires l > 0
  {
    r % l == 0 && r >= a && forall m: nat :: m % l == 0 && m >= a ==> m >= r
  }

  lemma AlignClears(a: nat, k: nat)
    requires a < TWO64 && k < 64
    ensures 0 < Pow2(k) < TWO64
    ensures MyAlign(a, Pow2(k)) == ClearLow((a + Pow2(k) - 1) % TWO64, k)
    ensures LowClear(MyAlign(a, Pow2(k)), k)
  {
    Pow2Of64();
    Pow2Grows(k, 63);
    assert Pow2(64) == 2 * Pow2(63);
    var sum := (a + Pow2(k) - 1) % TWO64;
    AndHighMask(sum, k, 64);
    ClearedIsClear(sum, k);
  }

  lemma ClearedSumIsLeast(a: nat, k: nat)
    ensures LeastMultiple(ClearLow(a + Pow2(k) - 1, k), a, Pow2(k))
  {
    var l, r := Pow2(k), ClearLow(a + Pow2(k) - 1, k);
    ClearedIsClear(a + l - 1, k);
    LowClearIffMultiple(r, k);
    forall m: nat | m % l == 0 && m >= a
      ensures m >= r
    {
      LowClearIffMultiple(m, k);
      if m < r {
        ClearGap(m, r, k);
      }
    }
  }

  lemma SmallClearsToZero(x: nat, k: nat)
    requires x < Pow2(k)
    ensures ClearLow(x, k) == 0
  {
    var r := ClearLow(x, k);
    ClearedIsClear(x, k);
    ZeroIsClear(k);
    if r > 0 {
      ClearGap(0, r, k);
    }
  }

  lemma {:induction false} ZeroIsClear(k: nat)
    ensures LowClear(0, k)
  {
    if k > 0 {
      ZeroIsClear(k - 1);
    }
  }

  lemma ClearLowIsMonotone(x: nat, y: nat, k: nat)
    requires x <= y
    ensures ClearLow(x, k) <= ClearLow(y, k)
  {
    ClearedIsClear(x, k);
    ClearedIsClear(y, k);
    if ClearLow(y, k) < ClearLow(x, k) {
      ClearGap(ClearLow(y, k), ClearLow(x, k), k);
    }
  }

  /** A multiple of 2^k absorbs anything smaller than 2^k. */
  lemma ClearAbsorbs(r: nat, d: nat, k: nat)
    requires LowClear(r, k) && d < Pow2(k)
    ensures ClearLow(r + d, k) == r
  {
    var u := ClearLow(r + d, k);
    ClearedIsClear(r + d, k);
    if u < r {
      ClearGap(u, r, k);
    } else if u > r {
      ClearGap(r, u, k);
    }
  }

  lemma AlignWithoutOverflow(a: nat, k: nat)
    requires k < 64 && a + Pow2(k) - 1 < TWO64
    ensures 0 < Pow2(k) < TWO64 && MyAlign(a, Pow2(k)) == ClearLow(a + Pow2(k) - 1, k)
  {
    AlignClears(a, k);
    assert (a + Pow2(k) - 1) % TWO64 == a + Pow2(k) - 1;
  }

  lemma AlignWithOverflow(a: nat, k: nat)
    requires a < TWO64 && k < 64 && a + Pow2(k) - 1 >= TWO64
    ensures 0 < Pow2(k) < TWO64 && MyAlign(a, Pow2(k)) == 0 && a > 0
  {
    AlignClears(a, k);
    assert (a + Pow2(k) - 1) % TWO64 == a + Pow2(k) - 1 - TWO64;
    SmallClearsToZero(a + Pow2(k) - 1 - TWO64, k);
  }

  /** MY_ALIGN(A, 2^k) is the least multiple of 2^k that is at least A exactly when the sum does not
      overflow; it is 0 exactly when A is 0 or the sum overflows. */
  lemma AlignIff(a: nat, k: nat)
    requires a < TWO64 && k < 64
    ensures 0 < Pow2(k) < TWO64
    ensures LeastMultiple(MyAlign(a, Pow2(k)), a, Pow2(k)) <==> a + Pow2(k) - 1 < TWO64
    ensures MyAlign(a, Pow2(k)) == 0 <==> a == 0 || a + Pow2(k) - 1 >= TWO64
  {
    if a + Pow2(k) - 1 < TWO64 {
      AlignWithoutOverflow(a, k);
      ClearedSumIsLeast(a, k);
      if a == 0 {
        SmallClearsToZero(Pow2(k) - 1, k);
      }
    } else {
      AlignWithOverflow(a, k);
    }
  }

  /** 2^64 is a multiple of 2^k as well, so a smaller multiple can be aligned without overflow. */
  lemma ClearedLeavesRoom(r: nat, k: nat)
    requires LowClear(r, k) && r < TWO64 && k < 64
    ensures r + Pow2(k) <= TWO64
  {
    Pow2Of64();
    Pow2IsClear(k, 64);
    ClearGap(r, Pow2(64), k);
  }

  /** Alignment keeps the order of everything it can represent. */
  lemma AlignIsMonotone(a: nat, b: nat, k: nat)
    requires a <= b && k < 64 && b + Pow2(k) - 1 < TWO64
    ensures 0 < Pow2(k) < TWO64 && MyAlign(a, Pow2(k)) <= MyAlign(b, Pow2(k))
  {
    AlignWithoutOverflow(a, k);
    AlignWithoutOverflow(b, k);
    ClearLowIsMonotone(a + Pow2(k) - 1, b + Pow2(k) - 1, k);
  }

  /** Aligning twice changes nothing, overflow or not. */
  lemma AlignIsIdempotent(a: nat, k: nat)
    requires a < TWO64 && k < 64
    ensures 0 < Pow2(k) < TWO64 && MyAlign(MyAlign(a, Pow2(k)), Pow2(k)) == MyAlign(a, Pow2(k))
  {
    AlignClears(a, k);
    var r := ClearLow((a + Pow2(k) - 1) % TWO64, k);
    ClearedLeavesRoom(r, k);
    AlignWithoutOverflow(r, k);
    ClearAbsorbs(r, Pow2(k) - 1, k);
  }
}
