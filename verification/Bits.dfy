/** Powers of two, alignment, the bitwise operations of 32-bit addresses, and 64-bit casts. */
module Bits {

  function Pow2(k: nat): (r: nat)
    ensures r > 0
  {
    if k == 0 then 1 else 2 * Pow2(k - 1)
  }

  /** Bitwise `|` on unsigned integers. */
  function BitOr(a: nat, b: nat): (r: nat)
    decreases a + b
  {
    if a == 0 && b == 0 then 0
    else 2 * BitOr(a / 2, b / 2) + (if a % 2 == 1 || b % 2 == 1 then 1 else 0)
  }

  /** The low `k` bits of `a` are zero. */
  predicate Aligned(a: nat, k: nat) {
    k == 0 || (a % 2 == 0 && Aligned(a / 2, k - 1))
  }

  lemma {:induction false} Pow2Monotone(j: nat, k: nat)
    requires j < k
    ensures 2 * Pow2(j) <= Pow2(k)
  {
    if j + 1 < k {
      Pow2Monotone(j, k - 1);
    }
  }

  lemma {:induction false} BitOrZero(a: nat)
    ensures BitOr(a, 0) == a
  {
    if a != 0 {
      BitOrZero(a / 2);
    }
  }

  /** Setting a bit inside the zero part of an aligned number is addition. */
  lemma {:induction false} BitOrIsSum(a: nat, k: nat)
    requires Aligned(a, k + 1)
    ensures BitOr(a, Pow2(k)) == a + Pow2(k)
  {
    if k == 0 {
      BitOrZero(a / 2);
    } else {
      BitOrIsSum(a / 2, k - 1);
    }
  }

  lemma {:induction false} AlignedWeaken(a: nat, j: nat, k: nat)
    requires j <= k
    requires Aligned(a, k)
    ensures Aligned(a, j)
  {
    if j > 0 {
      AlignedWeaken(a / 2, j - 1, k - 1);
    }
  }

  /** Adding half a block keeps the alignment of half a block. */
  lemma {:induction false} AlignedUpperHalf(a: nat, k: nat)
    requires Aligned(a, k + 1)
    ensures Aligned(a + Pow2(k), k)
  {
    if k > 0 {
      AlignedUpperHalf(a / 2, k - 1);
      assert (a + Pow2(k)) / 2 == a / 2 + Pow2(k - 1);
    }
  }

  /** Distinct numbers aligned to `k` bits are at least a block apart. */
  lemma {:induction false} AlignedGap(a: nat, b: nat, k: nat)
    requires Aligned(a, k) && Aligned(b, k) && a < b
    ensures a + Pow2(k) <= b
  {
    if k > 0 {
      AlignedGap(a / 2, b / 2, k - 1);
    }
  }

  function ShiftRight(a: nat, k: nat): (q: nat) {
    if k == 0 then a else ShiftRight(a / 2, k - 1)
  }

  lemma TwiceProduct(q: nat, m: nat)
    ensures q * (2 * m) == 2 * (q * m)
  {
  }

  /** Alignment is being a multiple of the block size: shifting the low bits out loses nothing. */
  lemma {:induction false} AlignedIsMultiple(a: nat, k: nat)
    ensures Aligned(a, k) <==> a == ShiftRight(a, k) * Pow2(k)
  {
    if k > 0 {
      AlignedIsMultiple(a / 2, k - 1);
      TwiceProduct(ShiftRight(a, k), Pow2(k - 1));
    }
  }

  /** Dividing twice is dividing by the product. */
  lemma DivideInTwo(n: nat, c: nat, m: nat)
    requires c > 0 && m > 0
    ensures c * m > 0 && n / c / m == n / (c * m)
  {
    BelowProduct(c, m, n / c % m, n % c);
    Recompose(n, c, m, n / c, n / c / m, n / c % m, n % c);
    QuotientIs(n, c * m, n / c / m, c * (n / c % m) + n % c);
  }

  lemma Recompose(n: nat, c: nat, m: nat, x: nat, q: nat, r: nat, y: nat)
    requires n == c * x + y && x == m * q + r
    ensures n == (c * m) * q + (c * r + y)
  {
    assert c * (m * q + r) == c * (m * q) + c * r && c * (m * q) == (c * m) * q;
  }

  lemma BelowProduct(c: nat, m: nat, r: nat, x: nat)
    requires r < m && x < c
    ensures c * m > 0 && 0 <= c * r + x < c * m
  {
    assert c * (r + 1) <= c * m;
  }

  lemma QuotientIs(n: nat, d: nat, q: nat, r: nat)
    requires d > 0 && n == d * q + r && r < d
    ensures n / d == q
  {
    var k := n / d - q;
    assert d * k == r - n % d;
    MultipleIsFar(d, k);
  }

  lemma MultipleIsFar(d: int, k: int)
    requires d > 0
    ensures k >= 1 ==> d * k >= d
    ensures k <= -1 ==> d * k <= -d
  {
  }

  // ----- 64-bit casts -----

  const TWO_63: int := 0x8000_0000_0000_0000
  const TWO_64: int := 0x1_0000_0000_0000_0000

  predicate IsI64(v: int) { -TWO_63 <= v < TWO_63 }
  predicate IsU64(v: int) { 0 <= v < TWO_64 }

  /** A `u64` cast to `i64`: the same bits read in two's complement. */
  function AsI64(n: int): (v: int)
    requires IsU64(n)
    ensures IsI64(v) && AsU64(v) == n && (n - v) % TWO_64 == 0
  {
    if n < TWO_63 then n else n - TWO_64
  }

  /** An `i64` cast to `u64`. */
  function AsU64(v: int): (n: nat)
    requires IsI64(v)
    ensures IsU64(n) && (n - v) % TWO_64 == 0
  {
    if v >= 0 then v else v + TWO_64
  }
}
