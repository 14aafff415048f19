/**
 Unsigned machine arithmetic as the driver's C uses it: bitwise and/or on
 naturals, and the kernel's ALIGN, ALIGN_DOWN and IS_ALIGNED mask forms in
 64-bit words, with their meaning in terms of division.
 */
module Bits {

  type Byte = x: int | 0 <= x < 256

  const WORD64 := 0x1_0000_0000_0000_0000

  function Pow2(n: nat): (r: nat)
    ensures r > 0
  {
    if n == 0 then 1 else 2 * Pow2(n - 1)
  }

  function Min(x: int, y: int): int {
    if x < y then x else y
  }

  /** C's `x & y` on unsigned operands, bit by bit. */
  function And(x: nat, y: nat): nat {
    if x == 0 then 0
    else 2 * And(x / 2, y / 2) + (if x % 2 == 1 && y % 2 == 1 then 1 else 0)
  }

  /** C's `x | y` on unsigned operands, bit by bit. */
  function Or(x: nat, y: nat): nat
    decreases x + y
  {
    if x == 0 then y else if y == 0 then x
    else 2 * Or(x / 2, y / 2) + (if x % 2 == 1 || y % 2 == 1 then 1 else 0)
  }

  /** The kernel's `ALIGN(x, a)` on 64-bit words; `~(a - 1)` is `2^64 - a`. */
  function Align(x: nat, a: nat): nat
    requires 0 < a <= WORD64
  {
    And((x + (a - 1)) % WORD64, WORD64 - a)
  }

  /** The kernel's `ALIGN_DOWN(x, a)`, defined there through `ALIGN`. */
  function AlignDown(x: nat, a: nat): nat
    requires 0 < a <= WORD64
  {
    Align((x - (a - 1)) % WORD64, a)
  }

  /** The kernel's `IS_ALIGNED(x, a)`. */
  predicate IsAligned(x: nat, a: nat)
    requires 0 < a
  {
    And(x, a - 1) == 0
  }

  lemma Pow2Monotone(m: nat, n: nat)
    requires m <= n
    ensures Pow2(m) <= Pow2(n)
  {
    if m < n {
      Pow2Monotone(m, n - 1);
    }
  }

  lemma {:induction false} Pow2Sum(m: nat, n: nat)
    ensures Pow2(m + n) == Pow2(m) * Pow2(n)
  {
    if m > 0 {
      Pow2Sum(m - 1, n);
      assert Pow2(m + n) == 2 * Pow2(m - 1 + n);
      Doubled(Pow2(m - 1), Pow2(n));
    }
  }

  lemma Pow2Constants()
    ensures Pow2(16) == 0x1_0000 && Pow2(22) == 0x40_0000 && Pow2(32) == 0x1_0000_0000
    ensures Pow2(64) == WORD64
  {
    assert Pow2(8) == 256;
    Pow2Sum(8, 8);
    Pow2Sum(16, 6);
    Pow2Sum(16, 16);
    Pow2Sum(32, 32);
  }

  lemma ProductAtLeast(d: int, m: nat)
    requires d >= 1
    ensures d * m >= m
  {
  }

  lemma FactorPositive(d: int, m: nat)
    requires d * m > 0
    ensures d >= 1
  {
  }

  /** A quotient-remainder decomposition is the one `/` and `%` compute. */
  lemma ModUnique(x: int, m: nat, q: int, r: nat)
    requires x == q * m + r && r < m
    ensures x / m == q && x % m == r
  {
    var p, s := x / m, x % m;
    assert x == p * m + s;
    assert (p - q) * m == p * m - q * m;
    assert (q - p) * m == q * m - p * m;
    if p < q {
      ProductAtLeast(q - p, m);
    } else if p > q {
      ProductAtLeast(p - q, m);
    }
  }

  lemma ModHalf(x: nat, m: nat)
    requires m > 0
    ensures x % (2 * m) == 2 * ((x / 2) % m) + x % 2
  {
    var h := x / 2;
    var q, r := h / m, h % m;
    assert h == q * m + r;
    assert q * (2 * m) == 2 * (q * m);
    ModUnique(x, 2 * m, q, 2 * r + x % 2);
  }

  /** `x & (2^k - 1)` is the remainder modulo `2^k`. */
  lemma {:induction false} AndLowMask(x: nat, k: nat)
    ensures And(x, Pow2(k) - 1) == x % Pow2(k)
    decreases k
  {
    if k == 0 {
      AndZero(x);
    } else if x > 0 {
      var p := Pow2(k - 1);
      assert Pow2(k) == 2 * p;
      AndLowMask(x / 2, k - 1);
      ModHalf(x, p);
      AndOdd(x, p - 1);
    } else {
      ModUnique(0, Pow2(k), 0, 0);
    }
  }

  lemma AndOdd(x: nat, y: nat)
    ensures And(x, 2 * y + 1) == 2 * And(x / 2, y) + x % 2
  {
    assert (2 * y + 1) / 2 == y;
  }

  lemma AndEven(x: nat, y: nat)
    ensures And(x, 2 * y) == 2 * And(x / 2, y)
  {
    assert (2 * y) / 2 == y;
  }

  lemma {:induction false} AndZero(x: nat)
    ensures And(x, 0) == 0
  {
    if x > 0 {
      AndZero(x / 2);
    }
  }

  /** `x & ~(2^k - 1)` in `w`-bit words removes the remainder modulo `2^k`. */
  lemma {:induction false} AndHighMask(x: nat, k: nat, w: nat, mask: nat)
    requires k <= w && x < Pow2(w) && mask == Pow2(w) - Pow2(k)
    ensures And(x, mask) == x - x % Pow2(k)
    decreases w
  {
    if x == 0 {
      ModUnique(0, Pow2(k), 0, 0);
    } else if k == 0 {
      AndLowMask(x, w);
      ModUnique(x, Pow2(w), 0, x);
      ModUnique(x, 1, x, 0);
    } else {
      Pow2Monotone(k - 1, w - 1);
      var p, m := Pow2(k - 1), Pow2(w - 1) - Pow2(k - 1);
      AndHighMask(x / 2, k - 1, w - 1, m);
      HighMaskDoubles(x, p, m);
      assert mask == 2 * m && Pow2(k) == 2 * p;
    }
  }

  lemma HighMaskDoubles(x: nat, p: nat, m: nat)
    requires p > 0 && And(x / 2, m) == x / 2 - (x / 2) % p
    ensures And(x, 2 * m) == x - x % (2 * p)
  {
    ModHalf(x, p);
    AndEven(x, m);
  }

  /** `x | (y << k)` is a sum when `x` fits below bit `k`. */
  lemma {:induction false} OrDisjoint(x: nat, y: nat, k: nat)
    requires x < Pow2(k)
    ensures Or(x, y * Pow2(k)) == x + y * Pow2(k)
    decreases k
  {
    if k > 0 {
      OrDisjoint(x / 2, y, k - 1);
      OrShifted(x, y, Pow2(k - 1));
    }
  }

  lemma OrShifted(x: nat, y: nat, p: nat)
    requires Or(x / 2, y * p) == x / 2 + y * p
    ensures Or(x, y * (2 * p)) == x + y * (2 * p)
  {
    OrEven(x, y * p);
    Doubled(p, y);
  }

  lemma Doubled(p: nat, y: nat)
    ensures (2 * p) * y == y * (2 * p) == 2 * (y * p) == 2 * (p * y)
  {
  }

  lemma OrEven(x: nat, z: nat)
    ensures Or(x, 2 * z) == 2 * Or(x / 2, z) + x % 2
  {
    assert (2 * z) / 2 == z && (2 * z) % 2 == 0;
    if x == 0 || z == 0 {
      assert Or(x, 2 * z) == x + 2 * z && Or(x / 2, z) == x / 2 + z;
    }
  }

  lemma HighMask64(y: nat, k: nat)
    requires k <= 63 && y < WORD64
    ensures 0 < Pow2(k) <= WORD64
    ensures And(y, WORD64 - Pow2(k)) == Down(y, Pow2(k))
  {
    assert Pow2(64) == WORD64 by {
      Pow2Constants();
    }
    Pow2Monotone(k, 64);
    AndHighMask(y, k, 64, WORD64 - Pow2(k));
  }

  lemma NoWrap64(y: nat)
    requires y < WORD64
    ensures y % WORD64 == y
  {
  }

  /** `ALIGN_DOWN` rounds down to a multiple, for every power of two. */
  lemma AlignDownMeaning(x: nat, k: nat)
    requires k <= 63 && x < WORD64
    ensures 0 < Pow2(k) <= WORD64
    ensures AlignDown(x, Pow2(k)) == Down(x, Pow2(k))
  {
    HighMask64(x, k);
    AlignDownIs(x, Pow2(k));
  }

  lemma AlignDownIs(x: nat, a: nat)
    requires x < WORD64 && 0 < a <= WORD64
    ensures AlignDown(x, a) == And(x, WORD64 - a)
  {
    WrapBack(x, a);
  }

  /** `ALIGN` rounds up to a multiple, unless the 64-bit addition wraps. */
  lemma AlignMeaning(x: nat, k: nat)
    requires k <= 63 && x + (Pow2(k) - 1) < WORD64
    ensures 0 < Pow2(k) <= WORD64
    ensures Align(x, Pow2(k)) == Up(x, Pow2(k))
  {
    var y := x + (Pow2(k) - 1);
    HighMask64(y, k);
    NoWrap64(y);
    assert Align(x, Pow2(k)) == y - y % Pow2(k);
  }

  /** `IS_ALIGNED` is divisibility. */
  lemma IsAlignedMeaning(x: nat, k: nat)
    ensures IsAligned(x, Pow2(k)) <==> x % Pow2(k) == 0
  {
    AndLowMask(x, k);
  }

  lemma WrapBack(x: nat, a: nat)
    requires x < WORD64 && 0 < a <= WORD64
    ensures ((x - (a - 1)) % WORD64 + (a - 1)) % WORD64 == x
  {
  }

  lemma ModSum(x: int, y: int, m: nat)
    requires m > 0
    ensures y % m == 0 ==> (x + y) % m == x % m
    ensures y % m == 0 ==> (x - y) % m == x % m
  {
    if y % m == 0 {
      var q, r, p := x / m, x % m, y / m;
      assert x == q * m + r && y == p * m;
      assert (q + p) * m == q * m + p * m;
      assert (q - p) * m == q * m - p * m;
      ModUnique(x + y, m, q + p, r);
      ModUnique(x - y, m, q - p, r);
    }
  }

  /** `x` rounded down to a multiple of `m`. */
  function Down(x: nat, m: nat): (y: nat)
    requires m > 0
    ensures y <= x < y + m
  {
    x - x % m
  }

  /** `x` rounded up to a multiple of `m`. */
  function Up(x: nat, m: nat): (y: nat)
    requires m > 0
    ensures x <= y < x + m
  {
    Down(x + (m - 1), m)
  }

  lemma RoundDown(x: nat, m: nat)
    requires m > 0
    ensures Down(x, m) % m == 0
    ensures x % m == 0 ==> Down(x, m) == x
  {
    var q, r := x / m, x % m;
    assert x == q * m + r;
    ModUnique(x - r, m, q, 0);
  }

  lemma RoundUp(x: nat, m: nat)
    requires m > 0
    ensures Up(x, m) % m == 0
    ensures Up(x, m) == 0 <==> x == 0
  {
    RoundDown(x + (m - 1), m);
    if x == 0 {
      ModUnique(m - 1, m, 0, m - 1);
    }
  }

  /** Rounding down commutes with removing a multiple. */
  lemma DownShift(x: nat, y: nat, m: nat)
    requires m > 0 && y <= x && y % m == 0
    ensures Down(x - y, m) == Down(x, m) - y
  {
    ModSum(x, y, m);
  }

  /** A multiple not above `x` is not above `x` rounded down. */
  lemma MultipleBelow(s: nat, x: nat, m: nat)
    requires m > 0 && s <= x && s % m == 0
    ensures s <= Down(x, m)
  {
    RoundDown(x, m);
    if s > Down(x, m) {
      MultiplesApart(Down(x, m), s, m);
    }
  }

  /** Two multiples of `m` that differ, differ by at least `m`. */
  lemma MultiplesApart(x: int, y: int, m: nat)
    requires m > 0 && x % m == 0 && y % m == 0 && x < y
    ensures x + m <= y
  {
    var p, q := x / m, y / m;
    assert x == p * m && y == q * m;
    assert (q - p) * m == q * m - p * m;
    FactorPositive(q - p, m);
    ProductAtLeast(q - p, m);
  }
}
