/** Powers of two and the division facts that stand in for Python's shift
    operators on non-negative integers: `x >> k` is `x / Pow2(k)`, `x << k` is
    `x * Pow2(k)`, and `x & (2^k - 1)` is `x % Pow2(k)`. */
module Bits {
  import opened Packing

  function Pow2(n: nat): (r: nat)
    ensures r >= 1
  {
    if n == 0 then 1 else 2 * Pow2(n - 1)
  }

  function Min(a: int, b: int): (r: int)
    ensures r <= a && r <= b && (r == a || r == b)
  {
    if a <= b then a else b
  }

  lemma {:induction false} Pow2Add(a: nat, b: nat)
    ensures Pow2(a + b) == Pow2(a) * Pow2(b)
  {
    if a > 0 {
      Pow2Add(a - 1, b);
      assert Pow2(a + b) == 2 * Pow2(a - 1 + b);
    }
  }

  lemma {:induction false} Pow2Monotone(a: nat, b: nat)
    requires a <= b
    ensures Pow2(a) <= Pow2(b)
  {
    if a < b {
      Pow2Monotone(a, b - 1);
    }
  }

  lemma Pow2Byte(n: nat)
    ensures n <= 8 ==> Pow2(n) <= 0x100
  {
    if n <= 8 {
      Pow2Monotone(n, 8);
      assert Pow2(8) == 0x100;
    }
  }

  /** Exact division undoes multiplication. */
  lemma MulDiv(x: nat, m: nat)
    requires m > 0
    ensures (x * m) / m == x && (x * m) % m == 0
  {
    ModOfSum(x, 0, m);
  }

  /** Adding a multiple of `m` shifts the quotient and keeps the remainder. */
  lemma DivAddMultiple(a: nat, k: nat, m: nat)
    requires m > 0
    ensures (a + k * m) / m == a / m + k
    ensures (a + k * m) % m == a % m
  {
    var q, r := a / m, a % m;
    assert a == q * m + r;
    assert a + k * m == (q + k) * m + r;
    ModOfSum(q + k, r, m);
  }

  lemma MulAssoc(x: int, y: int, z: int)
    ensures (x * y) * z == x * (y * z) && (y * z) * x == x * (z * y)
  {
  }

  /** `0xFFF >> c`: the all-ones mask of `12 - c` bits, or zero once every bit
      has been shifted out. */
  lemma ShiftedMask(c: nat)
    ensures c <= 12 ==> 0xFFF / Pow2(c) == Pow2(12 - c) - 1
    ensures c > 12 ==> 0xFFF / Pow2(c) == 0
  {
    if c <= 12 {
      Pow2Add(c, 12 - c);
      Pow2Twelve();
      MaskDiv(Pow2(c), Pow2(12 - c));
    } else {
      Pow2Monotone(13, c);
      assert Pow2(13) == 2 * Pow2(12);
      Pow2Twelve();
      ModOfSum(0, 0xFFF, Pow2(c));
    }
  }

  lemma Pow2Twelve()
    ensures Pow2(12) == 0x1000
  {
  }

  lemma MaskDiv(p: nat, k: nat)
    requires p >= 1 && k >= 1 && p * k == 0x1000
    ensures 0xFFF / p == k - 1
  {
    assert (k - 1) * p == k * p - p;
    ModOfSum(k - 1, p - 1, p);
  }

  /** `(0xFFF >> c) >> 1 == 0xFFF >> (c + 1)`. */
  lemma ShiftedMaskStep(c: nat)
    ensures (0xFFF / Pow2(c)) / 2 == 0xFFF / Pow2(c + 1)
  {
    ShiftedMask(c);
    ShiftedMask(c + 1);
    if c < 12 {
      assert Pow2(12 - c) == 2 * Pow2(12 - (c + 1));
    }
  }
}
