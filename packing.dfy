/** Fixed-width integer packing in the style of Python's `struct` module:
    `"<H"`, `"<L"`, `"<Q"` (little-endian) and `">L"` (big-endian). */
module Packing {

  type byte = x: int | 0 <= x < 0x100
  type u16 = x: int | 0 <= x < 0x1_0000
  type u32 = x: int | 0 <= x < 0x1_0000_0000
  type u64 = x: int | 0 <= x < 0x1_0000_0000_0000_0000

  /** 256 to the power n: one more than the largest value n bytes can hold. */
  function Pow256(n: nat): (r: nat)
    ensures r >= 1
  {
    if n == 0 then 1 else 0x100 * Pow256(n - 1)
  }

  /** The value of a little-endian byte string (`struct.unpack("<...")`). */
  function UnpackLe(s: seq<byte>): (x: nat)
    ensures x < Pow256(|s|)
  {
    if s == [] then 0 else s[0] + 0x100 * UnpackLe(s[1..])
  }

  /** The value of a big-endian byte string (`struct.unpack(">...")`). */
  function UnpackBe(s: seq<byte>): (x: nat)
    ensures x < Pow256(|s|)
  {
    if s == [] then 0 else 0x100 * UnpackBe(s[..|s| - 1]) + s[|s| - 1]
  }

  /** `n` little-endian bytes holding `x`; `struct.pack` refuses a value that does not fit. */
  function PackLe(x: nat, n: nat): (r: seq<byte>)
    requires x < Pow256(n)
    ensures |r| == n && UnpackLe(r) == x
  {
    if n == 0 then [] else [x % 0x100] + PackLe(x / 0x100, n - 1)
  }

  /** `n` big-endian bytes holding `x`. */
  function PackBe(x: nat, n: nat): (r: seq<byte>)
    requires x < Pow256(n)
    ensures |r| == n && UnpackBe(r) == x
  {
    if n == 0 then [] else
      var r := PackBe(x / 0x100, n - 1) + [x % 0x100];
      assert r[..|r| - 1] == PackBe(x / 0x100, n - 1);
      r
  }

  function PackLe16(x: u16): (r: seq<byte>)
    ensures |r| == 2 && UnpackLe(r) == x
  {
    PackLe(x, 2)
  }

  function PackLe32(x: u32): (r: seq<byte>)
    ensures |r| == 4 && UnpackLe(r) == x
  {
    PackLe(x, 4)
  }

  function PackLe64(x: u64): (r: seq<byte>)
    ensures |r| == 8 && UnpackLe(r) == x
  {
    PackLe(x, 8)
  }

  function PackBe32(x: u32): (r: seq<byte>)
    ensures |r| == 4 && UnpackBe(r) == x
  {
    PackBe(x, 4)
  }

  /** Dropping the leading byte of a big-endian string keeps the value modulo
      the weight of that byte. */
  lemma {:induction false} UnpackBeDropFirst(s: seq<byte>)
    requires |s| >= 1
    ensures UnpackBe(s[1..]) == UnpackBe(s) % Pow256(|s| - 1)
    ensures UnpackBe(s) == s[0] * Pow256(|s| - 1) + UnpackBe(s[1..])
  {
    if |s| == 1 {
      assert s[1..] == [];
    } else {
      var init, tail := s[..|s| - 1], s[1..];
      UnpackBeDropFirst(init);
      assert init[1..] == tail[..|tail| - 1];
      var u', p := UnpackBe(init[1..]), Pow256(|s| - 2);
      assert UnpackBe(tail) == 0x100 * u' + s[|s| - 1];
      assert UnpackBe(init) == s[0] * p + u';
      calc {
        UnpackBe(s);
        0x100 * UnpackBe(init) + s[|s| - 1];
        0x100 * (s[0] * p + u') + s[|s| - 1];
        { MulShift(s[0], p); }
        s[0] * (0x100 * p) + (0x100 * u' + s[|s| - 1]);
        s[0] * Pow256(|s| - 1) + UnpackBe(tail);
      }
      ModOfSum(s[0], UnpackBe(s[1..]), Pow256(|s| - 1));
    }
  }

  /** `a * m + b` leaves remainder `b` when `0 <= b < m`. */
  lemma ModOfSum(a: nat, b: nat, m: nat)
    requires 0 <= b < m
    ensures (a * m + b) % m == b && (a * m + b) / m == a
  {
    var q, r := (a * m + b) / m, (a * m + b) % m;
    assert q * m + r == a * m + b;
    assert (a - q) * m == r - b;
    if a > q {
      MulAtLeast(a - q, m);
    } else if a < q {
      MulAtLeast(q - a, m);
    }
  }

  lemma MulShift(a: int, p: int)
    ensures 0x100 * (a * p) == a * (0x100 * p)
  {
  }

  lemma MulAtLeast(k: int, m: int)
    requires k >= 1 && m >= 0
    ensures k * m >= m
  {
  }
}
