/**
 * C's `uint64_t` and the bit operators the 512-bit package applies to it,
 * stated on natural numbers: `x << k` is `x * 2^k` reduced modulo 2^64,
 * `x >> k` is `x / 2^k`, `x & (2^k - 1)` is `x % 2^k`, and `x | y` is the
 * bit-by-bit disjunction BitOr.
 */
module Bits {
  import opened Arith

  const TWO64: nat := 0x1_0000_0000_0000_0000
  const MAX64: nat := 0xFFFF_FFFF_FFFF_FFFF

  type u64 = x: nat | x < TWO64

  lemma Pow2To64()
    ensures Pow(2, 64) == TWO64
  {
    assert Pow(2, 1) == 2;
    assert Pow(2, 2) == 4;
    assert Pow(2, 3) == 8;
    assert Pow(2, 4) == 16;
    PowAdd(2, 4, 4);
    assert Pow(2, 8) == 0x100;
    PowAdd(2, 8, 8);
    assert Pow(2, 16) == 0x1_0000;
    PowAdd(2, 16, 16);
    assert Pow(2, 32) == 0x1_0000_0000;
    PowAdd(2, 32, 32);
  }

  /** `x << k` on a uint64_t: the bits shifted past bit 63 are lost. */
  function Shl(x: u64, k: nat): u64
    requires k < 64
  {
    (x * Pow(2, k)) % TWO64
  }

  /** `x >> k` on a uint64_t. */
  function Shr(x: u64, k: nat): u64
    requires k < 64
  {
    x / Pow(2, k)
  }

  /** Bitwise or of two naturals, one binary digit at a time. */
  function BitOr(x: nat, y: nat): nat
    decreases x + y
  {
    if x == 0 then y
    else if y == 0 then x
    else 2 * BitOr(x / 2, y / 2) + (if x % 2 == 1 || y % 2 == 1 then 1 else 0)
  }

  lemma {:induction false} BitOrCommutes(x: nat, y: nat)
    ensures BitOr(x, y) == BitOr(y, x)
    decreases x + y
  {
    if x != 0 && y != 0 {
      BitOrCommutes(x / 2, y / 2);
    }
  }

  /**
   * When the low `k` bits of `y * 2^k` are zero and `x` lives in them, or-ing
   * the two is adding them: this is what every `|=` of the package relies on.
   */
  lemma {:induction false} BitOrDisjoint(x: nat, y: nat, k: nat)
    requires x < Pow(2, k)
    ensures BitOr(x, y * Pow(2, k)) == x + y * Pow(2, k)
    ensures BitOr(y * Pow(2, k), x) == x + y * Pow(2, k)
  {
    var yk := y * Pow(2, k);
    BitOrCommutes(x, yk);
    if k > 0 && x != 0 && y != 0 {
      var h := Pow(2, k - 1);
      MulSwap(y, 2, h);
      assert yk == 2 * (y * h);
      BitOrDisjoint(x / 2, y, k - 1);
      assert BitOr(x, yk) == 2 * BitOr(x / 2, y * h) + x % 2;
    }
  }

  /** The shift of a value that fits loses nothing. */
  lemma ShlNoWrap(x: u64, k: nat)
    requires k < 64 && x * Pow(2, k) < TWO64
    ensures Shl(x, k) == x * Pow(2, k)
  {
  }
}
