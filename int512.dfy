/**
 * The `int512` value of cmd/hex_int512_pkg.c: eight 64-bit limbs, `parts[0]`
 * the most significant. Its meaning is the natural number Val.
 */
module Int512 {
  import opened Arith
  import opened Positional
  import opened Bits

  const TWO512: nat := 0x1_0000_0000_0000_0000_0000_0000_0000_0000_0000_0000_0000_0000_0000_0000_0000_0000_0000_0000_0000_0000_0000_0000_0000_0000_0000_0000_0000_0000_0000_0000_0000_0000

  type Int512 = s: seq<u64> | |s| == 8 witness [0, 0, 0, 0, 0, 0, 0, 0]

  /** The all-zero value, `int512 x = {0}` in the source. */
  const Zero: Int512 := [0, 0, 0, 0, 0, 0, 0, 0]

  /** Value of a limb sequence, most significant limb first. */
  function Val(s: seq<u64>): nat
  {
    ValOf(TWO64, s)
  }

  /** The eight limbs that represent `v`. */
  function FromNat(v: nat): (r: Int512)
    requires v < TWO512
  {
    seq(8, i requires 0 <= i < 8 => (v / Pow(TWO64, 7 - i)) % TWO64)
  }

  lemma ValZero()
    ensures Val(Zero) == 0
  {
    ValOfZeros(TWO64, 8);
    assert Zero == Zeros(8);
  }

  lemma LimbsBelow(s: seq<u64>)
    ensures AllBelow(TWO64, s)
  {
  }

  lemma PowersOf2()
    ensures Pow(16, 16) == TWO64
    ensures Pow(TWO64, 8) == TWO512
    ensures Pow(16, 128) == TWO512
  {
    assert Pow(16, 1) == 16;
    assert Pow(16, 2) == 256;
    PowAdd(16, 2, 2);
    PowAdd(16, 4, 4);
    PowAdd(16, 8, 8);
    assert Pow(TWO64, 1) == TWO64;
    PowAdd(TWO64, 1, 1);
    PowAdd(TWO64, 2, 2);
    PowAdd(TWO64, 4, 4);
    PowMul(16, 16, 8);
  }

  /** A limb position of weight 2^(64k) is the nibble position 16k. */
  lemma LimbWeight(k: nat)
    ensures Pow(TWO64, k) == Pow(16, 16 * k)
  {
    PowersOf2();
    PowMul(16, 16, k);
  }

  /** A shift by 4k bits is a shift by k nibbles. */
  lemma NibbleWeight(k: nat)
    ensures Pow(2, 4 * k) == Pow(16, k)
  {
    PowMul(2, 4, k);
    assert Pow(2, 4) == 16;
  }

  lemma ValBound(x: Int512)
    ensures Val(x) < TWO512
  {
    LimbsBelow(x);
    ValOfBound(TWO64, x);
    PowersOf2();
  }

  lemma ValFromNat(v: nat)
    requires v < TWO512
    ensures Val(FromNat(v)) == v
  {
    var r, d := FromNat(v), ToDigits(TWO64, v, 8);
    forall i | 0 <= i < 8
      ensures r[i] == d[i]
    {
    }
    assert r == d;
    ValOfToDigits(TWO64, v, 8);
    PowersOf2();
    DivModUnique(v, TWO512, 0, v);
  }

  lemma FromNatVal(x: Int512)
    ensures Val(x) < TWO512 && FromNat(Val(x)) == x
  {
    ValBound(x);
    ValFromNat(Val(x));
    LimbsBelow(x);
    LimbsBelow(FromNat(Val(x)));
    ValOfInjective(TWO64, FromNat(Val(x)), x);
  }

  /** Two values are equal exactly when their numbers are. */
  lemma ValInjective(x: Int512, y: Int512)
    ensures x == y <==> Val(x) == Val(y)
  {
    if Val(x) == Val(y) {
      FromNatVal(x);
      FromNatVal(y);
    }
  }
}
