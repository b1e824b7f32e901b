/**
 * `int512_add` (cmd/hex_int512_pkg.c:41-49): limb-wise addition from the least
 * significant limb up. The carry out of a limb is taken to be `sum < a[i]`,
 * which misses the wrap when `b[i]` is 2^64-1 and the incoming carry is 1;
 * the model keeps that test as written.
 */
module Int512Add {
  import opened Arith
  import opened Positional
  import opened Bits
  import opened Int512

  /** The limb the loop stores: the 64-bit wrapped sum. */
  function LimbSum(x: u64, y: u64, c: nat): u64
  {
    (x + y + c) % TWO64
  }

  /** The carry the loop passes on: `sum < a[i]`. */
  function NextCarry(x: u64, y: u64, c: nat): nat
  {
    if LimbSum(x, y, c) < x then 1 else 0
  }

  /**
   * What the loop produces on limbs `a`, `b` (most significant first) when the
   * carry entering the last limb is `c`.
   */
  function AddWithCarry(a: seq<u64>, b: seq<u64>, c: nat): (r: seq<u64>)
    requires |a| == |b|
    ensures |r| == |a|
  {
    if |a| == 0 then []
    else
      var n := |a| - 1;
      AddWithCarry(a[..n], b[..n], NextCarry(a[n], b[n], c)) + [LimbSum(a[n], b[n], c)]
  }

  function Add(a: Int512, b: Int512): Int512
  {
    AddWithCarry(a, b, 0)
  }

  /**
   * No limb below the most significant one is reached with carry 1 while the
   * corresponding limb of `b` is 2^64-1 (the only case in which `sum < a[i]`
   * misses a carry). A miss on the most significant limb is harmless: that
   * carry is discarded anyway.
   */
  predicate NoLostCarry(a: seq<u64>, b: seq<u64>, c: nat)
    requires |a| == |b|
  {
    |a| <= 1 ||
    var n := |a| - 1;
    !(b[n] == MAX64 && c == 1) && NoLostCarry(a[..n], b[..n], NextCarry(a[n], b[n], c))
  }

  predicate AddIsExact(a: Int512, b: Int512)
  {
    NoLostCarry(a, b, 0)
  }

  /** Outside the lost-carry case, `sum < a[i]` is the true carry of the limb. */
  lemma CarryTest(x: u64, y: u64, c: nat)
    requires c <= 1 && !(y == MAX64 && c == 1)
    ensures x + y + c == NextCarry(x, y, c) * TWO64 + LimbSum(x, y, c)
  {
    if x + y + c >= TWO64 {
      DivModUnique(x + y + c, TWO64, 1, x + y + c - TWO64);
    } else {
      DivModUnique(x + y + c, TWO64, 0, x + y + c);
    }
  }

  /** The lost-carry case: `sum` wraps back to exactly `a[i]`, so `sum < a[i]` reports no carry. */
  lemma LostCarryLimb(x: u64)
    ensures x + MAX64 + 1 >= TWO64 && LimbSum(x, MAX64, 1) == x && NextCarry(x, MAX64, 1) == 0
  {
    DivModUnique(x + MAX64 + 1, TWO64, 1, x);
  }

  /** 1 when the carry out of this limb is missed, else 0. */
  function LostAt(y: u64, c: nat): nat
  {
    if y == MAX64 && c == 1 then 1 else 0
  }

  /** The true carry out of one limb is the one the loop passes on plus the one it misses. */
  lemma LimbIdentity(x: u64, y: u64, c: nat)
    requires c <= 1
    ensures x + y + c == (NextCarry(x, y, c) + LostAt(y, c)) * TWO64 + LimbSum(x, y, c)
  {
    if y == MAX64 && c == 1 {
      LostCarryLimb(x);
    } else {
      CarryTest(x, y, c);
    }
  }

  /**
   * The value the missed carries take away from the result: a carry missed
   * out of a limb other than the most significant one has the weight of the
   * limb above it.
   */
  function LostWeight(a: seq<u64>, b: seq<u64>, c: nat): nat
    requires |a| == |b|
  {
    if |a| <= 1 then 0
    else
      var n := |a| - 1;
      (LostWeight(a[..n], b[..n], NextCarry(a[n], b[n], c)) + LostAt(b[n], c)) * TWO64
  }

  /** The true carry out of the most significant limb, which the result drops. */
  function CarryOut(a: seq<u64>, b: seq<u64>, c: nat): nat
    requires |a| == |b|
  {
    if |a| == 0 then c
    else if |a| == 1 then (a[0] + b[0] + c) / TWO64
    else
      var n := |a| - 1;
      CarryOut(a[..n], b[..n], NextCarry(a[n], b[n], c))
  }

  /**
   * The limb loop, exactly: the sum is the result, plus what the missed
   * carries took away, plus the carry dropped at the top.
   */
  lemma {:induction false} AddWithCarryExact(a: seq<u64>, b: seq<u64>, c: nat)
    requires |a| == |b| && c <= 1
    ensures Val(a) + Val(b) + c
         == Val(AddWithCarry(a, b, c)) + LostWeight(a, b, c) + CarryOut(a, b, c) * Pow(TWO64, |a|)
  {
    if |a| == 1 {
      var s := LimbSum(a[0], b[0], c);
      assert a[..0] == [] && b[..0] == [];
      assert AddWithCarry(a, b, c) == [s];
      assert a == [a[0]] && b == [b[0]];
      ValOfSingle(TWO64, a[0]);
      ValOfSingle(TWO64, b[0]);
      ValOfSingle(TWO64, s);
      assert Pow(TWO64, 1) == TWO64;
    } else if |a| > 1 {
      var r := AddWithCarry(a, b, c);
      var n := |a| - 1;
      var c', l, s := NextCarry(a[n], b[n], c), LostAt(b[n], c), LimbSum(a[n], b[n], c);
      var a', b' := a[..n], b[..n];
      assert r[..n] == AddWithCarry(a', b', c') && r[n] == s;
      AddWithCarryExact(a', b', c');
      LimbIdentity(a[n], b[n], c);
      var va: int, vb: int, vr: int := Val(a'), Val(b'), Val(r[..n]);
      var lost: int, k: int, p: int := LostWeight(a', b', c'), CarryOut(a', b', c'), Pow(TWO64, n);
      assert Val(a) == va * TWO64 + a[n] && Val(b) == vb * TWO64 + b[n] && Val(r) == vr * TWO64 + s;
      assert Pow(TWO64, |a|) == TWO64 * p;
      MulSwap(k, TWO64, p);
    }
  }

  /** Nothing is taken away exactly when no carry is lost. */
  lemma {:induction false} LostWeightZero(a: seq<u64>, b: seq<u64>, c: nat)
    requires |a| == |b|
    ensures LostWeight(a, b, c) == 0 <==> NoLostCarry(a, b, c)
  {
    if |a| > 1 {
      var n := |a| - 1;
      LostWeightZero(a[..n], b[..n], NextCarry(a[n], b[n], c));
    }
  }

  /** What the missed carries take away is below the weight of the whole result. */
  lemma {:induction false} LostWeightBound(a: seq<u64>, b: seq<u64>, c: nat)
    requires |a| == |b| && |a| >= 1
    ensures LostWeight(a, b, c) + TWO64 <= Pow(TWO64, |a|)
  {
    if |a| == 1 {
      assert Pow(TWO64, 1) == TWO64;
    } else {
      var n := |a| - 1;
      var lost := LostWeight(a[..n], b[..n], NextCarry(a[n], b[n], c));
      LostWeightBound(a[..n], b[..n], NextCarry(a[n], b[n], c));
      var p := Pow(TWO64, n);
      assert lost + LostAt(b[n], c) <= p - 1;
      MulMonotone(p - 1, lost + LostAt(b[n], c), TWO64);
      assert Pow(TWO64, |a|) == TWO64 * p;
    }
  }

  /** The limb loop computes the sum modulo 2^(64|a|) when no carry is lost. */
  lemma {:induction false} AddWithCarryValue(a: seq<u64>, b: seq<u64>, c: nat)
    requires |a| == |b| && c <= 1 && NoLostCarry(a, b, c)
    ensures Val(AddWithCarry(a, b, c)) == (Val(a) + Val(b) + c) % Pow(TWO64, |a|)
  {
    var r := AddWithCarry(a, b, c);
    AddWithCarryExact(a, b, c);
    LostWeightZero(a, b, c);
    LimbsBelow(r);
    ValOfBound(TWO64, r);
    DroppedCarry(Val(a) + Val(b) + c, Val(r), CarryOut(a, b, c), Pow(TWO64, |a|));
  }

  /** A sum that is `v` plus whole multiples of `p` leaves `v` modulo `p`. */
  lemma DroppedCarry(t: int, v: int, k: int, p: int)
    requires p > 0 && 0 <= v < p && t == v + k * p
    ensures t % p == v
  {
    DivModUnique(t, p, k, v);
  }

  /** `t` exceeds `v` by a positive amount below `p`, up to multiples of `p`: then `t % p` is not `v`. */
  lemma OffsetModulus(t: int, v: int, lost: int, k: int, p: int)
    requires p > 0 && 0 <= v < p && 0 < lost < p && t == v + lost + k * p
    ensures t % p != v
  {
    if t % p == v {
      var j := t / p - k;
      assert lost == p * j;
      if j >= 1 {
        MulMonotone(j, 1, p);
      }
    }
  }

  /** The addition is exact if and only if no carry is lost. */
  lemma AddExactIff(a: Int512, b: Int512)
    ensures AddIsExact(a, b) <==> Val(Add(a, b)) == (Val(a) + Val(b)) % TWO512
  {
    if AddIsExact(a, b) {
      AddValue(a, b);
    } else {
      var r := Add(a, b);
      AddWithCarryExact(a, b, 0);
      LostWeightZero(a, b, 0);
      LostWeightBound(a, b, 0);
      PowersOf2();
      ValBound(r);
      OffsetModulus(Val(a) + Val(b), Val(r), LostWeight(a, b, 0), CarryOut(a, b, 0), TWO512);
    }
  }

  /** Without a lost carry the result is the sum modulo 2^512. */
  lemma AddValue(a: Int512, b: Int512)
    requires AddIsExact(a, b)
    ensures Val(Add(a, b)) == (Val(a) + Val(b)) % TWO512
  {
    AddWithCarryValue(a, b, 0);
    PowersOf2();
  }

  /** A sufficient condition read off the operand alone: no limb of `b` below the top is 2^64-1. */
  lemma {:induction false} NoMaxLimbNoLostCarry(a: seq<u64>, b: seq<u64>, c: nat)
    requires |a| == |b|
    requires forall i :: 1 <= i < |b| ==> b[i] != MAX64
    ensures NoLostCarry(a, b, c)
  {
    if |a| > 1 {
      var n := |a| - 1;
      NoMaxLimbNoLostCarry(a[..n], b[..n], NextCarry(a[n], b[n], c));
    }
  }

  /** A zero limb and no incoming carry leave the other limb as it is and carry nothing. */
  lemma ZeroLimb(x: u64)
    ensures LimbSum(x, 0, 0) == x && NextCarry(x, 0, 0) == 0
    ensures LimbSum(0, x, 0) == x && NextCarry(0, x, 0) == 0
  {
    DivModUnique(x, TWO64, 0, x);
  }

  /** `n` zero limbs. */
  function ZeroLimbs(n: nat): (r: seq<u64>)
    ensures |r| == n
  {
    seq(n, _ => 0)
  }

  lemma {:induction false} AddWithCarryZeroRight(a: seq<u64>)
    ensures AddWithCarry(a, ZeroLimbs(|a|), 0) == a
  {
    if |a| > 0 {
      var n := |a| - 1;
      var pre := a[..n];
      assert ZeroLimbs(|a|)[..n] == ZeroLimbs(n);
      ZeroLimb(a[n]);
      AddWithCarryZeroRight(pre);
      assert a == pre + [a[n]];
    }
  }

  lemma {:induction false} AddWithCarryZeroLeft(a: seq<u64>)
    ensures AddWithCarry(ZeroLimbs(|a|), a, 0) == a
  {
    if |a| > 0 {
      var n := |a| - 1;
      var pre := a[..n];
      var z := ZeroLimbs(|a|);
      assert z[..n] == ZeroLimbs(n) && z[n] == 0;
      ZeroLimb(a[n]);
      assert AddWithCarry(z, a, 0) == AddWithCarry(ZeroLimbs(n), pre, 0) + [a[n]];
      AddWithCarryZeroLeft(pre);
      assert a == pre + [a[n]];
    }
  }

  /** Adding an all-zero operand on either side returns the other operand. */
  lemma AddZero(a: Int512)
    ensures Add(a, Zero) == a && Add(Zero, a) == a
  {
    AddWithCarryZeroRight(a);
    AddWithCarryZeroLeft(a);
    assert ZeroLimbs(8) == Zero;
  }

  /**
   * The missed carry is real: with a = 2^64-1 and b = (2^64-1)·2^64 + 1 the
   * loop returns zero instead of 2^128, while the swapped call is exact, so
   * the operation is not commutative.
   */
  lemma LostCarryExample()
    ensures var a: Int512 := [0, 0, 0, 0, 0, 0, 0, MAX64];
            var b: Int512 := [0, 0, 0, 0, 0, 0, MAX64, 1];
            && Add(a, b) == Zero
            && Add(a, b) != Add(b, a)
            && Val(Add(b, a)) == (Val(a) + Val(b)) % TWO512
            && Val(Add(a, b)) != (Val(a) + Val(b)) % TWO512
  {
    var a: Int512 := [0, 0, 0, 0, 0, 0, 0, MAX64];
    var b: Int512 := [0, 0, 0, 0, 0, 0, MAX64, 1];
    var a7, b7, a6, b6, a5, b5 := a[..7], b[..7], a[..6], b[..6], a[..5], b[..5];
    assert a7[..6] == a6 && b7[..6] == b6 && a6[..5] == a5 && b6[..5] == b5;
    assert a7[6] == 0 && b7[6] == MAX64 && a6[5] == 0 && b6[5] == 0;
    // a + b: the carry out of limb 7 is seen, the one out of limb 6 is lost
    assert NextCarry(a[7], b[7], 0) == 1;
    assert Add(a, b) == AddWithCarry(a7, b7, 1) + [0];
    assert NextCarry(a7[6], b7[6], 1) == 0;
    assert AddWithCarry(a7, b7, 1) == AddWithCarry(a6, b6, 0) + [0];
    AddWithCarryZeroLeft(b6);
    assert ZeroLimbs(6) == a6;
    assert Add(a, b) == Zero;
    // b + a: both carries are seen
    assert NextCarry(b[7], a[7], 0) == 1;
    assert Add(b, a) == AddWithCarry(b7, a7, 1) + [0];
    assert NextCarry(b7[6], a7[6], 1) == 1;
    assert AddWithCarry(b7, a7, 1) == AddWithCarry(b6, a6, 1) + [0];
    assert AddWithCarry(b6, a6, 1) == AddWithCarry(b5, a5, 0) + [1];
    assert Add(b, a)[5] == 1;
    NoMaxLimbNoLostCarry(b7, a7, 1);
    AddValue(b, a);
    ValInjective(Add(a, b), Add(b, a));
  }

  /** int512_add: `result->parts[i]` written from i = 7 down to 0 with carry `ost`. */
  method Int512Add(a: Int512, b: Int512) returns (result: Int512)
    ensures result == Add(a, b)
    ensures AddIsExact(a, b) <==> Val(result) == (Val(a) + Val(b)) % TWO512
  {
    var parts := new u64[8](_ => 0);
    var ost: nat := 0;
    var i := 7;
    assert a[..8] == a && b[..8] == b && parts[8..] == [];
    while i >= 0
      invariant -1 <= i <= 7 && ost <= 1
      invariant Add(a, b) == AddWithCarry(a[..i + 1], b[..i + 1], ost) + parts[i + 1..]
    {
      var sum: u64 := (a[i] + b[i] + ost) % TWO64;
      parts[i] := sum;
      assert a[..i + 1][..i] == a[..i] && b[..i + 1][..i] == b[..i];
      ost := if sum < a[i] then 1 else 0;
      i := i - 1;
    }
    result := parts[..];
    AddExactIff(a, b);
  }
}
