/**
 * `int512_div` (cmd/hex_int512_pkg.c:51-86): division of a 512-bit value by
 * a 64-bit divisor, one bit at a time from the most significant bit, with
 * the remainder `ost` kept below the divisor. The quotient is then rounded
 * half up: when twice the remainder reaches the divisor, one is added with a
 * carry that runs from limb 7 towards limb 0.
 */
module Int512Div {
  import opened Arith
  import opened Positional
  import opened Bits
  import opened Int512

  const TWO63: nat := 0x8000_0000_0000_0000

  /** Whether the remainder `r` of a division by `d` rounds the quotient up. */
  predicate RoundsUp(r: nat, d: nat)
  {
    2 * r >= d
  }

  /** The quotient of `v` by `d`, plus one when twice the remainder reaches `d`. */
  function RoundedQuotient(v: nat, d: nat): nat
    requires d > 0
  {
    v / d + (if RoundsUp(v % d, d) then 1 else 0)
  }

  /**
   * What the division yields: all zero for divisor 0, and otherwise the
   * quotient rounded to the nearest integer, halves rounded up.
   */
  function DivRound(a: Int512, d: nat): (r: Int512)
  {
    if d == 0 then Zero
    else
      ValBound(a);
      RoundedFits(Val(a), d);
      FromNat(RoundedQuotient(Val(a), d))
  }

  /** The rounded quotient of a 512-bit value never needs a 513th bit. */
  lemma RoundedFits(v: nat, d: nat)
    requires d > 0 && v < TWO512
    ensures RoundedQuotient(v, d) < TWO512
  {
    if d == 1 {
      DivModUnique(v, 1, v, 0);
    } else {
      DivAtMostHalf(v, d);
    }
  }

  /**
   * `r` is the nearest integer to `v / d` with halves going up:
   * `r - 1/2 <= v / d < r + 1/2`.
   */
  predicate Nearest(v: nat, d: nat, r: nat)
  {
    d * (2 * r) <= 2 * v + d < d * (2 * r + 2)
  }

  /** The nearest integer, halves going up, is the floor of `(2v + d) / 2d`. */
  lemma NearestIsFloor(v: nat, d: nat, r: nat)
    requires d > 0
    ensures Nearest(v, d, r) <==> r == (2 * v + d) / (2 * d)
  {
    var n, m := 2 * v + d, 2 * d;
    assert d * (2 * r) == m * r && d * (2 * r + 2) == m * r + m;
    if Nearest(v, d, r) {
      DivModUnique(n, m, r, n - m * r);
    }
    if r == n / m {
      assert m * r <= n < m * r + m;
    }
  }

  /** The value of the result: the quotient, plus one when twice the remainder reaches the divisor. */
  lemma DivRoundValue(a: Int512, d: nat)
    requires d > 0
    ensures Val(DivRound(a, d)) == RoundedQuotient(Val(a), d)
  {
    ValBound(a);
    RoundedFits(Val(a), d);
    ValFromNat(RoundedQuotient(Val(a), d));
  }

  /** The rounded quotient in closed form: `floor((2v + d) / 2d)`. */
  lemma DivRoundFloor(a: Int512, d: nat)
    requires d > 0
    ensures Val(DivRound(a, d)) == (2 * Val(a) + d) / (2 * d)
  {
    DivRoundValue(a, d);
    QuotientRounding(Val(a), d);
  }

  lemma QuotientRounding(v: nat, d: nat)
    requires d > 0
    ensures (2 * v + d) / (2 * d) == RoundedQuotient(v, d)
  {
    RoundingArith(v, d, v / d, v % d);
  }

  lemma RoundingArith(v: nat, d: nat, q: nat, rem: nat)
    requires 0 <= rem < d && v == d * q + rem
    ensures (2 * v + d) / (2 * d) == q + (if RoundsUp(rem, d) then 1 else 0)
  {
    var t := d * q;
    assert (2 * d) * q == 2 * t;
    if RoundsUp(rem, d) {
      assert (2 * d) * (q + 1) == 2 * t + 2 * d;
      DivModUnique(2 * v + d, 2 * d, q + 1, 2 * rem - d);
    } else {
      DivModUnique(2 * v + d, 2 * d, q, 2 * rem + d);
    }
  }

  /** The result is the nearest integer to `Val(a) / d`, halves going up, and no other number is. */
  lemma DivRoundNearest(a: Int512, d: nat, r: nat)
    requires d > 0
    ensures r == Val(DivRound(a, d)) <==> Nearest(Val(a), d, r)
  {
    DivRoundFloor(a, d);
    NearestIsFloor(Val(a), d, r);
  }

  /** Any quotient and remainder of `v` by `d` determine the rounded quotient. */
  lemma QuotientOf(v: nat, d: nat, q: nat, rem: nat)
    requires rem < d && v == d * q + rem
    ensures RoundedQuotient(v, d) == q + (if RoundsUp(rem, d) then 1 else 0)
  {
    DivModUnique(v, d, q, rem);
  }

  /** Dividing by one changes nothing. */
  lemma DivByOne(a: Int512)
    ensures DivRound(a, 1) == a
  {
    DivRoundValue(a, 1);
    QuotientOf(Val(a), 1, Val(a), 0);
    ValInjective(DivRound(a, 1), a);
  }

  /** Dividing a value `n` times as large as `v` by `n` gives `v` back. */
  lemma DivExact(m: Int512, n: nat, v: Int512)
    requires n >= 1 && Val(m) == n * Val(v)
    ensures DivRound(m, n) == v
  {
    DivRoundValue(m, n);
    QuotientOf(Val(m), n, Val(v), 0);
    ValInjective(DivRound(m, n), v);
  }

  /** `(ost << 1) | bit` on a remainder below a divisor of at most 2^63. */
  lemma ShiftInBit(ost: u64, d: nat, bit: nat)
    requires ost < d <= TWO63 && bit < 2
    ensures BitOr(Shl(ost, 1), bit) == 2 * ost + bit < TWO64
  {
    assert Pow(2, 1) == 2 by {
      assert Pow(2, 0) == 1;
    }
    ShlNoWrap(ost, 1);
    BitOrDisjoint(bit, ost, 1);
  }

  /** The next bit of `cur` from the top: `(cur >> b) & 1`. */
  lemma NextBit(cur: u64, b: nat)
    requires b < 64
    ensures cur / Pow(2, b) == 2 * (cur / Pow(2, b + 1)) + Shr(cur, b) % 2
  {
    DivDiv(cur, Pow(2, b), 2);
    assert Pow(2, b + 1) == 2 * Pow(2, b);
    assert Pow(2, b) * 2 == Pow(2, b + 1);
  }

  /** `parts[p] |= 1ULL << b` on a limb whose bits at b and below are clear. */
  lemma SetBit(qp: nat, b: nat)
    requires b < 64 && qp < Pow(2, 63 - b)
    ensures Shl(1, b) == Pow(2, b)
    ensures BitOr(qp * Pow(2, b + 1), Shl(1, b)) == (2 * qp + 1) * Pow(2, b) < TWO64
    ensures Pow(2, b + 1) == 2 * Pow(2, b) && qp * Pow(2, b + 1) == (2 * qp) * Pow(2, b)
  {
    var w, hiw := Pow(2, b), Pow(2, 63 - b);
    BitWeights(b);
    SetBitBound(qp, w, hiw);
    ShlNoWrap(1, b);
    BitOrDisjoint(w, qp, b + 1);
    Reassociate(qp, w);
  }

  lemma Reassociate(qp: nat, w: nat)
    ensures qp * (2 * w) == (2 * qp) * w && w + qp * (2 * w) == (2 * qp + 1) * w
  {
  }

  /** The weights of bit `b`, of bit `b + 1` and of the bits above `b` in a 64-bit limb. */
  lemma BitWeights(b: nat)
    requires b < 64
    ensures Pow(2, b + 1) == 2 * Pow(2, b)
    ensures Pow(2, b) * (2 * Pow(2, 63 - b)) == TWO64
  {
    assert Pow(2, 64 - b) == 2 * Pow(2, 63 - b);
    Pow2To64();
    PowAdd(2, b, 64 - b);
  }

  lemma SetBitBound(qp: nat, w: nat, hiw: nat)
    requires qp < hiw && w * (2 * hiw) == TWO64
    ensures (2 * qp + 1) * w < TWO64 && w < TWO64
  {
    MulMonotone(hiw, qp + 1, 2 * w);
    assert (qp + 1) * (2 * w) == (2 * qp + 1) * w + w;
    assert w * (2 * hiw) == (2 * hiw) * w;
    MulMonotone(2 * hiw, 2, w);
  }

  lemma Doubling(ost0: nat, hiw: nat, hi: nat, d: nat, qp: nat, ost: nat, bit: nat)
    requires ost0 * hiw + hi == d * qp + ost
    ensures ost0 * (2 * hiw) + (2 * hi + bit) == d * (2 * qp) + (2 * ost + bit)
    ensures d * (2 * qp + 1) == d * (2 * qp) + d
  {
  }

  /** Appending one limb to both the dividend and the quotient keeps `a = d * q + ost`. */
  lemma LimbInvariant(aPre: seq<u64>, x: u64, qPre: seq<u64>, y: u64, d: nat, ost0: nat, ost: nat)
    requires Val(aPre) == d * Val(qPre) + ost0
    requires ost0 * TWO64 + x == d * y + ost
    ensures Val(aPre + [x]) == d * Val(qPre + [y]) + ost
  {
    assert (aPre + [x])[..|aPre|] == aPre;
    assert (qPre + [y])[..|qPre|] == qPre;
    var va, vq := Val(aPre), Val(qPre);
    assert Val(aPre + [x]) == va * TWO64 + x;
    assert Val(qPre + [y]) == vq * TWO64 + y;
    assert va * TWO64 == d * vq * TWO64 + ost0 * TWO64;
  }

  /** Storing `limb + 1` at limb `i` adds the weight of that limb. */
  lemma AddAtLimb(s: seq<u64>, i: nat, x: u64)
    requires |s| == 8 && i < 8
    ensures Val(s[i := x]) + s[i] * Pow(TWO64, 7 - i) == Val(s) + x * Pow(TWO64, 7 - i)
  {
    ValOfUpdate(TWO64, s, i, x);
  }

  /** The weight of a carry entering limb `i` (2^512 once it has left limb 0). */
  function CarryWeight(i: int): nat
    requires -1 <= i <= 7
  {
    Pow(TWO64, 7 - i)
  }

  /** One step of the rounding carry: limb `i` of `before` plus one, wrapped, is limb `i` of `after`. */
  lemma CarryStep(before: seq<u64>, after: seq<u64>, i: int, q1: nat)
    requires |before| == 8 && 0 <= i < 8 && Val(before) + CarryWeight(i) == q1
    requires after == before[i := (before[i] + 1) % TWO64]
    ensures after[i] >= 1 ==> Val(after) == q1
    ensures after[i] == 0 ==> Val(after) + CarryWeight(i - 1) == q1
  {
    var w := Pow(TWO64, 7 - i);
    var x: u64 := after[i];
    AddAtLimb(before, i, x);
    assert Pow(TWO64, 7 - (i - 1)) == TWO64 * w;
    CarryArith(Val(after), Val(before), before[i], x, w, q1);
  }

  lemma CarryArith(after: nat, before: nat, limb: u64, x: u64, w: nat, q1: nat)
    requires after + limb * w == before + x * w && before + w == q1
    requires x == (limb + 1) % TWO64
    ensures x >= 1 ==> after == q1
    ensures x == 0 ==> after + TWO64 * w == q1
  {
    if x == 0 {
      assert limb == MAX64;
      assert limb * w + w == TWO64 * w;
    } else {
      assert x == limb + 1;
      assert x * w == limb * w + w;
    }
  }

  /** Once the carry has passed limb 0 the value has reached 2^512. */
  lemma CarryPassed(s: seq<u64>, q1: nat)
    requires Val(s) + CarryWeight(-1) == q1
    ensures q1 >= TWO512
  {
    PowersOf2();
  }

  /** The weight of the bits of a limb above bit `b`, and of bit `b + 1`. */
  function HighWeight(b: int): nat
    requires -1 <= b <= 63
  {
    Pow(2, 63 - b)
  }

  function LowWeight(b: int): nat
    requires -1 <= b <= 63
  {
    Pow(2, b + 1)
  }

  /**
   * The state of the bit loop before bit `b`: the bits of `cur` above `b`,
   * shifted in after the incoming remainder `ost0`, have been divided into the
   * quotient bits `qp` (stored in `q` at their place) and the remainder `rem`.
   */
  ghost predicate Dividing(cur: u64, d: nat, ost0: nat, b: int, qp: nat, q: u64, rem: u64)
  {
    && -1 <= b <= 63 && 0 < d <= TWO63 && rem < d
    && qp < HighWeight(b) && q == qp * LowWeight(b)
    && ost0 * HighWeight(b) + cur / LowWeight(b) == d * qp + rem
  }

  lemma DividingStart(cur: u64, d: nat, ost0: u64)
    requires 0 < d <= TWO63 && ost0 < d
    ensures Dividing(cur, d, ost0, 63, 0, 0, ost0)
  {
    assert Pow(2, 0) == 1;
    Pow2To64();
    DivModUnique(cur, TWO64, 0, cur);
  }

  /** How the weights and the high bits of `cur` move from bit `b` to bit `b - 1`. */
  lemma WeightsStep(cur: u64, b: int)
    requires 0 <= b <= 63
    ensures HighWeight(b - 1) == 2 * HighWeight(b) && LowWeight(b) == 2 * LowWeight(b - 1)
    ensures LowWeight(b - 1) == Pow(2, b)
    ensures cur / LowWeight(b - 1) == 2 * (cur / LowWeight(b)) + Shr(cur, b) % 2
  {
    NextBit(cur, b);
  }

  /** Shifting bit `b` of `cur` into the remainder: `(ost << 1) | ((cur >> b) & 1)`. */
  lemma DividingShift(cur: u64, d: nat, ost0: nat, b: int, qp: nat, q: u64, rem: u64)
    requires Dividing(cur, d, ost0, b, qp, q, rem) && b >= 0
    ensures BitOr(Shl(rem, 1), Shr(cur, b) % 2) == 2 * rem + Shr(cur, b) % 2 < TWO64
  {
    ShiftInBit(rem, d, Shr(cur, b) % 2);
  }

  /** The pass at bit `b` when the divisor is subtracted and bit `b` of the limb is set. */
  lemma DividingSubtract(cur: u64, d: nat, ost0: nat, b: int, qp: nat, q: u64, rem: u64)
    requires Dividing(cur, d, ost0, b, qp, q, rem) && b >= 0
    requires 2 * rem + Shr(cur, b) % 2 >= d
    ensures BitOr(q, Shl(1, b)) < TWO64
    ensures Dividing(cur, d, ost0, b - 1, 2 * qp + 1, BitOr(q, Shl(1, b)), 2 * rem + Shr(cur, b) % 2 - d)
  {
    var bit := Shr(cur, b) % 2;
    WeightsStep(cur, b);
    SetBit(qp, b);
    Doubling(ost0, HighWeight(b), cur / LowWeight(b), d, qp, rem, bit);
  }

  /** The pass at bit `b` when the remainder stays below the divisor. */
  lemma DividingKeep(cur: u64, d: nat, ost0: nat, b: int, qp: nat, q: u64, rem: u64)
    requires Dividing(cur, d, ost0, b, qp, q, rem) && b >= 0
    requires 2 * rem + Shr(cur, b) % 2 < d
    ensures Dividing(cur, d, ost0, b - 1, 2 * qp, q, 2 * rem + Shr(cur, b) % 2)
  {
    var bit := Shr(cur, b) % 2;
    WeightsStep(cur, b);
    Reassociate(qp, LowWeight(b - 1));
    Doubling(ost0, HighWeight(b), cur / LowWeight(b), d, qp, rem, bit);
  }

  lemma DividingDone(cur: u64, d: nat, ost0: nat, qp: nat, q: u64, rem: u64)
    requires Dividing(cur, d, ost0, -1, qp, q, rem)
    ensures ost0 * TWO64 + cur == d * q + rem
  {
    Pow2To64();
    assert Pow(2, 0) == 1;
    DivModUnique(cur, 1, cur, 0);
  }

  /**
   * The bit loop of int512_div for limb `partIdx` (cmd/hex_int512_pkg.c:62-72):
   * it shifts the 64 bits of `currentPart` into the remainder `ost` and sets
   * bit `bitIdx` of the limb whenever the divisor is subtracted. Afterwards
   * the limb and the new remainder are the quotient and remainder of
   * `ost * 2^64 + currentPart`.
   */
  method DivideLimb(parts: array<u64>, partIdx: nat, currentPart: u64, divisor: u64, ost: u64) returns (rem: u64)
    requires partIdx < parts.Length && parts[partIdx] == 0 && 0 < divisor <= TWO63 && ost < divisor
    modifies parts
    ensures rem < divisor && ost * TWO64 + currentPart == divisor * parts[partIdx] + rem
    ensures forall k :: 0 <= k < parts.Length && k != partIdx ==> parts[k] == old(parts[k])
  {
    rem := ost;
    ghost var qp: nat := 0;
    var bitIdx := 63;
    DividingStart(currentPart, divisor, ost);
    while bitIdx >= 0
      invariant Dividing(currentPart, divisor, ost, bitIdx, qp, parts[partIdx], rem)
      invariant parts[..] == old(parts[..])[partIdx := parts[partIdx]]
    {
      ghost var rem0 := rem;
      DividingShift(currentPart, divisor, ost, bitIdx, qp, parts[partIdx], rem);
      rem := BitOr(Shl(rem, 1), Shr(currentPart, bitIdx) % 2);
      if rem >= divisor {
        DividingSubtract(currentPart, divisor, ost, bitIdx, qp, parts[partIdx], rem0);
        rem := rem - divisor;
        parts[partIdx] := BitOr(parts[partIdx], Shl(1, bitIdx));
        qp := 2 * qp + 1;
      } else {
        DividingKeep(currentPart, divisor, ost, bitIdx, qp, parts[partIdx], rem0);
        qp := 2 * qp;
      }
      bitIdx := bitIdx - 1;
    }
    DividingDone(currentPart, divisor, ost, qp, parts[partIdx], rem);
  }

  /**
   * The rounding step of int512_div (cmd/hex_int512_pkg.c:74-85): add one at
   * limb 7 and carry towards limb 0 for as long as a limb wraps to zero.
   */
  method RoundUp(parts: array<u64>)
    requires parts.Length == 8 && Val(parts[..]) + 1 < TWO512
    modifies parts
    ensures Val(parts[..]) == old(Val(parts[..])) + 1
  {
    ghost var q1 := Val(parts[..]) + 1;
    var carry: u64 := 1;
    var i := 7;
    assert CarryWeight(7) == 1;
    while i >= 0
      invariant -1 <= i <= 7 && carry == 1
      invariant Val(parts[..]) + CarryWeight(i) == q1
    {
      ghost var before := parts[..];
      parts[i] := (parts[i] + carry) % TWO64;
      CarryStep(before, parts[..], i, q1);
      if parts[i] < carry {
        carry := 1;
      } else {
        break;
      }
      i := i - 1;
    }
    if i < 0 {
      CarryPassed(parts[..], q1);
      assert false;
    }
  }

  /** int512_div, with `ost` and `part_idx` as in the source. */
  method Int512Div(a: Int512, divisor: u64) returns (result: Int512)
    requires divisor <= TWO63
    ensures result == DivRound(a, divisor)
  {
    var parts := new u64[8](_ => 0);
    if divisor == 0 {
      result := parts[..];
      assert result == Zero;
      return;
    }
    var ost: u64 := 0;
    var partIdx := 0;
    assert a[..0] == [] && parts[..0] == [];
    while partIdx < 8
      invariant 0 <= partIdx <= 8 && ost < divisor
      invariant Val(a[..partIdx]) == divisor * Val(parts[..partIdx]) + ost
      invariant forall k :: partIdx <= k < 8 ==> parts[k] == 0
    {
      var currentPart := a[partIdx];
      ghost var ost0 := ost;
      ghost var done := parts[..partIdx];
      ost := DivideLimb(parts, partIdx, currentPart, divisor, ost);
      assert parts[..partIdx] == done;
      LimbInvariant(a[..partIdx], currentPart, parts[..partIdx], parts[partIdx], divisor, ost0, ost);
      assert a[..partIdx + 1] == a[..partIdx] + [currentPart];
      assert parts[..partIdx + 1] == parts[..partIdx] + [parts[partIdx]];
      partIdx := partIdx + 1;
    }
    assert a[..8] == a && parts[..8] == parts[..];
    ghost var q := Val(parts[..]);
    QuotientOf(Val(a), divisor, q, ost);
    DivRoundValue(a, divisor);
    ShiftInBit(ost, divisor, 0);
    if Shl(ost, 1) >= divisor {
      ValBound(a);
      RoundedFits(Val(a), divisor);
      RoundUp(parts);
    }
    result := parts[..];
    ValInjective(result, DivRound(a, divisor));
  }
}
