/**
 * Big-endian positional notation in base `b`: the first digit is the most
 * significant. Limbs in base 2^64 and hex nibbles in base 16 both use it.
 */
module Positional {
  import opened Arith

  /** Value of a digit sequence, most significant digit first. */
  function ValOf(b: nat, s: seq<nat>): nat
  {
    if |s| == 0 then 0 else ValOf(b, s[..|s| - 1]) * b + s[|s| - 1]
  }

  predicate AllBelow(b: nat, s: seq<nat>)
  {
    forall i :: 0 <= i < |s| ==> s[i] < b
  }

  /** The `n` lowest base-`b` digits of `x`, most significant first. */
  function ToDigits(b: nat, x: nat, n: nat): (r: seq<nat>)
    requires b >= 1
  {
    seq(n, j requires 0 <= j < n => (x / Pow(b, n - 1 - j)) % b)
  }

  function Zeros(n: nat): (r: seq<nat>)
  {
    seq(n, _ => 0)
  }

  lemma {:induction false} ValOfBound(b: nat, s: seq<nat>)
    requires b >= 1 && AllBelow(b, s)
    ensures ValOf(b, s) < Pow(b, |s|)
  {
    if |s| > 0 {
      var n := |s| - 1;
      var v, d := ValOf(b, s[..n]), s[n];
      ValOfBound(b, s[..n]);
      MulMonotone(Pow(b, n) - 1, v, b);
      assert v * b + d <= (Pow(b, n) - 1) * b + (b - 1);
      assert (Pow(b, n) - 1) * b + (b - 1) < Pow(b, n) * b;
    }
  }

  /** The prefix of length `m` is the prefix of length `m - 1` followed by one more digit. */
  lemma ValOfPrefixStep(b: nat, s: seq<nat>, m: nat)
    requires 0 < m <= |s|
    ensures ValOf(b, s[..m]) == ValOf(b, s[..m - 1]) * b + s[m - 1]
  {
    assert s[..m][..m - 1] == s[..m - 1];
  }

  lemma {:induction false} ValOfConcat(b: nat, s: seq<nat>, t: seq<nat>)
    ensures ValOf(b, s + t) == ValOf(b, s) * Pow(b, |t|) + ValOf(b, t)
  {
    if |t| == 0 {
      assert s + t == s;
    } else {
      var n := |t| - 1;
      assert (s + t)[..|s + t| - 1] == s + t[..n];
      ValOfConcat(b, s, t[..n]);
      Regroup(ValOf(b, s), Pow(b, n), ValOf(b, t[..n]), b, t[n]);
    }
  }

  lemma Regroup(v: nat, p: nat, w: nat, b: nat, d: nat)
    ensures (v * p + w) * b + d == v * (b * p) + (w * b + d)
  {
  }

  lemma ValOfSingle(b: nat, d: nat)
    ensures ValOf(b, [d]) == d
  {
    assert [d][..0] == [];
  }

  /** Prepending one digit adds it at the weight of the current length. */
  lemma ValOfCons(b: nat, d: nat, t: seq<nat>)
    ensures ValOf(b, [d] + t) == d * Pow(b, |t|) + ValOf(b, t)
  {
    ValOfConcat(b, [d], t);
    ValOfSingle(b, d);
  }

  lemma {:induction false} ValOfZeros(b: nat, n: nat)
    ensures ValOf(b, Zeros(n)) == 0
  {
    if n > 0 {
      assert Zeros(n)[..n - 1] == Zeros(n - 1);
      ValOfZeros(b, n - 1);
    }
  }

  /** Leading zero digits do not change the value. */
  lemma LeadingZeros(b: nat, n: nat, t: seq<nat>)
    ensures ValOf(b, Zeros(n) + t) == ValOf(b, t)
  {
    ValOfConcat(b, Zeros(n), t);
    ValOfZeros(b, n);
  }

  /** A sequence and its update at `i`, split around position `i`. */
  lemma SplitAround(s: seq<nat>, i: nat, x: nat)
    requires i < |s|
    ensures s == s[..i] + ([s[i]] + s[i + 1..])
    ensures s[i := x] == s[..i] + ([x] + s[i + 1..])
  {
  }

  /** Replacing digit `i` by `x` moves the value by the difference at that digit's weight. */
  lemma ValOfUpdate(b: nat, s: seq<nat>, i: nat, x: nat)
    requires i < |s|
    ensures ValOf(b, s[i := x]) + s[i] * Pow(b, |s| - 1 - i)
         == ValOf(b, s) + x * Pow(b, |s| - 1 - i)
  {
    var pre, post := s[..i], s[i + 1..];
    SplitAround(s, i, x);
    ValOfConcat(b, pre, [s[i]] + post);
    ValOfConcat(b, pre, [x] + post);
    ValOfCons(b, s[i], post);
    ValOfCons(b, x, post);
    var high: int := ValOf(b, pre) * Pow(b, |post| + 1);
    var low: int := ValOf(b, post);
    assert ValOf(b, s) == high + (s[i] * Pow(b, |post|) + low);
    assert ValOf(b, s[i := x]) == high + (x * Pow(b, |post|) + low);
  }

  /** The last digit is the remainder by `b` and the others spell the quotient. */
  lemma SplitLastDigit(b: nat, s: seq<nat>)
    requires b >= 1 && |s| > 0 && AllBelow(b, s)
    ensures AllBelow(b, s[..|s| - 1])
    ensures ValOf(b, s) / b == ValOf(b, s[..|s| - 1]) && ValOf(b, s) % b == s[|s| - 1]
  {
    var q: int := ValOf(b, s[..|s| - 1]);
    assert ValOf(b, s) == b * q + s[|s| - 1];
    DivModUnique(ValOf(b, s), b, q, s[|s| - 1]);
  }

  /** Base-`b` notation of a fixed length is unique. */
  lemma {:induction false} ValOfInjective(b: nat, s: seq<nat>, t: seq<nat>)
    requires b >= 1 && |s| == |t| && AllBelow(b, s) && AllBelow(b, t)
    requires ValOf(b, s) == ValOf(b, t)
    ensures s == t
  {
    if |s| > 0 {
      var n := |s| - 1;
      SplitLastDigit(b, s);
      SplitLastDigit(b, t);
      ValOfInjective(b, s[..n], t[..n]);
      assert s == s[..n] + [s[n]] && t == t[..n] + [t[n]];
    }
  }

  /** Digit extraction by division and remainder inverts ValOf modulo b^n. */
  lemma {:induction false} ValOfToDigits(b: nat, x: nat, n: nat)
    requires b >= 2
    ensures AllBelow(b, ToDigits(b, x, n))
    ensures ValOf(b, ToDigits(b, x, n)) == x % Pow(b, n)
  {
    var d := ToDigits(b, x, n);
    if n > 0 {
      ToDigitsPrefix(b, x, n - 1);
      assert Pow(b, 0) == 1;
      assert d[n - 1] == x % b;
      ValOfToDigits(b, x / b, n - 1);
      DivDiv(x, b, Pow(b, n - 1));
    }
  }

  /** Dropping the last digit of `x` is the same as taking the digits of `x / b`. */
  lemma ToDigitsPrefix(b: nat, x: nat, n: nat)
    requires b >= 2
    ensures ToDigits(b, x, n + 1)[..n] == ToDigits(b, x / b, n)
  {
    var d, d' := ToDigits(b, x, n + 1), ToDigits(b, x / b, n);
    forall j | 0 <= j < n
      ensures d[j] == d'[j]
    {
      DivPowStep(x, b, n - 1 - j);
    }
  }

  lemma DivPowStep(x: nat, b: nat, k: nat)
    requires b >= 2
    ensures x / Pow(b, k + 1) == x / b / Pow(b, k)
  {
    DivDiv(x, b, Pow(b, k));
  }
}
