/** Natural-number powers and the division facts the limb arithmetic rests on. */
module Arith {

  function Pow(b: nat, n: nat): (r: nat)
    ensures b >= 1 ==> r >= 1
  {
    if n == 0 then 1 else b * Pow(b, n - 1)
  }

  lemma MulMonotone(x: nat, y: nat, k: nat)
    requires x >= y
    ensures x * k >= y * k
  {
  }

  /** Dividing by at least two gives at most half. */
  lemma DivAtMostHalf(x: nat, d: nat)
    requires d >= 2
    ensures x / d <= x / 2
  {
    var q := x / d;
    assert q * d <= x;
    MulMonotone(d, 2, q);
    assert 2 * q <= x;
    DivModUnique(x, 2, x / 2, x % 2);
  }

  lemma MulSwap(x: int, y: int, z: int)
    ensures x * (y * z) == y * (x * z)
  {
  }

  lemma {:induction false} PowAdd(b: nat, m: nat, n: nat)
    ensures Pow(b, m + n) == Pow(b, m) * Pow(b, n)
  {
    if n > 0 {
      PowAdd(b, m, n - 1);
      MulSwap(b, Pow(b, m), Pow(b, n - 1));
    }
  }

  lemma {:induction false} PowMul(b: nat, m: nat, n: nat)
    ensures Pow(b, m * n) == Pow(Pow(b, m), n)
  {
    if n > 0 {
      PowMul(b, m, n - 1);
      PowAdd(b, m, m * (n - 1));
      assert m * n == m + m * (n - 1);
    }
  }

  lemma {:induction false} PowMonotone(b: nat, m: nat, n: nat)
    requires b >= 1 && m <= n
    ensures Pow(b, m) <= Pow(b, n)
  {
    PowAdd(b, m, n - m);
    MulMonotone(Pow(b, n - m), 1, Pow(b, m));
  }

  /** Quotient and remainder are determined by the division identity. */
  lemma DivModUnique(x: int, m: int, q: int, r: int)
    requires m > 0 && 0 <= r < m && x == m * q + r
    ensures x / m == q && x % m == r
  {
    var q', r' := x / m, x % m;
    assert x == m * q' + r';
    if q' > q {
      assert m * q' - m * q == m * (q' - q);
      MulMonotone(q' - q, 1, m);
      assert false;
    } else if q' < q {
      assert m * q - m * q' == m * (q - q');
      MulMonotone(q - q', 1, m);
      assert false;
    }
  }

  lemma DivDiv(x: nat, a: nat, b: nat)
    requires a > 0 && b > 0
    ensures x / a / b == x / (a * b)
    ensures (x / a) % b * a + x % a == x % (a * b)
  {
    var q1, r1 := x / a, x % a;
    var q2, r2 := q1 / b, q1 % b;
    assert x == a * (b * q2 + r2) + r1;
    assert x == (a * b) * q2 + (a * r2 + r1);
    MulMonotone(b - 1, r2, a);
    assert a * r2 + r1 < a * b;
    DivModUnique(x, a * b, q2, a * r2 + r1);
  }

  lemma ModAddMod(x: nat, y: nat, m: nat)
    requires m > 0
    ensures (x % m + y) % m == (x + y) % m
  {
    var q := x / m;
    assert x + y == m * q + (x % m + y);
    var s := x % m + y;
    DivModUnique(x + y, m, q + s / m, s % m);
  }
}
