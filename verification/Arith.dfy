/** Powers of two and the few division facts the machine-word proofs rest on. */
module Arith {

  function Pow2(n: nat): (r: nat)
    ensures r >= 1
  {
    if n == 0 then 1 else 2 * Pow2(n - 1)
  }

  lemma {:induction false} Pow2Add(a: nat, b: nat)
    ensures Pow2(a + b) == Pow2(a) * Pow2(b)
  {
    if a == 0 {
    } else {
      Pow2Add(a - 1, b);
      assert Pow2(a + b) == 2 * (Pow2(a - 1) * Pow2(b));
    }
  }

  lemma {:induction false} Pow2Monotone(a: nat, b: nat)
    requires a <= b
    ensures Pow2(a) <= Pow2(b)
    decreases b
  {
    if a < b {
      Pow2Monotone(a, b - 1);
    }
  }

  lemma {:induction false} Pow2Above(n: nat)
    ensures n < Pow2(n)
  {
    if n == 0 {
    } else {
      Pow2Above(n - 1);
    }
  }

  lemma MulLe(x: int, y: int, k: int)
    requires x <= y && k >= 0
    ensures k * x <= k * y && x * k <= y * k
  {
  }

  lemma SmallMultipleIsZero(d: int, k: int)
    requires d > 0 && -d < d * k < d
    ensures k == 0
  {
    if k >= 1 {
      MulLe(1, k, d);
    } else if k <= -1 {
      MulLe(k, -1, d);
    }
  }

  /** Quotient and remainder are determined by the division equation. */
  lemma DivModUnique(x: int, d: int, q: int, r: int)
    requires d > 0 && 0 <= r < d
    requires x == d * q + r
    ensures x / d == q && x % d == r
  {
    ghost var q', r' := x / d, x % d;
    assert x == d * q' + r';
    assert d * (q' - q) == d * q' - d * q;
    SmallMultipleIsZero(d, q' - q);
  }

  /** Dividing twice (floor) is dividing by the product. */
  lemma DivDiv(x: int, a: int, b: int)
    requires a > 0 && b > 0
    ensures a * b > 0
    ensures (x / a) / b == x / (a * b)
  {
    var q, r := x / a, x % a;
    var q2, r2 := q / b, q % b;
    assert x == a * (b * q2 + r2) + r;
    assert a * (b * q2 + r2) == (a * b) * q2 + a * r2 by { MulAssoc(a, b, q2); }
    MulLe(r2 + 1, b, a);
    assert a * (r2 + 1) == a * r2 + a;
    assert 0 <= a * r2;
    DivModUnique(x, a * b, q2, a * r2 + r);
  }

  lemma MulAssoc(a: int, b: int, c: int)
    ensures a * (b * c) == (a * b) * c
  {
  }

  /** Dropping whole multiples of the divisor before a floor division. */
  lemma DivShiftWhole(x: int, k: int, d: int)
    requires d > 0
    ensures (x + k * d) / d == x / d + k
  {
    DivModUnique(x + k * d, d, x / d + k, x % d);
  }

  lemma CancelLe(k: int, x: int, y: int)
    requires k > 0 && k * x <= k * y
    ensures x <= y
  {
    assert k * (y + 1) == k * y + k;
    if x > y {
      MulLe(y + 1, x, k);
    }
  }

  lemma CancelLt(k: int, x: int, y: int)
    requires k > 0 && k * x < k * y
    ensures x < y
  {
    if x >= y {
      MulLe(y, x, k);
    }
  }

  /** One step of the schoolbook doubling both magic generators perform. */
  lemma DoubleStep(x: nat, d: nat)
    requires d > 0
    ensures 2 * (x % d) >= d ==> (2 * x) / d == 2 * (x / d) + 1 && (2 * x) % d == 2 * (x % d) - d
    ensures 2 * (x % d) < d ==> (2 * x) / d == 2 * (x / d) && (2 * x) % d == 2 * (x % d)
  {
    ghost var q, r := x / d, x % d;
    assert x == d * q + r;
    assert d * (2 * q) == 2 * (d * q);
    assert d * (2 * q + 1) == 2 * (d * q) + d;
    if 2 * r >= d {
      DivModUnique(2 * x, d, 2 * q + 1, 2 * r - d);
    } else {
      DivModUnique(2 * x, d, 2 * q, 2 * r);
    }
  }

  lemma ModShiftWhole(x: int, k: int, d: int)
    requires d > 0
    ensures (x + k * d) % d == x % d
  {
    DivModUnique(x + k * d, d, x / d + k, x % d);
  }

  /** Reducing by a multiple first changes nothing. */
  lemma ModTwice(x: int, a: int, b: int)
    requires a > 0 && b > 0
    ensures a * b > 0 && (x % (a * b)) % a == x % a
  {
    MulLe(1, b, a);
    ghost var q, r := x / (a * b), x % (a * b);
    assert x == (a * b) * q + r;
    MulAssoc(a, b, q);
    assert (b * q) * a == a * (b * q);
    ModShiftWhole(r, b * q, a);
  }

  /** Congruent numbers have congruent sums, differences and products. */
  lemma CongruentOps(x: int, x': int, y: int, y': int, d: int)
    requires d > 0 && x % d == x' % d && y % d == y' % d
    ensures (x + y) % d == (x' + y') % d
    ensures (x - y) % d == (x' - y') % d
    ensures (x * y) % d == (x' * y') % d
  {
    ghost var k, l := x / d - x' / d, y / d - y' / d;
    assert x == x' + k * d && y == y' + l * d;
    assert (k + l) * d == k * d + l * d && (k - l) * d == k * d - l * d;
    ModShiftWhole(x' + y', k + l, d);
    ModShiftWhole(x' - y', k - l, d);
    CongruentProduct(x', y', k, l, d);
  }

  lemma CongruentProduct(x: int, y: int, k: int, l: int, d: int)
    requires d > 0
    ensures ((x + k * d) * (y + l * d)) % d == (x * y) % d
  {
    ghost var kd, ld := k * d, l * d;
    assert (x + kd) * (y + ld) == (x + kd) * y + (x + kd) * ld;
    assert (x + kd) * y == x * y + kd * y;
    assert kd * y == (k * y) * d;
    assert (x + kd) * ld == ((x + kd) * l) * d;
    assert (k * y + (x + kd) * l) * d == (k * y) * d + ((x + kd) * l) * d;
    ModShiftWhole(x * y, k * y + (x + kd) * l, d);
  }
}
