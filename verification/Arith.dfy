/** Powers of two; quotients and remainders by a positive number that is not a literal. */
module Arith {

  function Pow2(n: nat): (p: nat)
    ensures 1 <= p
  {
    if n == 0 then 1 else 2 * Pow2(n - 1)
  }

  lemma {:induction false} Pow2Add(a: nat, b: nat)
    ensures Pow2(a + b) == Pow2(a) * Pow2(b)
  {
    if a > 0 {
      Pow2Add(a - 1, b);
    }
  }

  lemma {:induction false} Pow2Monotone(a: nat, b: nat)
    requires a <= b
    ensures Pow2(a) <= Pow2(b)
    decreases b
  {
    if a < b {
      Pow2Monotone(a, b - 1);
    }
  }

  lemma MulMonotone(a: nat, b: nat, c: nat)
    requires a <= b
    ensures a * c <= b * c
  {
    assert b * c == a * c + (b - a) * c;
  }

  lemma MulAtLeast(k: int, a: nat)
    requires 1 <= k
    ensures a <= k * a
  {
    assert k * a == (k - 1) * a + a;
    assert 0 <= (k - 1) * a;
  }

  lemma NonPositive(k: int, a: nat)
    requires k <= 0
    ensures k * a <= 0
  {
  }

  lemma PositiveFactor(k: int, a: nat)
    requires 0 < k * a
    ensures 1 <= k
  {
    if k <= 0 {
      NonPositive(k, a);
    }
  }

  /** Quotient and remainder are the only such pair. */
  lemma DivModUnique(x: int, a: nat, q: int, r: int)
    requires a > 0 && x == q * a + r && 0 <= r < a
    ensures x / a == q && x % a == r
  {
    var q0, r0 := x / a, x % a;
    assert x == q0 * a + r0;
    assert (q - q0) * a == r0 - r;
    if q > q0 {
      MulAtLeast(q - q0, a);
    } else if q < q0 {
      MulAtLeast(q0 - q, a);
    }
  }

  lemma MultipleMod(a: nat, k: int)
    requires a > 0
    ensures (k * a) % a == 0
  {
    DivModUnique(k * a, a, k, 0);
  }

  /** Two multiples of `a` that are less than `a` apart coincide. */
  lemma MultiplesApart(x: int, y: int, a: nat)
    requires a > 0 && x % a == 0 && y % a == 0 && x < y
    ensures x + a <= y
  {
    assert x == (x / a) * a && y == (y / a) * a;
    assert (y / a - x / a) * a == y - x;
    PositiveFactor(y / a - x / a, a);
    MulAtLeast(y / a - x / a, a);
  }

  /** Sums and differences of multiples are multiples. */
  lemma MultipleSum(x: int, y: int, a: nat)
    requires a > 0 && x % a == 0 && y % a == 0
    ensures (x + y) % a == 0 && (x - y) % a == 0
  {
    assert x == (x / a) * a && y == (y / a) * a;
    assert x + y == (x / a + y / a) * a && x - y == (x / a - y / a) * a;
    MultipleMod(a, x / a + y / a);
    MultipleMod(a, x / a - y / a);
  }

  /** A multiple of a multiple is a multiple. */
  lemma MultipleTrans(x: int, b: nat, a: nat)
    requires a > 0 && b > 0 && x % b == 0 && b % a == 0
    ensures x % a == 0
  {
    assert x == (x / b) * b && b == (b / a) * a;
    assert x == ((x / b) * (b / a)) * a;
    MultipleMod(a, (x / b) * (b / a));
  }

  function FloorTo(x: nat, a: nat): (r: nat)
    requires a > 0
    ensures r <= x < r + a && r % a == 0
  {
    assert x - x % a == (x / a) * a;
    MultipleMod(a, x / a);
    x - x % a
  }

  function CeilTo(x: nat, a: nat): (r: nat)
    requires a > 0
    ensures x <= r < x + a && r % a == 0
  {
    CeilIsMultiple(x, a);
    x + (a - x % a) % a
  }

  lemma CeilIsMultiple(x: nat, a: nat)
    requires a > 0
    ensures var r := x + (a - x % a) % a; x <= r < x + a && r % a == 0
  {
    if x % a == 0 {
      DivModUnique(a, a, 1, 0);
    } else {
      DivModUnique(a - x % a, a, 0, a - x % a);
      assert x + (a - x % a) == (x / a + 1) * a;
      MultipleMod(a, x / a + 1);
    }
  }

  /** The multiple of `a` at or below `x`, whichever way it was found. */
  lemma FloorUnique(x: nat, a: nat, r: nat)
    requires a > 0 && r <= x < r + a && r % a == 0
    ensures FloorTo(x, a) == r
  {
    var f := FloorTo(x, a);
    if f < r {
      MultiplesApart(f, r, a);
    } else if r < f {
      MultiplesApart(r, f, a);
    }
  }

  /** The multiple of `a` at or above `x`, whichever way it was found. */
  lemma CeilUnique(x: nat, a: nat, r: nat)
    requires a > 0 && x <= r < x + a && r % a == 0
    ensures CeilTo(x, a) == r
  {
    var f := CeilTo(x, a);
    if f < r {
      MultiplesApart(f, r, a);
    } else if r < f {
      MultiplesApart(r, f, a);
    }
  }
}
