/** Software 64-bit multiplication and division.  Words are natural numbers below 2^64; shifting
    left drops what leaves the word. */
module I64Div {
  import opened Arith

  const WORD: nat := 0x1_0000_0000_0000_0000

  function Shl(x: nat, i: nat): nat
    requires i < 64
  {
    (x * Pow2(i)) % WORD
  }

  function Shr(x: nat, i: nat): nat
    requires i < 64
  {
    Quotient(x, Pow2(i))
  }

  function Quotient(x: nat, a: nat): (q: nat)
    requires a > 0
    ensures q * a <= x < q * a + a
  {
    x / a
  }

  /** `w | (1 << i)`. */
  function SetBit(w: nat, i: nat): nat
    requires i < 64
  {
    if Shr(w, i) % 2 == 1 then w else w + Pow2(i)
  }

  lemma Shift8(i: nat)
    ensures Pow2(i + 8) == 256 * Pow2(i)
  {
    assert Pow2(i + 8) == 4 * Pow2(i + 6) && Pow2(i + 6) == 4 * Pow2(i + 4);
    assert Pow2(i + 4) == 4 * Pow2(i + 2) && Pow2(i + 2) == 4 * Pow2(i);
  }

  lemma WordIsPow2()
    ensures Pow2(64) == WORD
  {
    assert Pow2(8) == 256;
    Shift8(8);
    Shift8(16);
    Shift8(24);
    Shift8(32);
    Shift8(40);
    Shift8(48);
    Shift8(56);
  }

  lemma Wrap(a: nat, b: nat, c: nat)
    ensures ((a + b % WORD) % WORD + c) % WORD == (a + b + c) % WORD
  {
  }

  /** One round of the multiplication: the low bit of y, at place p, is taken into the sum. */
  lemma MulRound(x: nat, y: nat, p: nat, sum: nat)
    ensures
      var sum' := if y % 2 == 1 then (sum + (x * p) % WORD) % WORD else sum;
      (sum' + x * (y / 2) * (2 * p)) % WORD == (sum + x * y * p) % WORD
  {
    var h := y / 2;
    if y % 2 == 1 {
      assert x * y * p == x * p + x * h * (2 * p) by {
        assert y == 2 * h + 1;
        Distribute(x, h, p);
      }
      Wrap(sum, x * p, x * h * (2 * p));
    } else {
      assert x * y * p == x * h * (2 * p) by {
        assert y == 2 * h;
        Distribute(x, h, p);
      }
    }
  }

  lemma Distribute(x: nat, h: nat, p: nat)
    ensures x * (2 * h + 1) * p == x * p + x * h * (2 * p)
    ensures x * (2 * h) * p == x * h * (2 * p)
  {
    assert x * (2 * h) == 2 * (x * h);
    assert x * (2 * h + 1) == 2 * (x * h) + x;
    assert (2 * (x * h) + x) * p == 2 * (x * h) * p + x * p;
  }

  /** What the loop has summed up and what it still has to. */
  ghost function Left(x: nat, y: nat, i: nat, sum: nat): nat {
    (sum + x * y * Pow2(i)) % WORD
  }

  lemma LeftStart(x: nat, y: nat)
    ensures Left(x, y, 0, 0) == (x * y) % WORD
  {
    assert Pow2(0) == 1;
  }

  lemma LeftRound(x: nat, y: nat, i: nat, sum: nat)
    requires i < 64
    ensures Left(x, y / 2, i + 1, if y % 2 == 1 then (sum + Shl(x, i)) % WORD else sum) == Left(x, y, i, sum)
  {
    MulRound(x, y, Pow2(i), sum);
  }

  lemma LeftEnd(x: nat, i: nat, sum: nat)
    requires sum < WORD
    ensures Left(x, 0, i, sum) == sum
  {
    assert x * 0 * Pow2(i) == 0;
  }

  /** While bits of the multiplier are left, the shift count is below the width of the word. */
  lemma ShiftFits(y: nat, i: nat, y0: nat)
    requires 0 < y && y * Pow2(i) <= y0 < WORD
    ensures i < 64 && (y / 2) * Pow2(i + 1) <= y0
  {
    var h, p := y / 2, Pow2(i);
    if i >= 64 {
      Pow2Monotone(64, i);
      WordIsPow2();
      MulAtLeast(y, p);
      assert false;
    }
    Halves(h, 0, 0, p);
    MulMonotone(2 * h, y, p);
  }

  /** `__mulvdi3`: the product modulo 2^64. */
  method Mul(x: nat, y0: nat) returns (sum: nat)
    requires x < WORD && y0 < WORD
    ensures sum == (x * y0) % WORD
  {
    hide Left, Shl;
    var y: nat, i: nat := y0, 0;
    sum := 0;
    LeftStart(x, y0);
    while y != 0
      invariant sum < WORD && Left(x, y, i, sum) == (x * y0) % WORD
      invariant y * Pow2(i) <= y0
      decreases y
    {
      ShiftFits(y, i, y0);
      LeftRound(x, y, i, sum);
      if y % 2 == 1 {
        sum := (sum + Shl(x, i)) % WORD;
      }
      y := y / 2;
      i := i + 1;
    }
    LeftEnd(x, i, sum);
  }

  // ------------------------------------------------------------------ division

  /** Comparing the shifted x with y decides whether y * p can be taken from x. */
  lemma ShiftedCompare(x: nat, y: nat, p: nat)
    requires p > 0
    ensures Quotient(x, p) >= y <==> y * p <= x
  {
    var q := Quotient(x, p);
    if q >= y {
      MulMonotone(y, q, p);
    } else {
      MulMonotone(q + 1, y, p);
      assert (q + 1) * p == q * p + p;
    }
  }

  /** The bit at place p of a multiple of 2 * p is clear. */
  lemma BitClear(k: nat, p: nat)
    requires p > 0
    ensures Quotient(k * (2 * p), p) == 2 * k
  {
    assert k * (2 * p) == 2 * k * p + 0;
    DivModUnique(k * (2 * p), p, 2 * k, 0);
  }

  lemma Halves(k: nat, y: nat, ans: nat, p: nat)
    ensures k * (2 * p) == 2 * k * p && (2 * k + 1) * p == 2 * k * p + p
    ensures y * (2 * p) == y * p + y * p && (ans + p) * y == ans * y + y * p
  {
  }

  /** What the division loop maintains before it looks at place i - 1: the quotient so far is a
      multiple of 2^i, and what is left of x is below y * 2^i. */
  ghost predicate Dividing(x0: nat, y: nat, i: nat, ans: nat, x: nat, k: nat) {
    && ans == k * Pow2(i) && ans * y + x == x0
    && (y > 0 ==> x < y * Pow2(i))
    && (y == 0 ==> ans + Pow2(i) == WORD)
  }

  lemma NotAbove(x: nat, ans: nat, y: nat)
    ensures x <= ans * y + x
  {
  }

  lemma DividingStep(x0: nat, y: nat, i: nat, ans: nat, x: nat, k: nat)
    requires 0 < i <= 64 && x0 < WORD && Dividing(x0, y, i, ans, x, k)
    ensures
      if Shr(x, i - 1) >= y then
        && SetBit(ans, i - 1) == ans + Pow2(i - 1) && Shl(y, i - 1) == y * Pow2(i - 1) <= x
        && Dividing(x0, y, i - 1, ans + Pow2(i - 1), x - y * Pow2(i - 1), 2 * k + 1)
      else
        Dividing(x0, y, i - 1, ans, x, 2 * k)
  {
    var p := Pow2(i - 1);
    assert Pow2(i) == 2 * p;
    ShiftedCompare(x, y, p);
    BitClear(k, p);
    Halves(k, y, ans, p);
    NotAbove(x, ans, y);
    if y * p <= x {
      DivModUnique(y * p, WORD, 0, y * p);
    }
  }

  /** `__udivdi3`: the quotient, and all ones for a zero divisor. */
  method Div(x0: nat, y: nat) returns (ans: nat)
    requires x0 < WORD && y < WORD
    ensures ans < WORD
    ensures ans == if y > 0 then Quotient(x0, y) else WORD - 1
  {
    hide Dividing, Pow2, Shl, Shr, SetBit;
    var x: nat, i: nat := x0, 64;
    ghost var k: nat := 0;
    ans := 0;
    DividingStart(x0, y);
    while i > 0
      invariant i <= 64 && Dividing(x0, y, i, ans, x, k)
    {
      DividingStep(x0, y, i, ans, x, k);
      i := i - 1;
      k := 2 * k;
      if Shr(x, i) >= y {
        ans := SetBit(ans, i);
        x := x - Shl(y, i);
        k := k + 1;
      }
    }
    DividingEnd(x0, y, ans, x, k);
  }

  lemma DividingStart(x0: nat, y: nat)
    requires x0 < WORD
    ensures Dividing(x0, y, 64, 0, x0, 0)
  {
    WordIsPow2();
    if y > 0 {
      MulAtLeast(y, WORD);
    }
  }

  lemma DividingEnd(x0: nat, y: nat, ans: nat, x: nat, k: nat)
    requires x0 < WORD && Dividing(x0, y, 0, ans, x, k)
    ensures ans < WORD && ans == if y > 0 then Quotient(x0, y) else WORD - 1
  {
    assert Pow2(0) == 1;
    if y > 0 {
      DivModUnique(x0, y, ans, x);
      MulAtLeast(y, ans);
    }
  }

  /** `__umoddi3`: the remainder, and x itself for a zero divisor. */
  method Mod(x: nat, y: nat) returns (r: nat)
    requires x < WORD && y < WORD
    ensures r == if y > 0 then x % y else x
  {
    var q := Div(x, y);
    var m := Mul(q, y);
    r := (x - m) % WORD;
    if y > 0 {
      Remainder(x, y, q);
    }
  }

  lemma Remainder(x: nat, y: nat, q: nat)
    requires x < WORD && y > 0 && q == Quotient(x, y)
    ensures (x - (q * y) % WORD) % WORD == x % y
  {
    var t := q * y;
    DivModUnique(x, y, q, x - t);
    InWord(t);
    InWord(x - t);
  }

  lemma InWord(t: nat)
    requires t < WORD
    ensures t % WORD == t
  {
  }
}
