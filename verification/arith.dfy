/** Facts about quotients and remainders that several components share. */
module Arith {

  lemma MulAtLeast(d: int, m: int)
    requires d >= 1 && m > 0
    ensures d * m >= m
  {
    assert d * m == (d - 1) * m + m;
  }

  /** Quotient and remainder are determined by the division equation. */
  lemma DivModIs(x: int, m: int, q: int, r: int)
    requires m > 0 && x == q * m + r && 0 <= r < m
    ensures x / m == q && x % m == r
  {
    var q', r' := x / m, x % m;
    var d := q' - q;
    assert q' * m == q * m + d * m;
    assert (-d) * m == -(d * m);
    if d >= 1 {
      MulAtLeast(d, m);
    } else if d <= -1 {
      MulAtLeast(-d, m);
    }
  }

  // ----- masks -----

  function Pow2(k: nat): (p: nat)
    ensures p >= 1
  {
    if k == 0 then 1 else 2 * Pow2(k - 1)
  }

  /** Bitwise conjunction of two numbers. */
  function And(a: nat, b: nat): nat {
    if a == 0 || b == 0 then 0 else a % 2 * (b % 2) + 2 * And(a / 2, b / 2)
  }

  lemma AndDigits(a: nat, b: nat)
    ensures And(a, b) == a % 2 * (b % 2) + 2 * And(a / 2, b / 2)
  {
  }

  lemma AndZero(a: nat)
    ensures And(a, 0) == 0 && And(0, a) == 0
  {
  }

  lemma HalfMod(a: nat, k: nat)
    requires k > 0
    ensures a % Pow2(k) == 2 * (a / 2 % Pow2(k - 1)) + a % 2
  {
    var p, h := Pow2(k - 1), a / 2;
    DivModIs(a, Pow2(k), h / p, 2 * (h % p) + a % 2);
  }

  /** Masking with the bits below a power of two is the remainder. */
  lemma {:induction false} MaskIsRemainder(a: nat, k: nat)
    ensures And(a, Pow2(k) - 1) == a % Pow2(k)
  {
    hide And;
    if k == 0 {
      AndZero(a);
    } else {
      MaskIsRemainder(a / 2, k - 1);
      HalfMod(a, k);
      AndDigits(a, Pow2(k) - 1);
      DivModIs(Pow2(k) - 1, 2, Pow2(k - 1) - 1, 1);
    }
  }

  /** Masking with the complement rounds down to a multiple of it. */
  lemma {:induction false} ComplementRoundsDown(a: nat, k: nat, width: nat)
    requires k <= width && a < Pow2(width)
    ensures Pow2(k) <= Pow2(width)
    ensures And(a, Pow2(width) - Pow2(k)) == a - a % Pow2(k)
  {
    hide And;
    if k == 0 {
      assert Pow2(0) == 1;
      MaskIsRemainder(a, width);
      DivModIs(a, Pow2(width), 0, a);
    } else {
      ComplementRoundsDown(a / 2, k - 1, width - 1);
      HalfMod(a, k);
      AndDigits(a, Pow2(width) - Pow2(k));
      DivModIs(Pow2(width) - Pow2(k), 2, Pow2(width - 1) - Pow2(k - 1), 0);
    }
  }

  ghost predicate PowerOfTwo(x: nat) {
    exists k: nat :: x == Pow2(k)
  }

  /** The code's test: no bit in common with the number below. */
  predicate PassesAsPower(x: nat) {
    x > 0 && And(x, x - 1) == 0
  }

  lemma {:induction false} AndSelf(a: nat)
    ensures And(a, a) == a
  {
    hide And;
    if a == 0 {
      AndZero(0);
    } else {
      AndSelf(a / 2);
      AndDigits(a, a);
    }
  }

  /** Every power of two passes it. */
  lemma {:induction false} PowersPass(k: nat)
    ensures PassesAsPower(Pow2(k))
  {
    hide And;
    var p := Pow2(k);
    if k == 0 {
      AndZero(1);
    } else {
      PowersPass(k - 1);
      AndDigits(p, p - 1);
      DivModIs(p - 1, 2, Pow2(k - 1) - 1, 1);
    }
  }

  /** Nothing else does. */
  lemma {:induction false} PowerOfTwoIs(x: nat) returns (k: nat)
    requires PassesAsPower(x)
    ensures x == Pow2(k) && PowerOfTwo(x)
  {
    hide And;
    AndDigits(x, x - 1);
    if x % 2 == 1 {
      DivModIs(x - 1, 2, x / 2, 0);
      AndSelf(x / 2);
      k := 0;
    } else {
      DivModIs(x - 1, 2, x / 2 - 1, 1);
      k := PowerOfTwoIs(x / 2);
      k := k + 1;
    }
  }

  lemma TestIsExact(x: nat)
    ensures PassesAsPower(x) <==> PowerOfTwo(x)
  {
    if PassesAsPower(x) { var _ := PowerOfTwoIs(x); }
    if PowerOfTwo(x) {
      var k: nat :| x == Pow2(k);
      PowersPass(k);
    }
  }

  lemma {:induction false} Pow2Shift(k: nat, n: nat)
    ensures Pow2(k + n) == Pow2(n) * Pow2(k)
  {
    if n > 0 { Pow2Shift(k, n - 1); }
  }

  lemma {:induction false} Pow2Monotone(j: nat, k: nat)
    requires j <= k
    ensures Pow2(j) <= Pow2(k)
  {
    if j < k { Pow2Monotone(j, k - 1); }
  }
}
