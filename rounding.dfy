/** Reference definitions of rounded-down and rounded-up division, against
    which every `round_up` flag of the fixed-point math is specified. */
module Rounding {

  /** floor(n / d) */
  function FloorDiv(n: nat, d: nat): nat
    requires d > 0
  {
    n / d
  }

  /** ceil(n / d), defined independently of the remainder test the program uses. */
  function CeilDiv(n: nat, d: nat): nat
    requires d > 0
  {
    (n + d - 1) / d
  }

  /** floor(n / d), or ceil(n / d) when `roundUp`. */
  function RoundedDiv(n: nat, d: nat, roundUp: bool): nat
    requires d > 0
  {
    if roundUp then CeilDiv(n, d) else FloorDiv(n, d)
  }

  /** The only quotient and remainder of `n` by `d`. */
  lemma DivModUnique(n: int, d: int, q: int, m: int)
    requires d > 0 && 0 <= m < d && n == q * d + m
    ensures n / d == q && n % d == m
  {
    var q' := n / d;
    if q' < q {
      MulMonotone(q' + 1, q, d);
    } else if q < q' {
      MulMonotone(q + 1, q', d);
    }
  }

  lemma MulMonotone(a: int, b: int, d: int)
    requires a <= b && d >= 0
    ensures a * d <= b * d
  {
    assert b * d - a * d == (b - a) * d;
  }

  /** floor(n / d) is the largest q with q * d <= n. */
  lemma FloorDivBounds(n: nat, d: nat)
    requires d > 0
    ensures FloorDiv(n, d) * d <= n < FloorDiv(n, d) * d + d
  {
    assert n == (n / d) * d + n % d;
  }

  /** ceil(n / d) is the smallest c with n <= c * d. */
  lemma CeilDivBounds(n: nat, d: nat)
    requires d > 0
    ensures CeilDiv(n, d) * d - d < n <= CeilDiv(n, d) * d
  {
    CeilDivIsFloorPlusCarry(n, d);
    assert n == (n / d) * d + n % d;
  }

  /** The program's way of rounding up (add one when the remainder is
      non-zero) agrees with the reference ceiling. */
  lemma CeilDivIsFloorPlusCarry(n: nat, d: nat)
    requires d > 0
    ensures CeilDiv(n, d) == n / d + (if n % d > 0 then 1 else 0)
  {
    var q, m := n / d, n % d;
    assert n == q * d + m;
    if m > 0 {
      DivModUnique(n + d - 1, d, q + 1, m - 1);
    } else {
      DivModUnique(n + d - 1, d, q, d - 1);
    }
  }

  /** Rounding up never gives less than rounding down and at most one more;
      the two agree exactly when the division is exact. */
  lemma RoundUpVersusRoundDown(n: nat, d: nat)
    requires d > 0
    ensures FloorDiv(n, d) <= CeilDiv(n, d) <= FloorDiv(n, d) + 1
    ensures CeilDiv(n, d) == FloorDiv(n, d) <==> n % d == 0
  {
    CeilDivIsFloorPlusCarry(n, d);
  }

  /** Whenever a rounded quotient carries (the remainder is non-zero) the
      divisor is at least 2, so the quotient is at most half the dividend:
      adding the carry cannot leave the dividend's width. */
  lemma CarryFits(n: nat, d: nat, bound: nat)
    requires d > 0 && n < bound && n % d > 0
    ensures n / d + 1 < bound
  {
    assert d >= 2;
    assert n == (n / d) * d + n % d;
    MulMonotone(2, d, n / d);
  }

  /** A larger dividend never gives a smaller rounded quotient. */
  lemma RoundedDivMonotone(n: nat, n': nat, d: nat, roundUp: bool)
    requires d > 0 && n <= n'
    ensures RoundedDiv(n, d, roundUp) <= RoundedDiv(n', d, roundUp)
  {
    var a, b := if roundUp then n + d - 1 else n, if roundUp then n' + d - 1 else n';
    assert a == a / d * d + a % d && b == b / d * d + b % d;
    if b / d < a / d {
      MulMonotone(b / d + 1, a / d, d);
    }
  }

  /** A dividend of at most k times the divisor rounds to at most k. */
  lemma RoundedDivAtMost(n: nat, d: nat, k: nat, roundUp: bool)
    requires d > 0 && n <= k * d
    ensures RoundedDiv(n, d, roundUp) <= k
  {
    RoundedDivMonotone(n, k * d, d, roundUp);
    DivModUnique(k * d, d, k, 0);
    CeilDivIsFloorPlusCarry(k * d, d);
  }

  /** A dividend of at least k times the divisor rounds to at least k. */
  lemma RoundedDivAtLeast(n: nat, d: nat, k: nat, roundUp: bool)
    requires d > 0 && k * d <= n
    ensures k <= RoundedDiv(n, d, roundUp)
  {
    RoundedDivMonotone(k * d, n, d, roundUp);
    DivModUnique(k * d, d, k, 0);
    CeilDivIsFloorPlusCarry(k * d, d);
  }

  /** A factor common to both sides of an inequality can be cancelled. */
  lemma MulCancel(a: nat, b: nat, d: nat)
    requires d > 0 && a * d <= b * d
    ensures a <= b
  {
    RoundedDivMonotone(a * d, b * d, d, false);
    DivModUnique(a * d, d, a, 0);
    DivModUnique(b * d, d, b, 0);
  }

  /** The rounded quotient is monotone in the fraction: n / d <= n' / d'
      (compared by cross-multiplying) gives no larger a rounded quotient. */
  lemma RoundedDivCrossMonotone(n: nat, d: nat, n': nat, d': nat, roundUp: bool)
    requires d > 0 && d' > 0 && n * d' <= n' * d
    ensures RoundedDiv(n, d, roundUp) <= RoundedDiv(n', d', roundUp)
  {
    if roundUp {
      var c' := CeilDiv(n', d');
      CeilDivBounds(n', d');
      MulMonotone(n', c' * d', d);
      assert n * d' <= (c' * d) * d';
      MulCancel(n, c' * d, d');
      RoundedDivAtMost(n, d, c', true);
    } else {
      var q := FloorDiv(n, d);
      FloorDivBounds(n, d);
      MulMonotone(q * d, n, d');
      assert (q * d') * d <= n' * d;
      MulCancel(q * d', n', d);
      RoundedDivAtLeast(n', d', q, false);
    }
  }
}
