/** utils/common/mathUtils.ts: multiplication and division of 18-decimal fixed-point integers. */
module MathUtils {
  import opened Arithmetic

  const PRECISE_UNIT: int := 1_000_000_000_000_000_000

  function PreciseMul(a: int, b: int): int {
    TruncDiv(a * b, PRECISE_UNIT)
  }

  function PreciseMulCeil(a: int, b: int): int {
    if a == 0 || b == 0 then 0 else TruncDiv(a * b - 1, PRECISE_UNIT) + 1
  }

  function PreciseMulCeilInt(a: int, b: int): int {
    if a == 0 || b == 0 then 0
    else if (a > 0 && b > 0) || (a < 0 && b < 0) then
      TruncDiv(a * b - 1, PRECISE_UNIT) + 1
    else
      TruncDiv(a * b + 1, PRECISE_UNIT) - 1
  }

  function PreciseDiv(a: int, b: int): int
    requires b != 0
  {
    TruncDiv(a * PRECISE_UNIT, b)
  }

  /** A zero divisor is answered with zero, not with an error. */
  function PreciseDivCeil(a: int, b: int): int {
    if a == 0 || b == 0 then 0 else TruncDiv(a * PRECISE_UNIT - 1, b) + 1
  }

  function PreciseDivCeilInt(a: int, b: int): int {
    if a == 0 || b == 0 then 0
    else if (a > 0 && b > 0) || (a < 0 && b < 0) then
      TruncDiv(a * PRECISE_UNIT - 1, b) + 1
    else
      TruncDiv(a * PRECISE_UNIT + 1, b) - 1
  }

  /** The remainder tests use a positive modulus: `b` in the first branch, `-b` in the second. */
  function DivDown(a: int, b: int): int
    requires b != 0
  {
    var result := TruncDiv(a, b);
    if a < 0 && b > 0 && a % b != 0 then result - 1
    else if a > 0 && b < 0 && a % (-b) != 0 then result - 1
    else result
  }

  function Min(valueOne: int, valueTwo: int): int {
    if valueOne < valueTwo then valueOne else valueTwo
  }

  // ---------------------------------------------------------------------------------------------
  // The two plain forms on all operands
  // ---------------------------------------------------------------------------------------------

  lemma PreciseMulExact(a: int, b: int, q: int)
    ensures q == PreciseMul(a, b) <==> Truncates(q, a * b, PRECISE_UNIT)
  {
    TruncDivExact(a * b, PRECISE_UNIT, q);
  }

  lemma PreciseDivExact(a: int, b: int, q: int)
    requires b != 0
    ensures q == PreciseDiv(a, b) <==> Truncates(q, a * PRECISE_UNIT, b)
  {
    TruncDivExact(a * PRECISE_UNIT, b, q);
  }

  /** The scale has 18 decimals: one whole unit is neutral for both. */
  lemma WholeUnitIsNeutral(x: int)
    ensures PreciseMul(x, 1_000_000_000_000_000_000) == x
    ensures PreciseDiv(x, 1_000_000_000_000_000_000) == x
  {
    PreciseMulExact(x, PRECISE_UNIT, x);
    PreciseDivExact(x, PRECISE_UNIT, x);
  }

  /** The smaller of the two. */
  lemma MinIsGreatestLowerBound(a: int, b: int, k: int)
    ensures k <= Min(a, b) <==> k <= a && k <= b
  {
  }

  /** Every ceiling form answers zero where an operand is zero, a divisor included. */
  lemma CeilingsOfZero(a: int)
    ensures PreciseMulCeil(a, 0) == PreciseMulCeil(0, a) == 0
    ensures PreciseMulCeilInt(a, 0) == PreciseMulCeilInt(0, a) == 0
    ensures PreciseDivCeil(a, 0) == PreciseDivCeil(0, a) == 0
    ensures PreciseDivCeilInt(a, 0) == PreciseDivCeilInt(0, a) == 0
  {
  }

  // ---------------------------------------------------------------------------------------------
  // Non-negative operands: floors and ceilings, as greatest and least solutions
  // ---------------------------------------------------------------------------------------------

  lemma PreciseMulAdjoint(x: int, m: int, k: int)
    requires x >= 0 && m >= 0
    ensures k <= PreciseMul(x, m) <==> k * PRECISE_UNIT <= x * m
  {
    FloorAdjoint(k, x * m, PRECISE_UNIT);
  }

  lemma PreciseDivAdjoint(x: int, m: int, k: int)
    requires x >= 0 && m > 0
    ensures k <= PreciseDiv(x, m) <==> k * m <= x * PRECISE_UNIT
  {
    FloorAdjoint(k, x * PRECISE_UNIT, m);
  }

  lemma PreciseMulCeilAdjoint(x: int, m: int, k: int)
    requires x >= 0 && m >= 0
    ensures PreciseMulCeil(x, m) <= k <==> x * m <= k * PRECISE_UNIT
  {
    if x != 0 && m != 0 {
      assert x * m > 0;
      CeilIdiom(x * m, PRECISE_UNIT);
      CeilAdjoint(x * m, PRECISE_UNIT, k);
    }
  }

  lemma PreciseDivCeilAdjoint(x: int, m: int, k: int)
    requires x >= 0 && m > 0
    ensures PreciseDivCeil(x, m) <= k <==> x * PRECISE_UNIT <= k * m
  {
    if x != 0 {
      CeilIdiom(x * PRECISE_UNIT, m);
      CeilAdjoint(x * PRECISE_UNIT, m, k);
    } else {
      if k < 0 { MulMono(k, -1, m); } else { MulMono(0, k, m); }
    }
  }

  /** Rounding up a product and rounding down a quotient are adjoint, and so are rounding up a
      quotient and rounding down a product. */
  lemma FloorCeilAdjoint(x: int, k: int, m: int)
    requires x >= 0 && k >= 0 && m > 0
    ensures PreciseMulCeil(x, m) <= k <==> x <= PreciseDiv(k, m)
    ensures PreciseDivCeil(k, m) <= x <==> k <= PreciseMul(x, m)
  {
    PreciseMulCeilAdjoint(x, m, k);
    PreciseDivAdjoint(k, m, x);
    PreciseDivCeilAdjoint(k, m, x);
    PreciseMulAdjoint(x, m, k);
  }

  lemma NonNegativeResults(x: int, m: int)
    requires x >= 0 && m > 0
    ensures PreciseMul(x, m) >= 0 && PreciseDiv(x, m) >= 0
    ensures PreciseMulCeil(x, m) >= 0 && PreciseDivCeil(x, m) >= 0
  {
    PreciseMulAdjoint(x, m, 0);
    PreciseDivAdjoint(x, m, 0);
    PreciseMulCeilAdjoint(x, m, -1);
    PreciseDivCeilAdjoint(x, m, -1);
    assert x * m >= 0;
  }

  /** Converting there, back and there again loses nothing beyond the first rounding. */
  lemma TripleConversionIsSingle(x: int, m: int)
    requires x >= 0 && m > 0
    ensures PreciseMul(PreciseDivCeil(PreciseMul(x, m), m), m) == PreciseMul(x, m)
    ensures PreciseDivCeil(PreciseMul(PreciseDivCeil(x, m), m), m) == PreciseDivCeil(x, m)
    ensures PreciseMulCeil(PreciseDiv(PreciseMulCeil(x, m), m), m) == PreciseMulCeil(x, m)
    ensures PreciseDiv(PreciseMulCeil(PreciseDiv(x, m), m), m) == PreciseDiv(x, m)
  {
    NonNegativeResults(x, m);
    // floor product: p, back up to d, down again
    var p := PreciseMul(x, m);
    NonNegativeResults(p, m);
    var d := PreciseDivCeil(p, m);
    FloorCeilAdjoint(x, p, m);
    FloorCeilAdjoint(d, p, m);
    PreciseMulMono(d, x, m);
    // ceil quotient
    var q := PreciseDivCeil(x, m);
    NonNegativeResults(q, m);
    var e := PreciseMul(q, m);
    FloorCeilAdjoint(q, x, m);
    FloorCeilAdjoint(q, e, m);
    PreciseDivCeilMono(x, e, m);
    // ceil product
    var c := PreciseMulCeil(x, m);
    NonNegativeResults(c, m);
    var f := PreciseDiv(c, m);
    FloorCeilAdjoint(x, c, m);
    FloorCeilAdjoint(f, c, m);
    PreciseMulCeilMono(x, f, m);
    // floor quotient
    var g := PreciseDiv(x, m);
    NonNegativeResults(g, m);
    var h := PreciseMulCeil(g, m);
    FloorCeilAdjoint(g, x, m);
    FloorCeilAdjoint(g, h, m);
    PreciseDivMono(h, x, m);
  }

  lemma PreciseMulMono(x: int, y: int, m: int)
    requires 0 <= x <= y && m >= 0
    ensures PreciseMul(x, m) <= PreciseMul(y, m)
  {
    MulMono(x, y, m);
    PreciseMulAdjoint(x, m, PreciseMul(x, m));
    PreciseMulAdjoint(y, m, PreciseMul(x, m));
  }

  lemma PreciseDivMono(x: int, y: int, m: int)
    requires 0 <= x <= y && m > 0
    ensures PreciseDiv(x, m) <= PreciseDiv(y, m)
  {
    PreciseDivAdjoint(x, m, PreciseDiv(x, m));
    PreciseDivAdjoint(y, m, PreciseDiv(x, m));
  }

  lemma PreciseMulCeilMono(x: int, y: int, m: int)
    requires 0 <= x <= y && m >= 0
    ensures PreciseMulCeil(x, m) <= PreciseMulCeil(y, m)
  {
    MulMono(x, y, m);
    PreciseMulCeilAdjoint(y, m, PreciseMulCeil(y, m));
    PreciseMulCeilAdjoint(x, m, PreciseMulCeil(y, m));
  }

  lemma PreciseDivCeilMono(x: int, y: int, m: int)
    requires 0 <= x <= y && m > 0
    ensures PreciseDivCeil(x, m) <= PreciseDivCeil(y, m)
  {
    PreciseDivCeilAdjoint(y, m, PreciseDivCeil(y, m));
    PreciseDivCeilAdjoint(x, m, PreciseDivCeil(y, m));
  }

  /** Both floors as bracketing inequalities; the form most later proofs consume. */
  lemma PreciseMulBounds(x: int, m: int)
    requires x >= 0 && m >= 0
    ensures PreciseMul(x, m) >= 0
    ensures PreciseMul(x, m) * PRECISE_UNIT <= x * m < PreciseMul(x, m) * PRECISE_UNIT + PRECISE_UNIT
  {
    assert x * m >= 0;
    FloorBounds(x * m, PRECISE_UNIT);
  }

  lemma PreciseDivBounds(x: int, m: int)
    requires x >= 0 && m > 0
    ensures PreciseDiv(x, m) >= 0
    ensures PreciseDiv(x, m) * m <= x * PRECISE_UNIT < PreciseDiv(x, m) * m + m
  {
    PreciseDivAdjoint(x, m, 0);
    FloorBounds(x * PRECISE_UNIT, m);
  }

  lemma PreciseMulCeilBounds(x: int, m: int)
    requires x >= 0 && m >= 0
    ensures PreciseMulCeil(x, m) >= 0
    ensures PreciseMulCeil(x, m) * PRECISE_UNIT - PRECISE_UNIT < x * m <= PreciseMulCeil(x, m) * PRECISE_UNIT
  {
    assert x * m >= 0;
    var c := PreciseMulCeil(x, m);
    PreciseMulCeilAdjoint(x, m, c);
    PreciseMulCeilAdjoint(x, m, c - 1);
    PreciseMulCeilAdjoint(x, m, -1);
  }

  lemma PreciseDivCeilBounds(x: int, m: int)
    requires x >= 0 && m > 0
    ensures PreciseDivCeil(x, m) >= 0
    ensures PreciseDivCeil(x, m) * m - m < x * PRECISE_UNIT <= PreciseDivCeil(x, m) * m
  {
    var c := PreciseDivCeil(x, m);
    PreciseDivCeilAdjoint(x, m, c);
    PreciseDivCeilAdjoint(x, m, c - 1);
    PreciseDivCeilAdjoint(x, m, -1);
    assert (c - 1) * m == c * m - m;
  }

  // ---------------------------------------------------------------------------------------------
  // Signed operands
  // ---------------------------------------------------------------------------------------------

  /** divDown is the mathematical floor of a/b for every a and every non-zero b. */
  lemma DivDownIsFloor(a: int, b: int, k: int)
    requires b != 0
    ensures k <= DivDown(a, b) <==> if b > 0 then k * b <= a else k * b >= a
  {
    var n, d := if b > 0 then a else -a, Abs(b);
    FloorAdjoint(k, n, d);
    assert b < 0 ==> k * d == -(k * b);
    FloorOfNegation(-n, d);
  }

  /** The floor of -n/d, from the truncated quotient and the remainder test. */
  lemma FloorOfNegation(n: int, d: int)
    requires d > 0
    ensures (-n) / d == if n % d == 0 then -(n / d) else -(n / d) - 1
    ensures n % d == 0 <==> (-n) % d == 0
  {
    var q, r := n / d, n % d;
    if r == 0 {
      DivModUnique(-n, d, -q, 0);
    } else {
      DivModUnique(-n, d, -q - 1, d - r);
    }
  }

  /** preciseMulCeilInt rounds the exact product away from zero, whatever the signs. */
  lemma PreciseMulCeilIntRoundsAway(a: int, b: int)
    ensures PreciseMulCeilInt(a, b) == RoundAway(a * b, PRECISE_UNIT)
  {
    if a != 0 && b != 0 {
      ProductSign(a, b);
      CeilIdiom(Abs(a * b), PRECISE_UNIT);
    }
  }

  lemma ProductSign(a: int, b: int)
    requires a != 0 && b != 0
    ensures a * b != 0
    ensures a * b < 0 <==> (a < 0) != (b < 0)
  {
  }

  /** By how much adding one before dividing overshoots: once if d divides n, once if it divides n + 1. */
  function Overshoot(n: int, d: int): int
    requires d > 0
  {
    (if n % d == 0 then 1 else 0) + (if (n + 1) % d == 0 then 1 else 0)
  }

  lemma FloorStepExact(n: int, d: int)
    requires n > 0 && d > 0
    ensures (n + 1) / d + 1 == CeilDiv(n, d) + Overshoot(n, d)
  {
    var q, r := n / d, n % d;
    MulDistributes(q, 1, d);
    CeilExact(n, d, if r == 0 then q else q + 1);
    if r == d - 1 {
      DivModUnique(n + 1, d, q + 1, 0);
    } else {
      DivModUnique(n + 1, d, q, r + 1);
    }
  }

  /** preciseDivCeilInt on all operands: the quotient rounded away from zero, and with a negative divisor
      further away still by the overshoot. */
  lemma PreciseDivCeilIntExact(a: int, b: int)
    requires a != 0 && b != 0
    ensures var n, d := Abs(a) * PRECISE_UNIT, Abs(b);
            var away := RoundAway(a * PRECISE_UNIT, b);
            var further := if b > 0 then 0 else Overshoot(n, d);
            PreciseDivCeilInt(a, b) == away + if (a > 0) == (b > 0) then further else -further
    ensures PreciseDivCeilInt(a, b) == RoundAway(a * PRECISE_UNIT, b) <==>
            b > 0 || ((Abs(a) * PRECISE_UNIT) % Abs(b) != 0 && (Abs(a) * PRECISE_UNIT + 1) % Abs(b) != 0)
    ensures 0 <= Abs(PreciseDivCeilInt(a, b)) - Abs(RoundAway(a * PRECISE_UNIT, b)) <= 2
  {
    var n, d := Abs(a) * PRECISE_UNIT, Abs(b);
    CeilIdiom(n, d);
    CeilAdjoint(n, d, 0);
    FloorStepExact(n, d);
  }

  /** The promise fails for a negative divisor: one unit over minus one wei is pushed too far. */
  lemma PreciseDivCeilIntOvershoots()
    ensures RoundAway(1 * PRECISE_UNIT, -1) == -PRECISE_UNIT
    ensures PreciseDivCeilInt(1, -1) == -PRECISE_UNIT - 2
  {
  }

  /** preciseMulCeil is the ceiling of the product exactly when the product is not negative or the
      scale happens to divide it less one; on every other negative product it is one too high. */
  lemma PreciseMulCeilExact(a: int, b: int)
    ensures PreciseMulCeil(a, b) == CeilDiv(a * b, PRECISE_UNIT) <==>
            a * b >= 0 || (a * b - 1) % PRECISE_UNIT == 0
    ensures CeilDiv(a * b, PRECISE_UNIT) <= PreciseMulCeil(a, b) <= CeilDiv(a * b, PRECISE_UNIT) + 1
  {
    if a != 0 && b != 0 {
      ProductSign(a, b);
      if a * b > 0 { CeilIdiom(a * b, PRECISE_UNIT); }
    }
  }

  /** How far preciseDivCeil is above the ceiling of a/b, n and d being the magnitudes of the scaled dividend and
      the divisor: nothing on positive operands, at most one over for a negative dividend alone, one or two over
      for a negative divisor alone, and up to two where both are negative. */
  function DivCeilExcess(a: int, b: int): int
    requires a != 0 && b != 0
  {
    var n, d := Abs(a) * PRECISE_UNIT, Abs(b);
    if a > 0 && b > 0 then 0
    else if a < 0 && b < 0 then Overshoot(n, d)
    else if a < 0 then if (n + 1) % d == 0 then 0 else 1
    else if n % d == 0 then 2 else 1
  }

  /** preciseDivCeil on all operands, and when it is the ceiling. */
  lemma PreciseDivCeilExact(a: int, b: int)
    requires a != 0 && b != 0
    ensures var n, d := Abs(a) * PRECISE_UNIT, Abs(b);
            var ceiling := CeilDiv(if b > 0 then a * PRECISE_UNIT else -(a * PRECISE_UNIT), d);
            && PreciseDivCeil(a, b) == ceiling + DivCeilExcess(a, b)
            && (PreciseDivCeil(a, b) == ceiling <==>
                || (a > 0 && b > 0)
                || (a < 0 && b < 0 && n % d != 0 && (n + 1) % d != 0)
                || (a < 0 && b > 0 && (n + 1) % d == 0))
  {
    var n, d := Abs(a) * PRECISE_UNIT, Abs(b);
    CeilIdiom(n, d);
    if (a < 0) == (b < 0) {
      FloorStepExact(n, d);
    } else if a < 0 {
      FloorStepDown(n + 1, d);
    } else {
      FloorStepDown(n, d);
    }
  }

  lemma FloorStepDown(n: int, d: int)
    requires n > 0 && d > 0
    ensures (n - 1) / d == n / d - if n % d == 0 then 1 else 0
  {
    var q, r := n / d, n % d;
    MulDistributes(q, 1, d);
    if r == 0 { DivModUnique(n - 1, d, q - 1, d - 1); } else { DivModUnique(n - 1, d, q, r - 1); }
  }

  /** One wei short of nothing is rounded to one; so is a small negative quotient, and one by a negative
      divisor is one too high. */
  lemma CeilsMissOnNegatives()
    ensures PreciseMulCeil(-1, 1) == 1 && CeilDiv(-1 * 1, PRECISE_UNIT) == 0
    ensures PreciseDivCeil(-1, 3) == CeilDiv(-PRECISE_UNIT, 3) + 1
    ensures PreciseDivCeil(1, -3) == CeilDiv(-PRECISE_UNIT, 3) + 1
    ensures PreciseDivCeil(-1, -1) == CeilDiv(PRECISE_UNIT, 1) + 2
  {
  }
}
