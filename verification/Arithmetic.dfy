/** Integer division as the TypeScript BigNumber performs it, and the order-theoretic
    facts about floors and ceilings that every later module argues with. */
module Arithmetic {

  datatype Option<+T> = None | Some(value: T)

  function Sum(s: seq<int>): int {
    if s == [] then 0 else s[0] + Sum(s[1..])
  }

  function Abs(n: int): (r: int) {
    if n < 0 then -n else n
  }

  /** `a.div(b)` on BigNumbers: the quotient truncated toward zero. */
  function TruncDiv(a: int, b: int): int
    requires b != 0
  {
    if a >= 0 then
      if b > 0 then a / b else -(a / (-b))
    else
      if b > 0 then -((-a) / b) else (-a) / (-b)
  }

  /** Reference: the least integer at or above n/d. */
  function CeilDiv(n: int, d: int): int
    requires d > 0
  {
    -((-n) / d)
  }

  /** Reference: n/d rounded away from zero, for either sign of n and d. */
  function RoundAway(n: int, d: int): int
    requires d != 0
  {
    var magnitude := CeilDiv(Abs(n), Abs(d));
    if (n < 0) == (d < 0) then magnitude else -magnitude
  }

  lemma MulMono(a: int, b: int, c: int)
    requires a <= b && 0 <= c
    ensures a * c <= b * c
  {
  }

  lemma MulCancel(a: int, b: int, c: int)
    requires a * c <= b * c && 0 < c
    ensures a <= b
  {
  }

  lemma MulDistributes(a: int, b: int, c: int)
    ensures (a + b) * c == a * c + b * c
    ensures (a - b) * c == a * c - b * c
  {
  }

  lemma NegatedProduct(a: int, b: int)
    ensures (-a) * b == a * (-b) == -(a * b)
    ensures (-a) * (-b) == a * b
  {
  }

  /** Regrouping of a triple product. */
  lemma Mul3(a: int, b: int, c: int)
    ensures (a * b) * c == (a * c) * b == a * (b * c)
  {
  }

  lemma ProductCapsFactor(m: int, s: int, m0: int, s0: int)
    requires m * s <= m0 * s0 && 0 < s0 <= s && m0 >= 0
    ensures m <= m0
  {
  }

  /** a/b >= c/d and c/d >= e/f give a/b >= e/f, on positive denominators. */
  lemma RatioTransitive(a: int, b: int, c: int, d: int, e: int, f: int)
    requires b > 0 && d > 0 && f > 0
    requires a * d >= c * b && c * f >= e * d
    ensures a * f >= e * b
  {
  }

  lemma FloorBounds(n: int, d: int)
    requires d > 0
    ensures (n / d) * d <= n < (n / d) * d + d
  {
  }

  /** n/d is the greatest k with k*d <= n. */
  lemma FloorAdjoint(k: int, n: int, d: int)
    requires d > 0
    ensures k <= n / d <==> k * d <= n
  {
    FloorBounds(n, d);
    if k <= n / d {
      MulMono(k, n / d, d);
    } else {
      MulMono(n / d + 1, k, d);
    }
  }

  /** CeilDiv(n, d) is the least k with n <= k*d. */
  lemma CeilAdjoint(n: int, d: int, k: int)
    requires d > 0
    ensures CeilDiv(n, d) <= k <==> n <= k * d
  {
    FloorAdjoint(-k, -n, d);
  }

  lemma DivModUnique(n: int, d: int, q: int, r: int)
    requires d > 0 && 0 <= r < d && n == q * d + r
    ensures n / d == q && n % d == r
  {
    FloorAdjoint(q, n, d);
    assert (q + 1) * d == q * d + d;
    FloorAdjoint(q + 1, n, d);
  }

  lemma FloorExact(n: int, d: int, q: int)
    requires d > 0
    ensures q == n / d <==> 0 <= n - q * d < d
  {
    FloorAdjoint(q, n, d);
    FloorAdjoint(q + 1, n, d);
    assert (q + 1) * d == q * d + d;
  }

  lemma CeilExact(n: int, d: int, c: int)
    requires d > 0
    ensures c == CeilDiv(n, d) <==> 0 <= c * d - n < d
  {
    NegatedProduct(c, d);
    FloorExact(-n, d, -c);
  }

  lemma FloorMono(m: int, n: int, d: int)
    requires m <= n && d > 0
    ensures m / d <= n / d
  {
    FloorBounds(m, d);
    FloorAdjoint(m / d, n, d);
  }

  /** The `sub(1) ... add(1)` idiom is the ceiling of a positive quotient. */
  lemma CeilIdiom(n: int, d: int)
    requires n >= 0 && d > 0
    ensures n > 0 ==> (n - 1) / d + 1 == CeilDiv(n, d)
  {
    if n > 0 {
      FloorBounds(n - 1, d);
      CeilAdjoint(n, d, (n - 1) / d + 1);
      CeilAdjoint(n, d, (n - 1) / d);
    }
  }

  /** q is n/d rounded toward zero: the remainder is smaller than the divisor and never has the opposite sign
      of the dividend. */
  predicate Truncates(q: int, n: int, d: int) {
    Abs(n - q * d) < Abs(d) && (n >= 0 ==> n - q * d >= 0) && (n <= 0 ==> n - q * d <= 0)
  }

  /** q is n/d rounded away from zero, d being positive. */
  predicate RoundsAway(q: int, n: int, d: int) {
    if n >= 0 then 0 <= q * d - n < d else 0 <= n - q * d < d
  }

  lemma RoundAwayExact(n: int, d: int, q: int)
    requires d > 0
    ensures q == RoundAway(n, d) <==> RoundsAway(q, n, d)
  {
    if n >= 0 {
      CeilExact(n, d, q);
    } else {
      NegatedProduct(q, d);
      CeilExact(-n, d, -q);
    }
  }

  /** Truncation, characterised for all signs. */
  lemma TruncDivExact(a: int, b: int, q: int)
    requires b != 0
    ensures q == TruncDiv(a, b) <==> Truncates(q, a, b)
  {
    NegatedProduct(q, b);
    if a >= 0 {
      if b > 0 { FloorExact(a, b, q); } else { FloorExact(a, -b, -q); }
    } else {
      if b > 0 { FloorExact(-a, b, -q); } else { FloorExact(-a, -b, q); }
    }
  }
}
