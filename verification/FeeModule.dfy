/** utils/common/feeModuleUtils.ts: the streaming fee, the inflation that pays it, and the position
    units it dilutes; then whole schedules of accruals. */
module FeeModule {
  import opened Arithmetic
  import opened MathUtils

  const ONE_YEAR_IN_SECONDS: int := 31_557_600

  /** An explicit fee overrides the percentage stored in the module's fee state. */
  function StreamingFee(storedPercentage: int, previousAccrual: int, recentAccrual: int,
                        streamingFee: Option<int>): int
  {
    var accrualRate := if streamingFee.Some? then streamingFee.value else storedPercentage;
    TruncDiv((recentAccrual - previousAccrual) * accrualRate, ONE_YEAR_IN_SECONDS)
  }

  function InflationAmount(inflationPercent: int, totalSupply: int): int
    requires inflationPercent != PRECISE_UNIT
  {
    TruncDiv(inflationPercent * totalSupply, PRECISE_UNIT - inflationPercent)
  }

  /** The unit a single position is left with. */
  function PostFeeUnit(unit: int, inflationPercent: int): int {
    if unit >= 0 then PreciseMul(unit, PRECISE_UNIT - inflationPercent)
    else PreciseMulCeilInt(unit, PRECISE_UNIT - inflationPercent)
  }

  function PostFeeUnits(units: seq<int>, inflationPercent: int): seq<int> {
    seq(|units|, i requires 0 <= i < |units| => PostFeeUnit(units[i], inflationPercent))
  }

  /** u is `unit` cut by p: an asset rounded toward zero, a debt away from it. */
  predicate IsCut(unit: int, p: int, u: int) {
    var left := unit * (PRECISE_UNIT - p);
    if unit >= 0 then Truncates(u, left, PRECISE_UNIT) else RoundsAway(u, left, PRECISE_UNIT)
  }

  lemma PostFeeUnitExact(unit: int, p: int, u: int)
    ensures u == PostFeeUnit(unit, p) <==> IsCut(unit, p, u)
  {
    PreciseMulExact(unit, PRECISE_UNIT - p, u);
    PreciseMulCeilIntRoundsAway(unit, PRECISE_UNIT - p);
    RoundAwayExact(unit * (PRECISE_UNIT - p), PRECISE_UNIT, u);
  }

  method PostFeePositionUnits(preFeeUnits: seq<int>, inflationPercent: int) returns (newUnits: seq<int>)
    ensures newUnits == PostFeeUnits(preFeeUnits, inflationPercent)
    ensures |newUnits| == |preFeeUnits|
    ensures forall i :: 0 <= i < |preFeeUnits| ==> IsCut(preFeeUnits[i], inflationPercent, newUnits[i])
  {
    newUnits := [];
    for i := 0 to |preFeeUnits|
      invariant newUnits == PostFeeUnits(preFeeUnits, inflationPercent)[..i]
    {
      if preFeeUnits[i] >= 0 {
        newUnits := newUnits + [PreciseMul(preFeeUnits[i], PRECISE_UNIT - inflationPercent)];
      } else {
        newUnits := newUnits + [PreciseMulCeilInt(preFeeUnits[i], PRECISE_UNIT - inflationPercent)];
      }
    }
    forall i | 0 <= i < |preFeeUnits| ensures IsCut(preFeeUnits[i], inflationPercent, newUnits[i]) {
      PostFeeUnitExact(preFeeUnits[i], inflationPercent, newUnits[i]);
    }
  }

  // ---------------------------------------------------------------------------------------------
  // One accrual
  // ---------------------------------------------------------------------------------------------

  /** The fee is the yearly percentage in force, pro rata of the elapsed time and rounded down; an
      explicit percentage is in force whenever one is given. */
  lemma FeeIsProRata(stored: int, from: int, until: int, override: Option<int>, k: int)
    requires from <= until && stored >= 0 && (override.Some? ==> override.value >= 0)
    ensures k <= StreamingFee(stored, from, until, override) <==>
            k * ONE_YEAR_IN_SECONDS <= (until - from) * (match override case Some(v) => v case None => stored)
  {
    var rate := match override case Some(v) => v case None => stored;
    MulMono(0, until - from, rate);
    FloorAdjoint(k, (until - from) * rate, ONE_YEAR_IN_SECONDS);
  }

  /** On all arguments the division truncates, and a year has 365.25 days. */
  lemma StreamingFeeExact(stored: int, from: int, until: int, override: Option<int>, fee: int)
    ensures var rate := match override case Some(v) => v case None => stored;
            fee == StreamingFee(stored, from, until, override) <==>
            Truncates(fee, (until - from) * rate, 31_557_600)
  {
    var rate := match override case Some(v) => v case None => stored;
    TruncDivExact((until - from) * rate, 31_557_600, fee);
  }

  /** A full year costs exactly the yearly percentage. */
  lemma YearlyFee(rate: int, from: int)
    ensures StreamingFee(rate, from, from + (365 * 24 + 6) * 3600, None) == rate
  {
    StreamingFeeExact(rate, from, from + 31_557_600, None, rate);
  }

  lemma InflationExact(p: int, supply: int, minted: int)
    requires p != PRECISE_UNIT
    ensures minted == InflationAmount(p, supply) <==> Truncates(minted, p * supply, PRECISE_UNIT - p)
  {
    TruncDivExact(p * supply, PRECISE_UNIT - p, minted);
  }

  /** A fee percentage that leaves something to the holders. */
  predicate ProperFee(p: int) {
    0 <= p < PRECISE_UNIT
  }

  function NewSupply(p: int, supply: int): int
    requires p != PRECISE_UNIT
  {
    supply + InflationAmount(p, supply)
  }

  /** What the minting formula is for: the inflation is the greatest number of tokens whose share of
      the enlarged supply does not exceed the fee percentage. */
  lemma InflationIsFairShare(p: int, supply: int, k: int)
    requires ProperFee(p) && supply >= 0
    ensures k <= InflationAmount(p, supply) <==> k * PRECISE_UNIT <= p * (supply + k)
  {
    assert p * supply >= 0;
    FloorAdjoint(k, p * supply, PRECISE_UNIT - p);
    assert k * (PRECISE_UNIT - p) == k * PRECISE_UNIT - p * k;
    assert p * (supply + k) == p * supply + p * k;
  }

  lemma NewSupplyAdjoint(p: int, supply: int, k: int)
    requires ProperFee(p) && supply >= 0
    ensures k <= NewSupply(p, supply) <==> k * (PRECISE_UNIT - p) <= supply * PRECISE_UNIT
  {
    assert p * supply >= 0;
    FloorAdjoint(k - supply, p * supply, PRECISE_UNIT - p);
    assert (k - supply) * (PRECISE_UNIT - p) == k * (PRECISE_UNIT - p) - supply * PRECISE_UNIT + p * supply;
  }

  lemma NewSupplyGrows(p: int, supply: int)
    requires ProperFee(p) && supply >= 0
    ensures supply <= NewSupply(p, supply)
  {
    assert p * supply >= 0;
    NewSupplyAdjoint(p, supply, supply);
    assert supply * (PRECISE_UNIT - p) == supply * PRECISE_UNIT - p * supply;
  }

  lemma NewSupplyMono(p: int, q: int, supply: int, supply': int)
    requires ProperFee(q) && 0 <= p <= q && 0 <= supply <= supply'
    ensures NewSupply(p, supply) <= NewSupply(q, supply')
  {
    var k := NewSupply(p, supply);
    NewSupplyGrows(p, supply);
    NewSupplyAdjoint(p, supply, k);
    assert k * (PRECISE_UNIT - q) <= k * (PRECISE_UNIT - p) by {
      MulMono(PRECISE_UNIT - q, PRECISE_UNIT - p, k);
    }
    NewSupplyAdjoint(q, supply', k);
  }

  lemma ComposedSupply(k: int, t: int, supply: int, P: int, p: int, q: int)
    requires 0 <= p && 0 <= q && p + q < P && k >= 0
    requires t * (P - p) <= supply * P && k * (P - q) <= t * P
    ensures k * (P - p - q) <= supply * P
  {
  }

  /** Two accruals mint no more than one accrual of the summed percentage, floors included. */
  lemma TwoAccrualsMintNoMore(p: int, q: int, supply: int)
    requires 0 <= p && 0 <= q && ProperFee(p + q) && supply >= 0
    ensures NewSupply(q, NewSupply(p, supply)) <= NewSupply(p + q, supply)
  {
    var P := PRECISE_UNIT;
    var t := NewSupply(p, supply);
    NewSupplyGrows(p, supply);
    var k := NewSupply(q, t);
    NewSupplyGrows(q, t);
    NewSupplyAdjoint(p, supply, t);
    NewSupplyAdjoint(q, t, k);
    ComposedSupply(k, t, supply, P, p, q);
    NewSupplyAdjoint(p + q, supply, k);
  }

  // ---------------------------------------------------------------------------------------------
  // Schedules of accruals
  // ---------------------------------------------------------------------------------------------

  /** The fee of one interval at a fixed yearly rate. */
  function IntervalFee(from: int, until: int, rate: int): int {
    StreamingFee(rate, from, until, None)
  }

  /** Accrual times in order, with the fee of the whole span below 100%. */
  predicate Schedule(times: seq<int>, rate: int) {
    && |times| >= 1
    && rate >= 0
    && (forall i, j :: 0 <= i <= j < |times| ==> times[i] <= times[j])
    && IntervalFee(times[0], times[|times| - 1], rate) < PRECISE_UNIT
  }

  lemma IntervalFeeMono(a: int, b: int, c: int, d: int, rate: int)
    requires a <= b <= c <= d && rate >= 0
    ensures 0 <= IntervalFee(b, c, rate) <= IntervalFee(a, d, rate)
  {
    MulMono(0, c - b, rate);
    MulMono(c - b, d - a, rate);
    FloorMono((c - b) * rate, (d - a) * rate, ONE_YEAR_IN_SECONDS);
  }

  lemma IntervalFeesAdd(a: int, b: int, c: int, rate: int)
    requires a <= b <= c && rate >= 0
    ensures 0 <= IntervalFee(a, b, rate) && 0 <= IntervalFee(b, c, rate)
    ensures IntervalFee(a, b, rate) + IntervalFee(b, c, rate) <= IntervalFee(a, c, rate)
  {
    MulMono(0, b - a, rate);
    MulMono(0, c - b, rate);
    assert (c - a) * rate == (b - a) * rate + (c - b) * rate;
  }

  /** The supply after accruing at each time in turn. */
  function AccrueAt(times: seq<int>, rate: int, supply: int): int
    requires Schedule(times, rate)
    decreases |times|
  {
    if |times| == 1 then supply
    else
      ScheduleTail(times, rate, 1);
      AccrueAt(times[1..], rate, NewSupply(IntervalFee(times[0], times[1], rate), supply))
  }

  /** What one interval of a schedule does, from the times and the rate alone. */
  lemma OneIntervalAccrues(from: int, until: int, rate: int, supply: int, p: int, k: int)
    requires Schedule([from, until], rate) && supply >= 0
    requires Truncates(p, (until - from) * rate, 31_557_600)
    ensures k <= AccrueAt([from, until], rate, supply) <==> k * (PRECISE_UNIT - p) <= supply * PRECISE_UNIT
  {
    ScheduleTail([from, until], rate, 1);
    StreamingFeeExact(rate, from, until, None, p);
    NewSupplyAdjoint(p, supply, k);
    assert [from, until][1..] == [until];
  }

  lemma ScheduleTail(times: seq<int>, rate: int, j: int)
    requires Schedule(times, rate) && 0 <= j < |times|
    ensures Schedule(times[j..], rate) && Schedule(times[..j + 1], rate)
    ensures ProperFee(IntervalFee(times[0], times[j], rate))
  {
    var last := |times| - 1;
    IntervalFeeMono(times[0], times[j], times[last], times[last], rate);
    IntervalFeeMono(times[0], times[0], times[j], times[last], rate);
    assert times[j..][|times[j..]| - 1] == times[last];
  }

  lemma {:induction false} AccrueAtMono(times: seq<int>, rate: int, supply: int, supply': int)
    requires Schedule(times, rate) && 0 <= supply <= supply'
    ensures supply <= AccrueAt(times, rate, supply) <= AccrueAt(times, rate, supply')
    decreases |times|
  {
    if |times| > 1 {
      ScheduleTail(times, rate, 1);
      var p := IntervalFee(times[0], times[1], rate);
      NewSupplyGrows(p, supply);
      NewSupplyMono(p, p, supply, supply');
      AccrueAtMono(times[1..], rate, NewSupply(p, supply), NewSupply(p, supply'));
    }
  }

  /** Splitting a fee period never mints more: accruing at every time of a schedule ends at or below
      the supply of one accrual over the whole span, with no rounding slack. */
  lemma {:induction false} SplittingMintsNoMore(times: seq<int>, rate: int, supply: int)
    requires Schedule(times, rate) && supply >= 0
    ensures AccrueAt(times, rate, supply)
         <= NewSupply(IntervalFee(times[0], times[|times| - 1], rate), supply)
    decreases |times|
  {
    var last := times[|times| - 1];
    if |times| == 1 {
      NewSupplyGrows(IntervalFee(times[0], last, rate), supply);
    } else {
      ScheduleTail(times, rate, 1);
      var p, q := IntervalFee(times[0], times[1], rate), IntervalFee(times[1], last, rate);
      var t := NewSupply(p, supply);
      NewSupplyGrows(p, supply);
      SplittingMintsNoMore(times[1..], rate, t);
      IntervalFeesAdd(times[0], times[1], last, rate);
      TwoAccrualsMintNoMore(p, q, supply);
      NewSupplyMono(p + q, IntervalFee(times[0], last, rate), supply, supply);
    }
  }

  /** `fine` visits every time `coarse` visits, between the same first and last times. */
  ghost predicate Refines(fine: seq<int>, coarse: seq<int>)
    decreases |coarse|
  {
    && |fine| >= 1 && |coarse| >= 1
    && fine[0] == coarse[0]
    && (|coarse| == 1 ==> |fine| == 1)
    && (|coarse| > 1 ==>
          exists j :: 0 < j < |fine| && fine[j] == coarse[1] && Refines(fine[j..], coarse[1..]))
  }

  lemma {:induction false} AccrueAtSplits(times: seq<int>, rate: int, supply: int, j: int)
    requires Schedule(times, rate) && 0 <= j < |times|
    ensures Schedule(times[..j + 1], rate) && Schedule(times[j..], rate)
    ensures AccrueAt(times, rate, supply) == AccrueAt(times[j..], rate, AccrueAt(times[..j + 1], rate, supply))
    decreases j
  {
    ScheduleTail(times, rate, j);
    if j > 0 {
      ScheduleTail(times, rate, 1);
      AccrueAtSplits(times[1..], rate, NewSupply(IntervalFee(times[0], times[1], rate), supply), j - 1);
      assert times[1..][j - 1..] == times[j..];
      assert times[1..][..j] == times[..j + 1][1..];
    }
  }

  /** The general form: of two schedules, the one that accrues more often mints no more. */
  lemma {:induction false} RefiningMintsNoMore(fine: seq<int>, coarse: seq<int>, rate: int, supply: int)
    requires Schedule(fine, rate) && Schedule(coarse, rate) && Refines(fine, coarse) && supply >= 0
    ensures AccrueAt(fine, rate, supply) <= AccrueAt(coarse, rate, supply)
    decreases |coarse|
  {
    if |coarse| > 1 {
      var j :| 0 < j < |fine| && fine[j] == coarse[1] && Refines(fine[j..], coarse[1..]);
      AccrueAtSplits(fine, rate, supply, j);
      ScheduleTail(coarse, rate, 1);
      var reached := AccrueAt(fine[..j + 1], rate, supply);
      var jumped := NewSupply(IntervalFee(coarse[0], coarse[1], rate), supply);
      AccrueAtMono(fine[..j + 1], rate, supply, supply);
      SplittingMintsNoMore(fine[..j + 1], rate, supply);
      AccrueAtMono(fine[j..], rate, reached, jumped);
      RefiningMintsNoMore(fine[j..], coarse[1..], rate, jumped);
    }
  }

  // ---------------------------------------------------------------------------------------------
  // What accruals do to positions
  // ---------------------------------------------------------------------------------------------

  /** A non-negative position stays backed by the assets it was backed by, and loses less than the
      old unit plus the new supply to rounding. */
  lemma AccrualKeepsAssetBacked(unit: int, p: int, supply: int)
    requires unit >= 0 && ProperFee(p) && supply > 0
    ensures 0 <= PostFeeUnit(unit, p) <= unit
    ensures PostFeeUnit(unit, p) * NewSupply(p, supply) <= unit * supply
    ensures unit * supply - PostFeeUnit(unit, p) * NewSupply(p, supply) < unit + NewSupply(p, supply)
  {
    var P := PRECISE_UNIT;
    var u, t := PostFeeUnit(unit, p), NewSupply(p, supply);
    PreciseMulBounds(unit, P - p);
    NewSupplyGrows(p, supply);
    NewSupplyAdjoint(p, supply, t);
    NewSupplyAdjoint(p, supply, t + 1);
    MulMono(P - p, P, unit);
    MulCancel(u, unit, P);
    BackedProduct(unit, u, supply, t, P, P - p);
  }

  /** u is r/P of `unit` rounded down and t is P/r of `supply` rounded down. */
  lemma BackedProduct(unit: int, u: int, supply: int, t: int, P: int, r: int)
    requires 0 < r <= P && unit >= 0 && supply >= 0 && t > 0 && u >= 0
    requires u * P <= unit * r < u * P + P
    requires t * r <= supply * P < (t + 1) * r
    ensures u * t <= unit * supply
    ensures unit * supply - u * t < unit + t
  {
    Mul3(u, P, t);
    Mul3(unit, r, t);
    Mul3(unit, supply, P);
    MulMono(u * P, unit * r, t);
    MulMono(t * r, supply * P, unit);
    assert (u * t) * P <= (unit * supply) * P by {
      assert unit * (r * t) == (t * r) * unit;
      assert unit * (supply * P) == (supply * P) * unit;
    }
    MulCancel(u * t, unit * supply, P);
    BackedLoss(unit, u, supply, t, P, r);
  }

  lemma BackedLoss(unit: int, u: int, supply: int, t: int, P: int, r: int)
    requires 0 < r <= P && unit >= 0 && t > 0
    requires unit * r < u * P + P
    requires supply * P < (t + 1) * r
    ensures unit * supply - u * t < unit + t
  {
  }

  /** A debt shrinks per token but is rounded up: over all tokens it is understated by strictly less
      than its old unit, and overstated by less than one for each token. */
  lemma AccrualKeepsDebt(unit: int, p: int, supply: int)
    requires unit < 0 && ProperFee(p) && supply > 0
    ensures unit <= PostFeeUnit(unit, p) < 0
    ensures -PostFeeUnit(unit, p) * NewSupply(p, supply) > -unit * supply - -unit
    ensures -PostFeeUnit(unit, p) * NewSupply(p, supply) < -unit * supply + NewSupply(p, supply)
  {
    var debt, d, t := -unit, -PostFeeUnit(unit, p), NewSupply(p, supply);
    NewSupplyGrows(p, supply);
    NewSupplyAdjoint(p, supply, t);
    NewSupplyAdjoint(p, supply, t + 1);
    DebtUnit(debt, p);
    DebtIsLeast(unit, p, d - 1);
    RoundedUpProduct(debt, d, supply, t, PRECISE_UNIT, PRECISE_UNIT - p);
    OverstatedProduct(debt, d, supply, t, PRECISE_UNIT, PRECISE_UNIT - p);
  }

  /** A cut debt is the least that is still worth its share. */
  lemma DebtIsLeast(unit: int, p: int, k: int)
    requires unit < 0 && p <= PRECISE_UNIT
    ensures -PostFeeUnit(unit, p) <= k <==> -unit * (PRECISE_UNIT - p) <= k * PRECISE_UNIT
  {
    var d, r := -PostFeeUnit(unit, p), PRECISE_UNIT - p;
    PostFeeUnitExact(unit, p, -d);
    NegatedProduct(unit, r);
    MulMono(0, r, -unit);
    NegatedProduct(d, PRECISE_UNIT);
    CeilExact(-unit * r, PRECISE_UNIT, d);
    CeilAdjoint(-unit * r, PRECISE_UNIT, k);
  }

  lemma OverstatedProduct(debt: int, d: int, supply: int, t: int, P: int, r: int)
    requires 0 < r <= P && debt > 0 && t > 0
    requires d * P - P < debt * r
    requires t * r <= supply * P
    ensures d * t < debt * supply + t
  {
  }

  /** A debt of `debt` per token becomes the least debt worth at least its share. */
  lemma DebtUnit(debt: int, p: int)
    requires debt > 0 && ProperFee(p)
    ensures 0 < -PostFeeUnit(-debt, p) <= debt
    ensures debt * (PRECISE_UNIT - p) <= -PostFeeUnit(-debt, p) * PRECISE_UNIT
  {
    var r := PRECISE_UNIT - p;
    var d := CeilDiv(debt * r, PRECISE_UNIT);
    ProductSign(-debt, r);
    assert (-debt) * r == -(debt * r);
    PreciseMulCeilIntRoundsAway(-debt, r);
    CeilAdjoint(debt * r, PRECISE_UNIT, d);
    CeilAdjoint(debt * r, PRECISE_UNIT, 0);
    MulMono(r, PRECISE_UNIT, debt);
    CeilAdjoint(debt * r, PRECISE_UNIT, debt);
  }

  lemma RoundedUpProduct(debt: int, d: int, supply: int, t: int, P: int, r: int)
    requires 0 < r <= P && debt > 0 && t > 0
    requires debt * r <= d * P
    requires supply * P < (t + 1) * r
    ensures d * t > debt * supply - debt
  {
  }

  /** A token's supply and its position units. */
  datatype Fund = Fund(supply: int, units: seq<int>)

  /** One accrual, as the module tests perform it: mint the inflation, cut every unit. */
  function Accrue(f: Fund, p: int): Fund
    requires p != PRECISE_UNIT
  {
    Fund(NewSupply(p, f.supply), PostFeeUnits(f.units, p))
  }

  predicate ProperFees(fees: seq<int>) {
    forall i :: 0 <= i < |fees| ==> ProperFee(fees[i])
  }

  function AccrueAll(f: Fund, fees: seq<int>): Fund
    requires ProperFees(fees)
    decreases |fees|
  {
    if fees == [] then f else AccrueAll(Accrue(f, fees[0]), fees[1..])
  }

  /** A unit after a list of accruals. */
  function UnitAfter(unit: int, fees: seq<int>): int
    decreases |fees|
  {
    if fees == [] then unit else UnitAfter(PostFeeUnit(unit, fees[0]), fees[1..])
  }

  lemma {:induction false} SumNonNegative(s: seq<int>)
    requires forall i :: 0 <= i < |s| ==> s[i] >= 0
    ensures Sum(s) >= 0
    decreases |s|
  {
    if s != [] { SumNonNegative(s[1..]); }
  }

  /** Two cuts leave at least what one cut of the summed percentage leaves, less one. */
  lemma TwoCutsCostOne(unit: int, p: int, q: int)
    requires unit >= 0 && 0 <= p && 0 <= q && p + q <= PRECISE_UNIT
    ensures 0 <= PostFeeUnit(unit, p)
    ensures PostFeeUnit(PostFeeUnit(unit, p), q) >= PostFeeUnit(unit, p + q) - 1
  {
    var P := PRECISE_UNIT;
    var v := PostFeeUnit(unit, p);
    var k := PostFeeUnit(unit, p + q);
    PreciseMulBounds(unit, P - p);
    PreciseMulBounds(unit, P - p - q);
    PreciseMulAdjoint(v, P - q, k - 1);
    CutTwice(unit, v, P, p, q);
    MulDistributes(v, 1, P - q);
  }

  lemma CutTwice(unit: int, v: int, P: int, p: int, q: int)
    requires unit >= 0 && 0 <= p && 0 <= q && p + q <= P && 0 < P
    requires unit * (P - p) <= v * P + P
    ensures unit * (P - p - q) <= (v + 1) * (P - q)
  {
  }

  /** Many accruals cost holders little extra: n of them leave at least the unit that one accrual of
      the summed percentage leaves, less n - 1. */
  lemma {:induction false} ManyAccrualsCostLittle(unit: int, fees: seq<int>)
    requires unit >= 0 && |fees| >= 1
    requires (forall i :: 0 <= i < |fees| ==> fees[i] >= 0) && Sum(fees) <= PRECISE_UNIT
    ensures UnitAfter(unit, fees) >= PostFeeUnit(unit, Sum(fees)) - (|fees| - 1)
    decreases |fees|
  {
    var rest := fees[1..];
    SumNonNegative(rest);
    if rest == [] {
      assert Sum(fees) == fees[0];
    } else {
      TwoCutsCostOne(unit, fees[0], Sum(rest));
      ManyAccrualsCostLittle(PostFeeUnit(unit, fees[0]), rest);
    }
  }

  /** The runs over funds and over single units are the same run. */
  lemma {:induction false} FundUnitsAreUnitRuns(f: Fund, fees: seq<int>, i: int)
    requires ProperFees(fees)
    requires 0 <= i < |f.units|
    ensures |AccrueAll(f, fees).units| == |f.units|
    ensures AccrueAll(f, fees).units[i] == UnitAfter(f.units[i], fees)
    decreases |fees|
  {
    if fees != [] { FundUnitsAreUnitRuns(Accrue(f, fees[0]), fees[1..], i); }
  }

  function SupplyAfter(supply: int, fees: seq<int>): int
    requires ProperFees(fees)
    decreases |fees|
  {
    if fees == [] then supply else SupplyAfter(NewSupply(fees[0], supply), fees[1..])
  }

  lemma {:induction false} FundSupplyIsSupplyRun(f: Fund, fees: seq<int>)
    requires ProperFees(fees)
    ensures AccrueAll(f, fees).supply == SupplyAfter(f.supply, fees)
    decreases |fees|
  {
    if fees != [] { FundSupplyIsSupplyRun(Accrue(f, fees[0]), fees[1..]); }
  }

  lemma {:induction false} AssetRun(unit: int, supply: int, fees: seq<int>)
    requires ProperFees(fees) && supply > 0 && unit >= 0
    ensures SupplyAfter(supply, fees) >= supply
    ensures 0 <= UnitAfter(unit, fees) <= unit
    ensures UnitAfter(unit, fees) * SupplyAfter(supply, fees) <= unit * supply
    ensures unit * supply - UnitAfter(unit, fees) * SupplyAfter(supply, fees)
         <= |fees| * (unit + SupplyAfter(supply, fees))
    decreases |fees|
  {
    if fees != [] {
      var u, t, n := PostFeeUnit(unit, fees[0]), NewSupply(fees[0], supply), |fees| - 1;
      var last := SupplyAfter(supply, fees);
      NewSupplyGrows(fees[0], supply);
      AccrualKeepsAssetBacked(unit, fees[0], supply);
      AssetRun(u, t, fees[1..]);
      AssetStep(unit * supply, u * t, UnitAfter(unit, fees) * last, unit + t, u + last, unit + last, n);
    }
  }

  lemma AssetStep(before: int, between: int, after: int, lost: int, each: int, most: int, n: nat)
    requires before - between < lost <= most && between - after <= n * each && each <= most
    ensures before - after <= (n + 1) * most
  {
  }

  lemma DebtStep(covered: int, d: int, t: int, debt: int, supply: int, n: nat)
    requires d <= debt && d * t > debt * supply - debt
    requires covered >= d * t - n * d
    ensures covered > debt * supply - (n + 1) * debt
  {
  }

  lemma {:induction false} DebtRun(unit: int, supply: int, fees: seq<int>)
    requires ProperFees(fees) && supply > 0 && unit < 0
    ensures SupplyAfter(supply, fees) >= supply && unit <= UnitAfter(unit, fees) < 0
    ensures -UnitAfter(unit, fees) * SupplyAfter(supply, fees) <= -unit * supply + |fees| * SupplyAfter(supply, fees)
    ensures -UnitAfter(unit, fees) * SupplyAfter(supply, fees) >= -unit * supply - |fees| * -unit
    ensures fees != [] ==> -UnitAfter(unit, fees) * SupplyAfter(supply, fees) > -unit * supply - |fees| * -unit
    decreases |fees|
  {
    if fees != [] {
      var u, t, n := PostFeeUnit(unit, fees[0]), NewSupply(fees[0], supply), |fees| - 1;
      NewSupplyGrows(fees[0], supply);
      AccrualKeepsDebt(unit, fees[0], supply);
      DebtRun(u, t, fees[1..]);
      DebtStep(-UnitAfter(u, fees[1..]) * SupplyAfter(t, fees[1..]), -u, t, -unit, supply, n);
      MulDistributes(n, 1, SupplyAfter(t, fees[1..]));
    }
  }

  /** Over any run of accruals every asset position stays backed by the holdings that backed it at
      the start and loses at most old unit plus final supply per accrual; every debt is understated by less
      than one old unit per accrual and overstated by at most the final supply per accrual. */
  lemma AccrualRunKeepsPositions(f: Fund, fees: seq<int>, i: int)
    requires ProperFees(fees)
    requires f.supply > 0 && 0 <= i < |f.units|
    ensures var g := AccrueAll(f, fees);
            && g.supply >= f.supply && |g.units| == |f.units|
            && (f.units[i] >= 0 ==>
                  && 0 <= g.units[i] && g.units[i] * g.supply <= f.units[i] * f.supply
                  && f.units[i] * f.supply - g.units[i] * g.supply <= |fees| * (f.units[i] + g.supply))
            && (f.units[i] < 0 ==>
                  && f.units[i] <= g.units[i] < 0
                  && -g.units[i] * g.supply <= -f.units[i] * f.supply + |fees| * g.supply
                  && -g.units[i] * g.supply >= -f.units[i] * f.supply - |fees| * -f.units[i]
                  && (fees != [] ==>
                        -g.units[i] * g.supply > -f.units[i] * f.supply - |fees| * -f.units[i]))
  {
    FundSupplyIsSupplyRun(f, fees);
    FundUnitsAreUnitRuns(f, fees, i);
    if f.units[i] >= 0 {
      AssetRun(f.units[i], f.supply, fees);
    } else {
      DebtRun(f.units[i], f.supply, fees);
    }
  }
}
