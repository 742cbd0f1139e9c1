/** Runs of issues and redemptions of one token against one reserve asset, each step computed by the
    formulas of NavIssuance. */
module NavFund {
  import opened Arithmetic
  import opened MathUtils
  import opened NavIssuance

  /** `unit` is the position recorded per token, `balance` the reserve asset actually held, and `worth`
      the 18-decimal worth of everything held. */
  datatype Fund = Fund(supply: int, unit: int, multiplier: int, balance: int, worth: int)

  datatype Op =
    | Issue(quantity: int, valuation: int, charges: Charges)
    | Redeem(tokens: int, valuation: int, charges: Charges)

  /** A fund with tokens outstanding and a usable multiplier. */
  predicate Live(f: Fund) {
    f.supply > 0 && f.unit >= 0 && f.multiplier > 0
  }

  /** What the module demands of a call: non-negative amounts, percentages in range, a valuation it can
      divide by, a multiplier that does not vanish, and enough recorded reserve to redeem from. */
  predicate Enabled(f: Fund, op: Op, baseUnits: int) {
    && Live(f) && baseUnits > 0 && op.valuation >= 0 && InRange(op.charges)
    && match op
       case Issue(q, v, c) =>
         && q >= 0
         && IssueDenominator(f.supply, v, baseUnits, q, c) != 0
         && IssuePositionMultiplier(f.multiplier, f.supply, f.supply + IssueQuantity(f.supply, v, baseUnits, q, c)) > 0
       case Redeem(t, v, c) =>
         && 0 <= t < f.supply
         && RedeemNumerator(f.unit, t, v, baseUnits, f.supply, c) >= 0
  }

  function Step(f: Fund, op: Op, baseUnits: int): Fund
    requires Enabled(f, op, baseUnits)
  {
    match op
    case Issue(q, v, c) =>
      IssueDilutesNobody(f.supply, v, baseUnits, q, c);
      var s1 := f.supply + IssueQuantity(f.supply, v, baseUnits, q, c);
      var m1 := IssuePositionMultiplier(f.multiplier, f.supply, s1);
      Fund(s1, IssuePositionUnit(f.unit, q, f.supply, s1, m1, c), m1,
           f.balance + PostFee(q, c), f.worth + NormalizedDeposit(q, baseUnits, c))
    case Redeem(t, v, c) =>
      var s1 := f.supply - t;
      RedeemMultiplierBounds(f.multiplier, f.supply, s1);
      var m1 := RedeemPositionMultiplier(f.multiplier, f.supply, s1);
      Fund(s1, RedeemPositionUnit(f.unit, t, v, baseUnits, f.supply, s1, m1, c), m1,
           f.balance - PaidOut(t, v, baseUnits, c), f.worth - RedeemOutflow(t, v, c))
  }

  predicate Runnable(f: Fund, ops: seq<Op>, baseUnits: int)
    decreases |ops|
  {
    ops == [] || (Enabled(f, ops[0], baseUnits) && Runnable(Step(f, ops[0], baseUnits), ops[1..], baseUnits))
  }

  function After(f: Fund, ops: seq<Op>, baseUnits: int): Fund
    requires Runnable(f, ops, baseUnits)
    decreases |ops|
  {
    if ops == [] then f else After(Step(f, ops[0], baseUnits), ops[1..], baseUnits)
  }

  /** The recorded positions of all tokens together are held. */
  predicate Covered(f: Fund) {
    f.unit * f.supply <= PRECISE_UNIT * f.balance
  }

  /** Holdings in excess of the recorded positions of all tokens, in scaled units. */
  function Surplus(f: Fund): int {
    PRECISE_UNIT * f.balance - f.unit * f.supply
  }

  /** A step neither shrinks the surplus nor grows multiplier times supply, and moves both by no more than its
      roundings. */
  lemma StepKeepsCovered(f: Fund, op: Op, baseUnits: int)
    requires Enabled(f, op, baseUnits)
    ensures var g := Step(f, op, baseUnits);
            && Live(g)
            && Surplus(g) >= Surplus(f)
            && g.multiplier * (Surplus(g) - Surplus(f))
               < g.supply * (PRECISE_UNIT + 2 * g.multiplier) + 3 * (g.multiplier * PRECISE_UNIT)
            && g.multiplier * g.supply <= f.multiplier * f.supply
            && (f.multiplier * f.supply - g.multiplier * g.supply) * PRECISE_UNIT
               < g.supply * (f.multiplier + PRECISE_UNIT)
  {
    var g := Step(f, op, baseUnits);
    match op
    case Issue(q, v, c) =>
      IssueDilutesNobody(f.supply, v, baseUnits, q, c);
      IssueMultiplierBounds(f.multiplier, f.supply, g.supply);
      IssueUnitIsCovered(f.unit, q, f.supply, g.supply, g.multiplier, c);
      SurplusGrowth(g.multiplier, g.supply, f.unit * f.supply + PRECISE_UNIT * PostFee(q, c) - g.unit * g.supply,
                    Surplus(g) - Surplus(f));
    case Redeem(t, v, c) =>
      RedeemMultiplierBounds(f.multiplier, f.supply, g.supply);
      RedeemUnitIsCovered(f.unit, t, v, baseUnits, f.supply, g.supply, g.multiplier, c);
      RedemptionAccountsAgree(t, v, baseUnits, c);
      SurplusGrowth(g.multiplier, g.supply,
                    f.unit * f.supply - PRECISE_UNIT * RedeemDeduction(t, v, baseUnits, c) - g.unit * g.supply,
                    Surplus(g) - Surplus(f));
  }

  lemma SurplusGrowth(m: int, supply: int, unallotted: int, growth: int)
    requires m > 0 && growth <= unallotted + 2 * PRECISE_UNIT
    requires m * unallotted < supply * (PRECISE_UNIT + 2 * m) + m * PRECISE_UNIT
    ensures m * growth < supply * (PRECISE_UNIT + 2 * m) + 3 * (m * PRECISE_UNIT)
  {
    MulMono(growth, unallotted + 2 * PRECISE_UNIT, m);
  }

  /** Supply, balance and worth move together. An issue books what its fees leave, and its worth in 18 decimals;
      a redemption books the value of the tokens less the premium, and pays that out in base units. */
  lemma StepMovesTogether(f: Fund, op: Op, baseUnits: int)
    requires Enabled(f, op, baseUnits)
    ensures var g := Step(f, op, baseUnits);
            var P := PRECISE_UNIT;
            match op
            case Issue(q, v, c) =>
              var gained := g.balance - f.balance;
              && g.supply == f.supply + IssueQuantity(f.supply, v, baseUnits, q, c)
              && (q - gained) * P <= q * (c.managerFee + c.protocolFee) < (q - gained) * P + 2 * P
              && (g.worth - f.worth) * baseUnits <= gained * P < (g.worth - f.worth) * baseUnits + baseUnits
            case Redeem(t, v, c) =>
              var out, paid := f.worth - g.worth, f.balance - g.balance;
              && g.supply == f.supply - t
              && out * (P * P) <= v * t * (P - c.premium) <= out * (P * P) + 2 * (P * P)
              && paid * P <= out * baseUnits < paid * P + 3 * P
  {
    match op
    case Issue(q, v, c) => DepositMoves(q, baseUnits, c);
    case Redeem(t, v, c) => RedemptionMoves(t, v, baseUnits, c);
  }

  lemma DepositMoves(q: int, baseUnits: int, c: Charges)
    requires q >= 0 && baseUnits > 0 && InRange(c)
    ensures var P, gained, worth := PRECISE_UNIT, PostFee(q, c), NormalizedDeposit(q, baseUnits, c);
            && (q - gained) * P <= q * (c.managerFee + c.protocolFee) < (q - gained) * P + 2 * P
            && worth * baseUnits <= gained * P < worth * baseUnits + baseUnits
  {
    PostFeeBounds(q, c);
    PreciseMulBounds(q, c.managerFee);
    PreciseMulBounds(q, c.protocolFee);
    MulDistributes(c.managerFee, c.protocolFee, q);
    PreciseDivBounds(PostFee(q, c), baseUnits);
  }

  lemma RedemptionMoves(t: int, v: int, baseUnits: int, c: Charges)
    requires t >= 0 && v >= 0 && baseUnits >= 0 && InRange(c)
    ensures var P, out, paid := PRECISE_UNIT, RedeemOutflow(t, v, c), PaidOut(t, v, baseUnits, c);
            && out * (P * P) <= v * t * (P - c.premium) <= out * (P * P) + 2 * (P * P)
            && paid * P <= out * baseUnits < paid * P + 3 * P
  {
    OutflowMoves(t, v, c);
    RedeemOutflowBounds(t, v, c);
    RedemptionAccountsAgree(t, v, baseUnits, c);
    PreciseMulBounds(RedeemOutflow(t, v, c), baseUnits);
  }

  lemma OutflowMoves(t: int, v: int, c: Charges)
    requires t >= 0 && v >= 0 && InRange(c)
    ensures var P, out := PRECISE_UNIT, RedeemOutflow(t, v, c);
            out * (P * P) <= v * t * (P - c.premium) <= out * (P * P) + 2 * (P * P)
  {
    var n, x := PreciseMul(v, t), RedeemOutflow(t, v, c);
    PreciseMulBounds(v, t);
    PremiumComplement(n, c.premium);
    PreciseMulBounds(n, PRECISE_UNIT - c.premium);
    TwoFloors(PRECISE_UNIT, v * t, PRECISE_UNIT - c.premium, n, x);
  }

  /** Over any run of issues and redemptions the surplus of holdings over recorded positions never
      shrinks, so a covered fund stays covered, and multiplier times supply never grows: a run that
      returns to the same supply never raises the multiplier. */
  lemma {:induction false} RunKeepsCovered(f: Fund, ops: seq<Op>, baseUnits: int)
    requires Live(f) && Runnable(f, ops, baseUnits)
    ensures var g := After(f, ops, baseUnits);
            && Live(g)
            && Surplus(g) >= Surplus(f)
            && (Covered(f) ==> Covered(g) && g.balance >= 0)
            && g.multiplier * g.supply <= f.multiplier * f.supply
            && (g.supply >= f.supply ==> g.multiplier <= f.multiplier)
    decreases |ops|
  {
    var g := After(f, ops, baseUnits);
    if ops != [] {
      StepKeepsCovered(f, ops[0], baseUnits);
      RunKeepsCovered(Step(f, ops[0], baseUnits), ops[1..], baseUnits);
    }
    MulMono(0, g.unit, g.supply);
    if g.supply >= f.supply { ProductCapsFactor(g.multiplier, g.supply, f.multiplier, f.supply); }
  }

  /** A valuation that errs, if at all, against whoever is trading. */
  predicate FairlyValued(f: Fund, op: Op) {
    match op
    case Issue(_, v, _) => PreciseMul(f.supply, v) >= f.worth
    case Redeem(_, v, _) => v * f.supply <= PRECISE_UNIT * f.worth
  }

  predicate FairRun(f: Fund, ops: seq<Op>, baseUnits: int)
    requires Runnable(f, ops, baseUnits)
    decreases |ops|
  {
    ops == [] || (FairlyValued(f, ops[0]) && FairRun(Step(f, ops[0], baseUnits), ops[1..], baseUnits))
  }

  lemma FairStepKeepsWorth(f: Fund, op: Op, baseUnits: int)
    requires Enabled(f, op, baseUnits) && FairlyValued(f, op) && f.worth >= 0
    ensures var g := Step(f, op, baseUnits);
            g.worth >= 0 && g.worth * f.supply >= f.worth * g.supply
  {
    match op
    case Issue(q, v, c) =>
      var excess := PreciseMul(f.supply, v) - f.worth;
      var tokens := IssueQuantity(f.supply, v, baseUnits, q, c);
      IssueDilutesNobody(f.supply, v, baseUnits, q, c);
      assert excess * tokens >= 0 by { MulMono(0, excess, tokens); }
      IssueKeepsWorth(f.supply, v, baseUnits, q, c, f.worth);
      DepositBounds(q, baseUnits, c);
    case Redeem(t, v, c) =>
      var x := RedeemOutflow(t, v, c);
      RedeemOutflowBounds(t, v, c);
      PreciseMulBounds(v, t);
      RedeemWorth(x, v, t, f.supply, f.worth);
      RedeemLeaves(x, t, f.supply, f.worth);
  }

  lemma RedeemLeaves(x: int, t: int, supply: int, worth: int)
    requires x * supply <= worth * t && 0 <= t < supply && worth >= 0
    ensures worth - x >= 0 && (worth - x) * supply >= worth * (supply - t)
  {
  }

  lemma RedeemWorth(x: int, v: int, t: int, supply: int, worth: int)
    requires x * PRECISE_UNIT <= v * t && v * supply <= PRECISE_UNIT * worth
    requires t >= 0 && supply > 0
    ensures x * supply <= worth * t
  {
  }

  /** Over any fairly valued run, by any number of traders, worth per token never falls; a run that
      brings the supply back to where it was has taken out no more than it put in. */
  lemma {:induction false} FairRunKeepsWorth(f: Fund, ops: seq<Op>, baseUnits: int)
    requires Live(f) && f.worth >= 0 && Runnable(f, ops, baseUnits) && FairRun(f, ops, baseUnits)
    ensures var g := After(f, ops, baseUnits);
            && g.supply > 0 && g.worth >= 0
            && g.worth * f.supply >= f.worth * g.supply
            && (g.supply == f.supply ==> g.worth >= f.worth)
    decreases |ops|
  {
    if ops != [] {
      var g, h := After(f, ops, baseUnits), Step(f, ops[0], baseUnits);
      StepKeepsCovered(f, ops[0], baseUnits);
      FairStepKeepsWorth(f, ops[0], baseUnits);
      FairRunKeepsWorth(h, ops[1..], baseUnits);
      RatioTransitive(g.worth, g.supply, h.worth, h.supply, f.worth, f.supply);
      if g.supply == f.supply { MulCancel(f.worth, g.worth, f.supply); }
    }
  }
}
