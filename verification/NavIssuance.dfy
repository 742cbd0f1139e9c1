/** utils/common/navIssuanceModuleUtils.ts: issuing and redeeming a token at its net asset value. */
module NavIssuance {
  import opened Arithmetic
  import opened MathUtils

  function IssuePositionMultiplier(previousPositionMultiplier: int, previousSupply: int, currentSupply: int): int {
    var inflation := PreciseDivCeil(currentSupply - previousSupply, currentSupply);
    PreciseMul(previousPositionMultiplier, PRECISE_UNIT - inflation)
  }

  function PostFeeQuantity(quantity: int, managerFeePercentage: int, protocolDirectFeePercentage: int): int {
    var managerFees := PreciseMul(quantity, managerFeePercentage);
    var protocolDirectFees := PreciseMul(quantity, protocolDirectFeePercentage);
    quantity - managerFees - protocolDirectFees
  }

  /** The three percentages an issue or a redemption is charged. */
  datatype Charges = Charges(managerFee: int, protocolFee: int, premium: int)

  function PostFee(quantity: int, c: Charges): int {
    PostFeeQuantity(quantity, c.managerFee, c.protocolFee)
  }

  function PostFeeAndPremium(quantity: int, c: Charges): int {
    PostFee(quantity, c) - PreciseMul(PostFee(quantity, c), c.premium)
  }

  /** The deposit after fees, in 18 decimals. */
  function NormalizedDeposit(quantity: int, baseUnits: int, c: Charges): int
    requires baseUnits != 0
  {
    PreciseDiv(PostFee(quantity, c), baseUnits)
  }

  /** The deposit after fees and premium, in 18 decimals. */
  function NormalizedCredit(quantity: int, baseUnits: int, c: Charges): int
    requires baseUnits != 0
  {
    PreciseDiv(PostFeeAndPremium(quantity, c), baseUnits)
  }

  function IssueDenominator(supply: int, valuation: int, baseUnits: int, quantity: int, c: Charges): int
    requires baseUnits != 0
  {
    PreciseMul(supply, valuation) + NormalizedDeposit(quantity, baseUnits, c) - NormalizedCredit(quantity, baseUnits, c)
  }

  /** Dividing by a zero denominator throws in the original. */
  function IssueQuantity(supply: int, valuation: int, baseUnits: int, quantity: int, c: Charges): int
    requires baseUnits != 0
    requires IssueDenominator(supply, valuation, baseUnits, quantity, c) != 0
  {
    PreciseDiv(PreciseMul(NormalizedCredit(quantity, baseUnits, c), supply),
               IssueDenominator(supply, valuation, baseUnits, quantity, c))
  }

  function IssuePositionUnit(previousUnits: int, issueQuantity: int, previousSupply: int, currentSupply: int,
                             newPositionMultiplier: int, c: Charges): int
    requires currentSupply != 0 && newPositionMultiplier != 0
  {
    var issueQuantitySubFees := PostFee(issueQuantity, c);
    var numerator := PreciseMul(previousSupply, previousUnits) + issueQuantitySubFees;
    var newPositionUnit := PreciseDiv(numerator, currentSupply);
    var roundDownPositionUnit := PreciseMul(newPositionUnit, newPositionMultiplier);
    PreciseDiv(roundDownPositionUnit, newPositionMultiplier)
  }

  /** What a redemption takes out of the token before fees, in 18 decimals: the premium stays in. */
  function RedeemOutflow(tokens: int, valuation: int, c: Charges): int {
    var totalNotionalReserveQuantity := PreciseMul(valuation, tokens);
    totalNotionalReserveQuantity - PreciseMulCeil(totalNotionalReserveQuantity, c.premium)
  }

  function ReserveRedeemQuantity(tokens: int, valuation: int, baseUnits: int, c: Charges): int {
    PreciseMul(PostFee(RedeemOutflow(tokens, valuation, c), c), baseUnits)
  }

  /** The reserve quantity a redemption deducts from the position. */
  function RedeemDeduction(tokens: int, valuation: int, baseUnits: int, c: Charges): int {
    PreciseMul(RedeemOutflow(tokens, valuation, c), baseUnits)
  }

  function RedeemPositionMultiplier(previousPositionMultiplier: int, previousSupply: int, currentSupply: int): int
    requires currentSupply != 0
  {
    var deflation := PreciseDiv(previousSupply - currentSupply, currentSupply);
    PreciseMul(previousPositionMultiplier, PRECISE_UNIT + deflation)
  }

  /** What is left of the position before it is spread over the remaining supply. */
  function RedeemNumerator(previousUnits: int, tokens: int, valuation: int, baseUnits: int, previousSupply: int,
                           c: Charges): int
  {
    PreciseMul(previousSupply, previousUnits) - RedeemDeduction(tokens, valuation, baseUnits, c)
  }

  function RedeemPositionUnit(previousUnits: int, tokens: int, valuation: int, baseUnits: int,
                              previousSupply: int, currentSupply: int, newPositionMultiplier: int, c: Charges): int
    requires currentSupply != 0 && newPositionMultiplier != 0
  {
    var numerator := RedeemNumerator(previousUnits, tokens, valuation, baseUnits, previousSupply, c);
    var newPositionUnit := PreciseDiv(numerator, currentSupply);
    var roundDownPositionUnit := PreciseMul(newPositionUnit, newPositionMultiplier);
    PreciseDiv(roundDownPositionUnit, newPositionMultiplier)
  }

  // ---------------------------------------------------------------------------------------------
  // Fees
  // ---------------------------------------------------------------------------------------------

  /** Percentages the module accepts: none negative, fees together and premium at most 100%. */
  predicate InRange(c: Charges) {
    && 0 <= c.managerFee && 0 <= c.protocolFee && c.managerFee + c.protocolFee <= PRECISE_UNIT
    && 0 <= c.premium <= PRECISE_UNIT
  }

  lemma PostFeeBounds(quantity: int, c: Charges)
    requires quantity >= 0 && InRange(c)
    ensures 0 <= PostFee(quantity, c) <= quantity
  {
    PreciseMulBounds(quantity, c.managerFee);
    PreciseMulBounds(quantity, c.protocolFee);
    MulMono(c.managerFee + c.protocolFee, PRECISE_UNIT, quantity);
    MulDistributes(c.managerFee, c.protocolFee, quantity);
  }

  lemma PremiumBounds(quantity: int, premium: int)
    requires quantity >= 0 && 0 <= premium <= PRECISE_UNIT
    ensures 0 <= PreciseMul(quantity, premium) <= quantity
    ensures 0 <= PreciseMulCeil(quantity, premium) <= quantity
  {
    MulMono(premium, PRECISE_UNIT, quantity);
    PreciseMulBounds(quantity, premium);
    PreciseMulCeilAdjoint(quantity, premium, quantity);
    PreciseMulCeilBounds(quantity, premium);
  }

  lemma DepositBounds(quantity: int, baseUnits: int, c: Charges)
    requires quantity >= 0 && baseUnits > 0 && InRange(c)
    ensures 0 <= PostFeeAndPremium(quantity, c) <= PostFee(quantity, c) <= quantity
    ensures 0 <= NormalizedCredit(quantity, baseUnits, c) <= NormalizedDeposit(quantity, baseUnits, c)
  {
    PostFeeBounds(quantity, c);
    PremiumBounds(PostFee(quantity, c), c.premium);
    PreciseDivMono(PostFeeAndPremium(quantity, c), PostFee(quantity, c), baseUnits);
    PreciseDivBounds(PostFeeAndPremium(quantity, c), baseUnits);
  }

  // ---------------------------------------------------------------------------------------------
  // Issuing dilutes nobody
  // ---------------------------------------------------------------------------------------------

  /** With M the valued assets, the issuer's claim on the enlarged fund never exceeds the credited
      deposit, and every earlier holder's claim is at least what it was, despite the nested floors.
      The issuer in turn loses less than P plus the denominator to them. What is withheld from the credit
      is the premium, up to two roundings. */
  lemma IssueDilutesNobody(supply: int, valuation: int, baseUnits: int, quantity: int, c: Charges)
    requires supply >= 0 && valuation >= 0 && baseUnits > 0 && quantity >= 0 && InRange(c)
    requires IssueDenominator(supply, valuation, baseUnits, quantity, c) != 0
    ensures var M, nf, nfp, I := PreciseMul(supply, valuation), NormalizedDeposit(quantity, baseUnits, c),
                                 NormalizedCredit(quantity, baseUnits, c),
                                 IssueQuantity(supply, valuation, baseUnits, quantity, c);
            && I >= 0 && M >= 0
            && I * (M + nf) <= nfp * (supply + I)
            && supply * (M + nf) >= M * (supply + I)
            && nfp * supply - I * (M + nf - nfp) < PRECISE_UNIT + (M + nf - nfp)
    ensures var withheld := NormalizedDeposit(quantity, baseUnits, c) - NormalizedCredit(quantity, baseUnits, c);
            var premium := PostFee(quantity, c) * c.premium;
            premium - PRECISE_UNIT - baseUnits < withheld * baseUnits < premium + baseUnits
  {
    var M, nf, nfp := PreciseMul(supply, valuation), NormalizedDeposit(quantity, baseUnits, c),
                      NormalizedCredit(quantity, baseUnits, c);
    var I := IssueQuantity(supply, valuation, baseUnits, quantity, c);
    DepositBounds(quantity, baseUnits, c);
    PreciseMulBounds(supply, valuation);
    PreciseMulBounds(nfp, supply);
    PreciseDivBounds(PreciseMul(nfp, supply), M + nf - nfp);
    ClaimArithmetic(M, nf, nfp, I, supply);
    PreciseMulBounds(PostFee(quantity, c), c.premium);
    PreciseDivBounds(PostFee(quantity, c), baseUnits);
    PreciseDivBounds(PostFeeAndPremium(quantity, c), baseUnits);
    MulDistributes(nf, nfp, baseUnits);
  }

  lemma ClaimArithmetic(M: int, nf: int, nfp: int, I: int, supply: int)
    requires 0 <= nfp <= nf && 0 <= I && supply >= 0 && M >= 0
    requires I * (M + nf - nfp) <= nfp * supply
    ensures I * (M + nf) <= nfp * (supply + I)
    ensures supply * (M + nf) >= M * (supply + I)
  {
  }

  /** Whatever the assets are really worth, an issue moves worth per token by at most the valuation's own
      error times the tokens issued: nothing is lost when the valuation does not understate. */
  lemma IssueKeepsWorth(supply: int, valuation: int, baseUnits: int, quantity: int, c: Charges, worth: int)
    requires supply >= 0 && valuation >= 0 && baseUnits > 0 && quantity >= 0 && InRange(c)
    requires IssueDenominator(supply, valuation, baseUnits, quantity, c) != 0
    ensures var M, nf, I := PreciseMul(supply, valuation), NormalizedDeposit(quantity, baseUnits, c),
                            IssueQuantity(supply, valuation, baseUnits, quantity, c);
            (worth + nf) * supply - worth * (supply + I) >= (M - worth) * I
  {
    IssueDilutesNobody(supply, valuation, baseUnits, quantity, c);
    var M, nf, I := PreciseMul(supply, valuation), NormalizedDeposit(quantity, baseUnits, c),
                    IssueQuantity(supply, valuation, baseUnits, quantity, c);
    WorthArithmetic(supply, I, M, nf, worth);
  }

  lemma WorthArithmetic(supply: int, I: int, M: int, nf: int, worth: int)
    requires supply * (M + nf) >= M * (supply + I)
    ensures (worth + nf) * supply - worth * (supply + I) >= (M - worth) * I
  {
  }

  // ---------------------------------------------------------------------------------------------
  // Redemptions
  // ---------------------------------------------------------------------------------------------

  lemma RedeemOutflowBounds(tokens: int, valuation: int, c: Charges)
    requires tokens >= 0 && valuation >= 0 && InRange(c)
    ensures 0 <= RedeemOutflow(tokens, valuation, c) <= PreciseMul(valuation, tokens)
  {
    PreciseMulBounds(valuation, tokens);
    PremiumBounds(PreciseMul(valuation, tokens), c.premium);
  }

  /** Issue then redeem never profits. If the later valuation of the whole enlarged supply does not
      exceed the value before the issue plus the value deposited, then redeeming the issued tokens,
      under any charges, returns at most the deposit net of its own fees and premium. */
  lemma RoundTripNeverProfits(supply: int, valuation: int, baseUnits: int, quantity: int,
                              issueCharges: Charges, laterValuation: int, redeemCharges: Charges)
    requires supply >= 0 && valuation >= 0 && baseUnits > 0 && quantity >= 0
    requires InRange(issueCharges) && InRange(redeemCharges) && laterValuation >= 0
    requires IssueDenominator(supply, valuation, baseUnits, quantity, issueCharges) != 0
    requires var I := IssueQuantity(supply, valuation, baseUnits, quantity, issueCharges);
             && supply + I > 0
             && laterValuation * (supply + I)
                <= PRECISE_UNIT * (PreciseMul(supply, valuation) + NormalizedDeposit(quantity, baseUnits, issueCharges))
    ensures var I := IssueQuantity(supply, valuation, baseUnits, quantity, issueCharges);
            ReserveRedeemQuantity(I, laterValuation, baseUnits, redeemCharges)
            <= PostFeeAndPremium(quantity, issueCharges) <= quantity
  {
    var M, nf, nfp := PreciseMul(supply, valuation), NormalizedDeposit(quantity, baseUnits, issueCharges),
                      NormalizedCredit(quantity, baseUnits, issueCharges);
    var I := IssueQuantity(supply, valuation, baseUnits, quantity, issueCharges);
    IssueDilutesNobody(supply, valuation, baseUnits, quantity, issueCharges);
    DepositBounds(quantity, baseUnits, issueCharges);

    // the redeemed tokens are worth at most the credited deposit
    var N := PreciseMul(laterValuation, I);
    PreciseMulBounds(laterValuation, I);
    ClaimWorth(laterValuation, supply, I, M + nf, nfp, N);

    // fees and premium only lower the payout, and converting back rounds down
    var out := PostFee(RedeemOutflow(I, laterValuation, redeemCharges), redeemCharges);
    RedeemOutflowBounds(I, laterValuation, redeemCharges);
    PostFeeBounds(RedeemOutflow(I, laterValuation, redeemCharges), redeemCharges);
    var net := PostFeeAndPremium(quantity, issueCharges);
    PreciseDivBounds(net, baseUnits);
    PreciseMulBounds(out, baseUnits);
    MulMono(out, nfp, baseUnits);
    MulCancel(PreciseMul(out, baseUnits), net, PRECISE_UNIT);
  }

  lemma ClaimWorth(v: int, supply: int, I: int, worth: int, nfp: int, N: int)
    requires supply + I > 0 && I >= 0
    requires v * (supply + I) <= PRECISE_UNIT * worth
    requires I * worth <= nfp * (supply + I)
    requires N * PRECISE_UNIT <= v * I
    ensures N <= nfp
  {
  }

  /** Everything that leaves the fund in a redemption: the payout and both fees, in base units. */
  function PaidOut(tokens: int, valuation: int, baseUnits: int, c: Charges): int {
    var x := RedeemOutflow(tokens, valuation, c);
    ReserveRedeemQuantity(tokens, valuation, baseUnits, c)
    + PreciseMul(PreciseMul(x, c.managerFee), baseUnits)
    + PreciseMul(PreciseMul(x, c.protocolFee), baseUnits)
  }

  /** Redemption accounts agree: payout and both fees, each converted to base units, add up to no more
      than the deduction from the reserve position and fall short of it by at most two. */
  lemma RedemptionAccountsAgree(tokens: int, valuation: int, baseUnits: int, c: Charges)
    requires tokens >= 0 && valuation >= 0 && baseUnits >= 0 && InRange(c)
    ensures var paid := PaidOut(tokens, valuation, baseUnits, c);
            var deducted := RedeemDeduction(tokens, valuation, baseUnits, c);
            0 <= paid <= deducted <= paid + 2
  {
    var x := RedeemOutflow(tokens, valuation, c);
    RedeemOutflowBounds(tokens, valuation, c);
    PostFeeBounds(x, c);
    var m, p, net := PreciseMul(x, c.managerFee), PreciseMul(x, c.protocolFee), PostFee(x, c);
    PreciseMulBounds(x, c.managerFee);
    PreciseMulBounds(x, c.protocolFee);
    PreciseMulBounds(m, baseUnits);
    PreciseMulBounds(p, baseUnits);
    PreciseMulBounds(net, baseUnits);
    PreciseMulBounds(x, baseUnits);
    MulDistributes(m, p, baseUnits);
    MulDistributes(m + p, net, baseUnits);
  }

  /** At every valuation the deduction is the redeemed tokens' value less the premium, in base units, short of
      it by less than its three roundings. */
  lemma DeductionIsProRata(tokens: int, valuation: int, baseUnits: int, c: Charges)
    requires tokens >= 0 && valuation >= 0 && baseUnits >= 0 && InRange(c)
    ensures var P := PRECISE_UNIT;
            var exact := valuation * tokens * (P - c.premium) * baseUnits;
            var deducted := RedeemDeduction(tokens, valuation, baseUnits, c);
            exact - 2 * (P * P) * baseUnits - P * P * P <= deducted * (P * P * P) <= exact
  {
    var n, x := PreciseMul(valuation, tokens), RedeemOutflow(tokens, valuation, c);
    RedeemOutflowBounds(tokens, valuation, c);
    PreciseMulBounds(valuation, tokens);
    PremiumComplement(n, c.premium);
    PreciseMulBounds(n, PRECISE_UNIT - c.premium);
    PreciseMulBounds(x, baseUnits);
    ThreeFloors(PRECISE_UNIT, valuation * tokens, PRECISE_UNIT - c.premium, baseUnits, n, x,
                RedeemDeduction(tokens, valuation, baseUnits, c));
  }

  lemma ThreeFloors(P: int, value: int, r: int, b: int, n: int, x: int, d: int)
    requires 0 <= r <= P && b >= 0 && P > 0
    requires n * P <= value < n * P + P
    requires x * P <= n * r < x * P + P
    requires d * P <= x * b < d * P + P
    ensures value * r * b - 2 * (P * P) * b - P * P * P <= d * (P * P * P) <= value * r * b
  {
    TwoFloors(P, value, r, n, x);
    ScaledFloor(P, value * r, b, x, d);
  }

  lemma TwoFloors(P: int, value: int, r: int, n: int, x: int)
    requires 0 <= r <= P && P > 0
    requires n * P <= value < n * P + P
    requires x * P <= n * r < x * P + P
    ensures x * (P * P) <= value * r <= x * (P * P) + 2 * (P * P)
  {
    FirstFloor(P, value, r, n);
    ScaledRemainder(P, P, n * r, x);
  }

  lemma FirstFloor(P: int, value: int, r: int, n: int)
    requires 0 <= r <= P && n * P <= value < n * P + P
    ensures (n * r) * P <= value * r <= (n * r) * P + P * P
  {
    ScaledRemainder(r, P, value, n);
    Mul3(n, r, P);
    MulMono(r, P, P);
  }

  lemma ScaledFloor(P: int, y: int, b: int, x: int, d: int)
    requires P > 0 && b >= 0
    requires x * (P * P) <= y <= x * (P * P) + 2 * (P * P)
    requires d * P <= x * b < d * P + P
    ensures y * b - 2 * (P * P) * b - P * P * P <= d * (P * P * P) <= y * b
  {
    var S := P * P;
    assert S >= 0;
    ScaledEnds(S, y, b, x);
    ScaledRemainder(S, P, x * b, d);
  }

  lemma ScaledEnds(S: int, y: int, b: int, x: int)
    requires b >= 0 && x * S <= y <= x * S + 2 * S
    ensures (x * b) * S <= y * b <= (x * b) * S + 2 * S * b
  {
  }

  lemma ScaledRemainder(S: int, P: int, z: int, d: int)
    requires S >= 0 && d * P <= z < d * P + P
    ensures d * (S * P) <= z * S <= d * (S * P) + S * P
  {
  }

  /** Taking the premium rounded up leaves the complementary share rounded down. */
  lemma PremiumComplement(n: int, premium: int)
    requires n >= 0 && 0 <= premium <= PRECISE_UNIT
    ensures n - PreciseMulCeil(n, premium) == PreciseMul(n, PRECISE_UNIT - premium)
  {
    var k := n - PreciseMulCeil(n, premium);
    PreciseMulCeilAdjoint(n, premium, n - k);
    PreciseMulCeilAdjoint(n, premium, n - k - 1);
    PreciseMulAdjoint(n, PRECISE_UNIT - premium, k);
    PreciseMulAdjoint(n, PRECISE_UNIT - premium, k + 1);
    MulDistributes(PRECISE_UNIT, premium, n);
  }

  /** Both fee floors can step at once, so a larger quantity can net one less, and no more than that. */
  lemma PostFeeNearlyMonotone(x: int, y: int, c: Charges)
    requires 0 <= x <= y && InRange(c)
    ensures PostFee(x, c) <= PostFee(y, c) + 1
  {
    PreciseMulBounds(x, c.managerFee);
    PreciseMulBounds(y, c.managerFee);
    PreciseMulBounds(x, c.protocolFee);
    PreciseMulBounds(y, c.protocolFee);
    MulDistributes(y, x, c.managerFee);
    MulDistributes(y, x, c.protocolFee);
    MulDistributes(c.managerFee, c.protocolFee, y - x);
    MulMono(c.managerFee + c.protocolFee, PRECISE_UNIT, y - x);
  }

  /** Redeeming more tokens pays no less, up to one 18-decimal unit of the reserve rounded up to base
      units: one base unit whenever the reserve has at most 18 decimals. */
  lemma RedeemingMorePaysNoLess(tokens: int, moreTokens: int, valuation: int, baseUnits: int, c: Charges)
    requires 0 <= tokens <= moreTokens && valuation >= 0 && baseUnits >= 0 && InRange(c)
    ensures ReserveRedeemQuantity(tokens, valuation, baseUnits, c)
         <= ReserveRedeemQuantity(moreTokens, valuation, baseUnits, c) + CeilDiv(baseUnits, PRECISE_UNIT)
    ensures 0 < baseUnits <= PRECISE_UNIT ==> CeilDiv(baseUnits, PRECISE_UNIT) == 1
  {
    var n, n' := PreciseMul(valuation, tokens), PreciseMul(valuation, moreTokens);
    PreciseMulMono(tokens, moreTokens, valuation);
    PreciseMulBounds(valuation, tokens);
    var x, x' := RedeemOutflow(tokens, valuation, c), RedeemOutflow(moreTokens, valuation, c);
    PremiumComplement(n, c.premium);
    PremiumComplement(n', c.premium);
    PreciseMulMono(n, n', PRECISE_UNIT - c.premium);
    RedeemOutflowBounds(tokens, valuation, c);
    PostFeeNearlyMonotone(x, x', c);
    PostFeeBounds(x, c);
    PostFeeBounds(x', c);
    var y, y' := PostFee(x, c), PostFee(x', c);
    PreciseMulBounds(y, baseUnits);
    PreciseMulBounds(y', baseUnits);
    MulMono(y, y' + 1, baseUnits);
    MulDistributes(y', 1, baseUnits);
    CeilAdjoint(baseUnits, PRECISE_UNIT, CeilDiv(baseUnits, PRECISE_UNIT));
    CeilAdjoint(baseUnits, PRECISE_UNIT, 1);
    CeilAdjoint(baseUnits, PRECISE_UNIT, 0);
  }

  // ---------------------------------------------------------------------------------------------
  // When redeeming more never pays less
  // ---------------------------------------------------------------------------------------------

  ghost predicate RedeemMonotone(baseUnits: int, c: Charges) {
    forall valuation, tokens, moreTokens :: valuation >= 0 && 0 <= tokens <= moreTokens ==>
      ReserveRedeemQuantity(tokens, valuation, baseUnits, c)
      <= ReserveRedeemQuantity(moreTokens, valuation, baseUnits, c)
  }

  /** Outflow x pays less than x - 1: both fees step up at x, and the one unit they cost together reaches
      a whole base unit. */
  predicate Dip(x: int, baseUnits: int, c: Charges) {
    && x > 0
    && (x * c.managerFee) % PRECISE_UNIT < c.managerFee
    && (x * c.protocolFee) % PRECISE_UNIT < c.protocolFee
    && (PostFee(x, c) * baseUnits) % PRECISE_UNIT + baseUnits >= PRECISE_UNIT
  }

  /** What an outflow pays the redeemer. */
  function Payout(x: int, baseUnits: int, c: Charges): int {
    PreciseMul(PostFee(x, c), baseUnits)
  }

  /** A fee steps up at x exactly when the remainder there is below the fee. */
  lemma FeeStep(x: int, fee: int)
    requires x > 0 && 0 <= fee <= PRECISE_UNIT
    ensures PreciseMul(x, fee) == PreciseMul(x - 1, fee) + if (x * fee) % PRECISE_UNIT < fee then 1 else 0
  {
    assert (x - 1) * fee == x * fee - fee >= 0 by { MulMono(0, x - 1, fee); }
  }

  /** One unit more crosses a base unit exactly when it reaches the next multiple of the scale. */
  lemma BaseUnitStep(y: int, baseUnits: int)
    requires y >= 0 && baseUnits >= 0
    ensures PreciseMul(y, baseUnits) < PreciseMul(y + 1, baseUnits) <==>
            (y * baseUnits) % PRECISE_UNIT + baseUnits >= PRECISE_UNIT
  {
    MulMono(0, y, baseUnits);
    MulDistributes(y, 1, baseUnits);
  }

  lemma PayoutDipsExactly(x: int, baseUnits: int, c: Charges)
    requires x > 0 && baseUnits >= 0 && InRange(c)
    ensures Payout(x - 1, baseUnits, c) > Payout(x, baseUnits, c) <==> Dip(x, baseUnits, c)
  {
    FeeStep(x, c.managerFee);
    FeeStep(x, c.protocolFee);
    PostFeeBounds(x - 1, c);
    PostFeeBounds(x, c);
    var before, after := PostFee(x - 1, c), PostFee(x, c);
    if before == after + 1 {
      BaseUnitStep(after, baseUnits);
    } else {
      assert before <= after;
      PreciseMulMono(before, after, baseUnits);
    }
  }

  /** The form for two calls: where one call takes out x and another one unit less, the smaller one pays
      more if and only if x is a dip. */
  lemma RedeemDipsExactly(tokens: int, fewerTokens: int, valuation: int, baseUnits: int, c: Charges)
    requires tokens >= 0 && fewerTokens >= 0 && valuation >= 0 && baseUnits >= 0 && InRange(c)
    requires RedeemOutflow(fewerTokens, valuation, c) == RedeemOutflow(tokens, valuation, c) - 1
    ensures (ReserveRedeemQuantity(fewerTokens, valuation, baseUnits, c)
             > ReserveRedeemQuantity(tokens, valuation, baseUnits, c))
            <==> Dip(RedeemOutflow(tokens, valuation, c), baseUnits, c)
  {
    RedeemOutflowBounds(fewerTokens, valuation, c);
    PayoutDipsExactly(RedeemOutflow(tokens, valuation, c), baseUnits, c);
  }

  lemma {:induction false} PayoutMonotone(x: int, x': int, baseUnits: int, c: Charges)
    requires 0 <= x <= x' && baseUnits >= 0 && InRange(c)
    requires forall y :: !Dip(y, baseUnits, c)
    ensures Payout(x, baseUnits, c) <= Payout(x', baseUnits, c)
    decreases x'
  {
    if x < x' {
      PayoutMonotone(x, x' - 1, baseUnits, c);
      PayoutDipsExactly(x', baseUnits, c);
    }
  }

  /** At a valuation of one whole unit, tokens less the premium are the outflow. */
  lemma OutflowAtPar(n: int, x: int, c: Charges)
    requires n >= 0 && InRange(c)
    requires var net := n * (PRECISE_UNIT - c.premium); x * PRECISE_UNIT <= net < x * PRECISE_UNIT + PRECISE_UNIT
    ensures RedeemOutflow(n, PRECISE_UNIT, c) == x
  {
    PreciseMulBounds(PRECISE_UNIT, n);
    PremiumComplement(n, c.premium);
    PreciseMulBounds(n, PRECISE_UNIT - c.premium);
  }

  /** Every positive outflow is reached, right after the one below it. */
  lemma OutflowIsReached(x: int, c: Charges) returns (n: int)
    requires x > 0 && InRange(c) && c.premium < PRECISE_UNIT
    ensures n >= 1
    ensures RedeemOutflow(n, PRECISE_UNIT, c) == x && RedeemOutflow(n - 1, PRECISE_UNIT, c) == x - 1
  {
    var r := PRECISE_UNIT - c.premium;
    var scaled := x * PRECISE_UNIT;
    n := CeilDiv(scaled, r);
    CeilExact(scaled, r, n);
    CeilAdjoint(scaled, r, 0);
    MulDistributes(n, 1, r);
    OutflowAtPar(n, x, c);
    OutflowAtPar(n - 1, x - 1, c);
  }

  /** Plain monotonicity is false in general. For every reserve it holds exactly when the premium leaves
      nothing to pay out, or no outflow is a dip. */
  lemma RedeemMonotoneExactly(baseUnits: int, c: Charges)
    requires InRange(c) && baseUnits >= 0
    ensures RedeemMonotone(baseUnits, c) <==> c.premium == PRECISE_UNIT || forall x :: !Dip(x, baseUnits, c)
  {
    if c.premium == PRECISE_UNIT || forall x :: !Dip(x, baseUnits, c) {
      forall valuation, tokens, moreTokens | valuation >= 0 && 0 <= tokens <= moreTokens
        ensures ReserveRedeemQuantity(tokens, valuation, baseUnits, c)
             <= ReserveRedeemQuantity(moreTokens, valuation, baseUnits, c)
      {
        OutflowMonotone(tokens, moreTokens, valuation, c);
        var x, x' := RedeemOutflow(tokens, valuation, c), RedeemOutflow(moreTokens, valuation, c);
        if c.premium < PRECISE_UNIT { PayoutMonotone(x, x', baseUnits, c); }
      }
    } else {
      var x :| Dip(x, baseUnits, c);
      var n := OutflowIsReached(x, c);
      RedeemDipsExactly(n, n - 1, PRECISE_UNIT, baseUnits, c);
    }
  }

  lemma OutflowMonotone(tokens: int, moreTokens: int, valuation: int, c: Charges)
    requires 0 <= tokens <= moreTokens && valuation >= 0 && InRange(c)
    ensures 0 <= RedeemOutflow(tokens, valuation, c) <= RedeemOutflow(moreTokens, valuation, c)
    ensures c.premium == PRECISE_UNIT ==> RedeemOutflow(moreTokens, valuation, c) == 0
  {
    var n, n' := PreciseMul(valuation, tokens), PreciseMul(valuation, moreTokens);
    PreciseMulMono(tokens, moreTokens, valuation);
    PreciseMulBounds(valuation, tokens);
    PremiumComplement(n, c.premium);
    PremiumComplement(n', c.premium);
    PreciseMulMono(n, n', PRECISE_UNIT - c.premium);
    RedeemOutflowBounds(tokens, valuation, c);
  }

  /** Dips repeat with period P*P, so the condition is a finite check on the charges and the base units. */
  lemma DipsRepeat(x: int, baseUnits: int, c: Charges, k: nat)
    requires x > 0 && baseUnits >= 0 && InRange(c)
    ensures Dip(x + k * PRECISE_UNIT * PRECISE_UNIT, baseUnits, c) <==> Dip(x, baseUnits, c)
  {
    ShiftedFee(x, c.managerFee, k);
    ShiftedFee(x, c.protocolFee, k);
    ShiftedNet(x, c, k);
    ShiftedRemainder(PostFee(x, c), k * (PRECISE_UNIT - c.managerFee - c.protocolFee), baseUnits);
  }

  lemma ShiftedNet(x: int, c: Charges, k: nat)
    requires x > 0 && InRange(c)
    ensures PostFee(x + k * PRECISE_UNIT * PRECISE_UNIT, c)
         == PostFee(x, c) + k * (PRECISE_UNIT - c.managerFee - c.protocolFee) * PRECISE_UNIT
  {
    ShiftedFee(x, c.managerFee, k);
    ShiftedFee(x, c.protocolFee, k);
    MulDistributes(PRECISE_UNIT - c.managerFee, c.protocolFee, k);
    MulDistributes(PRECISE_UNIT, c.managerFee, k);
  }

  lemma ShiftedRemainder(y: int, m: int, b: int)
    ensures ((y + m * PRECISE_UNIT) * b) % PRECISE_UNIT == (y * b) % PRECISE_UNIT
  {
    assert (y + m * PRECISE_UNIT) * b == y * b + (m * b) * PRECISE_UNIT;
  }

  lemma ShiftedFee(x: int, fee: int, k: nat)
    requires x > 0 && fee >= 0
    ensures ((x + k * PRECISE_UNIT * PRECISE_UNIT) * fee) % PRECISE_UNIT == (x * fee) % PRECISE_UNIT
    ensures PreciseMul(x + k * PRECISE_UNIT * PRECISE_UNIT, fee) == PreciseMul(x, fee) + k * fee * PRECISE_UNIT
  {
    var shift := k * fee * PRECISE_UNIT;
    MulMono(0, x, fee);
    assert k * fee >= 0;
    assert (x + k * PRECISE_UNIT * PRECISE_UNIT) * fee == x * fee + shift * PRECISE_UNIT;
  }

  /** So one period of outflows decides. */
  lemma RedeemMonotoneCheckable(baseUnits: int, c: Charges)
    requires InRange(c) && baseUnits >= 0
    ensures RedeemMonotone(baseUnits, c) <==>
            c.premium == PRECISE_UNIT || forall x :: 0 < x <= PRECISE_UNIT * PRECISE_UNIT ==> !Dip(x, baseUnits, c)
  {
    RedeemMonotoneExactly(baseUnits, c);
    forall x | Dip(x, baseUnits, c)
      ensures exists y :: 0 < y <= PRECISE_UNIT * PRECISE_UNIT && Dip(y, baseUnits, c)
    {
      var y, k := ReducedOutflow(x, PRECISE_UNIT * PRECISE_UNIT);
      Mul3(k, PRECISE_UNIT, PRECISE_UNIT);
      DipsRepeat(y, baseUnits, c, k);
    }
  }

  lemma ReducedOutflow(x: int, period: int) returns (y: int, k: nat)
    requires x > 0 && period > 0
    ensures 0 < y <= period && x == y + k * period
  {
    FloorBounds(x - 1, period);
    FloorAdjoint(0, x - 1, period);
    k := (x - 1) / period;
    y := x - k * period;
  }

  /** A single kind of fee never dips; two kinds always do on a reserve of 18 decimals or more. */
  lemma ZeroFeeRedeemsMonotonely(baseUnits: int, c: Charges)
    requires InRange(c) && baseUnits >= 0
    ensures c.managerFee == 0 || c.protocolFee == 0 || c.premium == PRECISE_UNIT ==> RedeemMonotone(baseUnits, c)
    ensures baseUnits >= PRECISE_UNIT ==>
              (RedeemMonotone(baseUnits, c) <==> c.managerFee == 0 || c.protocolFee == 0 || c.premium == PRECISE_UNIT)
  {
    RedeemMonotoneExactly(baseUnits, c);
    if c.managerFee > 0 && c.protocolFee > 0 && baseUnits >= PRECISE_UNIT {
      assert Dip(PRECISE_UNIT, baseUnits, c);
    }
  }

  /** Six decimals, fees of 0.1% and 0.2%: a redemption that pays less than a smaller one exists. */
  lemma SixDecimalsDip()
    ensures var c := Charges(1_000_000_000_000_000, 2_000_000_000_000_000, 0);
            Dip(839_518_555_667_000, 1_000_000, c) && !RedeemMonotone(1_000_000, c)
  {
    var c := Charges(1_000_000_000_000_000, 2_000_000_000_000_000, 0);
    assert Dip(839_518_555_667_000, 1_000_000, c);
    RedeemMonotoneExactly(1_000_000, c);
  }

  // ---------------------------------------------------------------------------------------------
  // Position multiplier and position unit
  // ---------------------------------------------------------------------------------------------

  /** An issue never raises multiplier times supply and lowers it by less than S1*(m + P)/P. */
  lemma IssueMultiplierBounds(m: int, s0: int, s1: int)
    requires m >= 0 && 0 <= s0 <= s1 && s1 > 0
    ensures var m1 := IssuePositionMultiplier(m, s0, s1);
            && 0 <= m1 <= m && m1 * s1 <= m * s0
            && (m * s0 - m1 * s1) * PRECISE_UNIT < s1 * (m + PRECISE_UNIT)
  {
    var i := PreciseDivCeil(s1 - s0, s1);
    PreciseDivCeilBounds(s1 - s0, s1);
    PreciseDivCeilAdjoint(s1 - s0, s1, PRECISE_UNIT);
    var r := PRECISE_UNIT - i;
    MulDistributes(PRECISE_UNIT, i, s1);
    PreciseMulBounds(m, r);
    var m1 := PreciseMul(m, r);
    MulMono(r, PRECISE_UNIT, m);
    MultiplierProduct(PRECISE_UNIT, m, m1, r, s0, s1);
  }

  /** A redemption never raises multiplier times supply either, with the same bound on the loss. */
  lemma RedeemMultiplierBounds(m: int, s0: int, s1: int)
    requires m >= 0 && 0 < s1 <= s0
    ensures var m1 := RedeemPositionMultiplier(m, s0, s1);
            && m1 >= m && m1 * s1 <= m * s0
            && (m * s0 - m1 * s1) * PRECISE_UNIT < s1 * (m + PRECISE_UNIT)
  {
    var d := PreciseDiv(s0 - s1, s1);
    PreciseDivBounds(s0 - s1, s1);
    var r := PRECISE_UNIT + d;
    MulDistributes(PRECISE_UNIT, d, s1);
    PreciseMulBounds(m, r);
    var m1 := PreciseMul(m, r);
    PreciseMulAdjoint(m, r, m);
    MulMono(PRECISE_UNIT, r, m);
    MultiplierProduct(PRECISE_UNIT, m, m1, r, s0, s1);
  }

  lemma MultiplierProduct(P: int, m: int, m1: int, r: int, s0: int, s1: int)
    requires P > 0 && m >= 0 && s1 > 0
    requires m1 * P <= m * r < m1 * P + P
    requires r * s1 <= s0 * P < r * s1 + s1
    ensures m1 * s1 <= m * s0
    ensures (m * s0 - m1 * s1) * P < s1 * (m + P)
  {
    var x := m * r * s1;
    assert (m1 * s1) * P <= x <= (m1 * s1) * P + s1 * P - s1 by {
      MulMono(m1 * P, m * r, s1);
      MulMono(m * r, m1 * P + P - 1, s1);
      Mul3(m1, P, s1);
      MulDistributes(m1 * P, P - 1, s1);
    }
    assert x <= (m * s0) * P <= x + s1 * m by {
      MulMono(r * s1, s0 * P, m);
      MulMono(s0 * P, r * s1 + s1, m);
      Mul3(m, r, s1);
      Mul3(m, s0, P);
      MulDistributes(r * s1, s1, m);
    }
    MulCancel(m1 * s1, m * s0, P);
    MulDistributes(m, P, s1);
  }

  /** Multiplying by the position multiplier and dividing by it again rounds down, by less than
      (P + m)/m. */
  lemma MultiplierRoundTrip(unit: int, m: int)
    requires unit >= 0 && m > 0
    ensures var back := PreciseDiv(PreciseMul(unit, m), m);
            0 <= back <= unit && m * (unit - back) < PRECISE_UNIT + m
  {
    var v := PreciseMul(unit, m);
    PreciseMulBounds(unit, m);
    PreciseDivBounds(v, m);
    var back := PreciseDiv(v, m);
    MulCancel(back, unit, m);
    MulDistributes(unit, back, m);
  }

  /** u is what some stored unit reads as under the multiplier m. */
  ghost predicate Readable(u: int, m: int) {
    exists stored :: u * m <= stored * PRECISE_UNIT < u * m + m
  }

  /** Spreading a non-negative total over the supply and rounding for the multiplier never allots more
      than the total, and allots a unit that can be stored. */
  lemma SpreadIsCovered(numerator: int, supply: int, m: int)
    requires numerator >= 0 && supply > 0 && m > 0
    ensures var unit := PreciseDiv(PreciseMul(PreciseDiv(numerator, supply), m), m);
            && unit >= 0 && Readable(unit, m)
            && unit * supply <= PRECISE_UNIT * numerator
            && m * (PRECISE_UNIT * numerator - unit * supply) < supply * (PRECISE_UNIT + 2 * m)
  {
    var q := PreciseDiv(numerator, supply);
    PreciseDivBounds(numerator, supply);
    MultiplierRoundTrip(q, m);
    var unit := PreciseDiv(PreciseMul(q, m), m);
    PreciseMulBounds(q, m);
    PreciseDivBounds(PreciseMul(q, m), m);
    MulMono(unit, q, supply);
    SpreadLoss(numerator, supply, m, q, unit);
  }

  lemma SpreadLoss(numerator: int, supply: int, m: int, q: int, unit: int)
    requires supply > 0 && m > 0
    requires PRECISE_UNIT * numerator < q * supply + supply
    requires m * (q - unit) < PRECISE_UNIT + m
    ensures m * (PRECISE_UNIT * numerator - unit * supply) < supply * (PRECISE_UNIT + 2 * m)
  {
  }

  /** After an issue the new unit can be stored, is covered by the old position and the deposit net of fees,
      and leaves less of them unallotted than the three roundings account for. */
  lemma IssueUnitIsCovered(unit: int, quantity: int, s0: int, s1: int, m: int, c: Charges)
    requires unit >= 0 && quantity >= 0 && s0 >= 0 && s1 > 0 && m > 0 && InRange(c)
    ensures var u := IssuePositionUnit(unit, quantity, s0, s1, m, c);
            var total := unit * s0 + PRECISE_UNIT * PostFee(quantity, c);
            && u >= 0 && u * s1 <= total && Readable(u, m)
            && m * (total - u * s1) < s1 * (PRECISE_UNIT + 2 * m) + m * PRECISE_UNIT
  {
    PostFeeBounds(quantity, c);
    PreciseMulBounds(s0, unit);
    var numerator := PreciseMul(s0, unit) + PostFee(quantity, c);
    SpreadIsCovered(numerator, s1, m);
    var u := IssuePositionUnit(unit, quantity, s0, s1, m, c);
    RoundedTotal(unit * s0 + PRECISE_UNIT * PostFee(quantity, c), PRECISE_UNIT * numerator, u * s1, m);
  }

  lemma RoundedTotal(total: int, rounded: int, allotted: int, m: int)
    requires total < rounded + PRECISE_UNIT && m > 0
    ensures m * (total - allotted) <= m * (rounded - allotted) + m * PRECISE_UNIT
  {
  }

  /** After a redemption that leaves something to spread, the new unit can be stored and is covered by the old
      position less the deduction. */
  lemma RedeemUnitIsCovered(unit: int, tokens: int, valuation: int, baseUnits: int, s0: int, s1: int, m: int,
                            c: Charges)
    requires unit >= 0 && s0 >= 0 && s1 > 0 && m > 0
    requires RedeemNumerator(unit, tokens, valuation, baseUnits, s0, c) >= 0
    ensures var u := RedeemPositionUnit(unit, tokens, valuation, baseUnits, s0, s1, m, c);
            var total := unit * s0 - PRECISE_UNIT * RedeemDeduction(tokens, valuation, baseUnits, c);
            && u >= 0 && Readable(u, m)
            && u * s1 <= PRECISE_UNIT * RedeemNumerator(unit, tokens, valuation, baseUnits, s0, c)
            && u * s1 <= total
            && m * (total - u * s1) < s1 * (PRECISE_UNIT + 2 * m) + m * PRECISE_UNIT
  {
    PreciseMulBounds(s0, unit);
    var numerator := RedeemNumerator(unit, tokens, valuation, baseUnits, s0, c);
    SpreadIsCovered(numerator, s1, m);
    var u := RedeemPositionUnit(unit, tokens, valuation, baseUnits, s0, s1, m, c);
    RoundedTotal(unit * s0 - PRECISE_UNIT * RedeemDeduction(tokens, valuation, baseUnits, c),
                 PRECISE_UNIT * numerator, u * s1, m);
  }

  /** With too little recorded reserve the formula still answers, with a negative unit rounded toward
      zero. The cover above holds exactly when the numerator is not negative or nothing is rounded. */
  lemma RedeemUnitCoveredExactly(unit: int, tokens: int, valuation: int, baseUnits: int, s0: int, s1: int, m: int,
                                 c: Charges)
    requires s1 > 0 && m > 0
    ensures var n := RedeemNumerator(unit, tokens, valuation, baseUnits, s0, c);
            RedeemPositionUnit(unit, tokens, valuation, baseUnits, s0, s1, m, c) * s1 <= PRECISE_UNIT * n <==>
            n >= 0 || ((-n * PRECISE_UNIT) % s1 == 0 && ((-n * PRECISE_UNIT) / s1 * m) % PRECISE_UNIT == 0)
  {
    var n := RedeemNumerator(unit, tokens, valuation, baseUnits, s0, c);
    if n >= 0 {
      SpreadIsCovered(n, s1, m);
    } else {
      NegativeSpread(-n, s1, m);
    }
  }

  /** One wei of reserve recorded for one whole token, and two wei of it redeemed at par: the unit left is
      rounded up to less debt than there is. */
  lemma RedeemUnitUncovered()
    ensures var c := Charges(0, 0, 0);
            var n := RedeemNumerator(1, 2, PRECISE_UNIT, PRECISE_UNIT, PRECISE_UNIT, c);
            var left := PRECISE_UNIT - 2;
            && n == -1
            && RedeemPositionUnit(1, 2, PRECISE_UNIT, PRECISE_UNIT, PRECISE_UNIT, left, PRECISE_UNIT, c) * left
               > PRECISE_UNIT * n
  {
  }

  lemma NegatedConversions(x: int, m: int)
    requires x >= 0 && m > 0
    ensures PreciseMul(-x, m) == -PreciseMul(x, m) && PreciseDiv(-x, m) == -PreciseDiv(x, m)
  {
    NegatedProduct(x, m);
    MulMono(0, x, m);
  }

  lemma NegativeSpread(d: int, supply: int, m: int)
    requires d > 0 && supply > 0 && m > 0
    ensures PreciseDiv(PreciseMul(PreciseDiv(-d, supply), m), m) * supply <= PRECISE_UNIT * -d <==>
            (d * PRECISE_UNIT) % supply == 0 && ((d * PRECISE_UNIT) / supply * m) % PRECISE_UNIT == 0
  {
    var q := PreciseDiv(d, supply);
    PreciseDivBounds(d, supply);
    PreciseMulBounds(q, m);
    var v := PreciseMul(q, m);
    PreciseDivBounds(v, m);
    var back := PreciseDiv(v, m);
    NegatedConversions(d, supply);
    NegatedConversions(q, m);
    NegatedConversions(v, m);
    NegatedProduct(back, supply);
    MulCancel(back, q, m);
    MulMono(back, q, supply);
    DivisibleExactly(d * PRECISE_UNIT, supply);
    DivisibleExactly(q * m, PRECISE_UNIT);
    if back < q { MulMono(back + 1, q, supply); MulDistributes(back, 1, supply); }
    if v * PRECISE_UNIT == q * m { PreciseDivAdjoint(v, m, q); }
    if back == q { PreciseDivAdjoint(v, m, q); }
  }

  lemma DivisibleExactly(n: int, d: int)
    requires d > 0
    ensures n % d == 0 <==> (n / d) * d == n
  {
  }

  // ---------------------------------------------------------------------------------------------
  // What the formulas answer, from their arguments alone. Every intermediate amount is given by the inequality
  // that defines it, so each of these fixes a formula on all arguments named in it.
  // ---------------------------------------------------------------------------------------------

  /** What both fees leave, on all arguments. */
  lemma PostFeeExact(quantity: int, c: Charges, manager: int, protocol: int)
    requires Truncates(manager, quantity * c.managerFee, PRECISE_UNIT)
    requires Truncates(protocol, quantity * c.protocolFee, PRECISE_UNIT)
    ensures PostFee(quantity, c) == quantity - manager - protocol
  {
    PreciseMulExact(quantity, c.managerFee, manager);
    PreciseMulExact(quantity, c.protocolFee, protocol);
  }

  /** The premium charged on an issue is the greatest amount within its share of the deposit net of fees. */
  lemma IssuePremiumIsGreatest(quantity: int, c: Charges, k: int)
    requires PostFee(quantity, c) >= 0 && c.premium >= 0
    ensures k <= PostFee(quantity, c) - PostFeeAndPremium(quantity, c) <==>
            k * PRECISE_UNIT <= PostFee(quantity, c) * c.premium
  {
    PreciseMulAdjoint(PostFee(quantity, c), c.premium, k);
  }

  /** Both normalised amounts are the greatest that convert back to no more than the amount itself. */
  lemma NormalizedIsGreatest(quantity: int, baseUnits: int, c: Charges, k: int)
    requires quantity >= 0 && baseUnits > 0 && InRange(c)
    ensures k <= NormalizedDeposit(quantity, baseUnits, c) <==> k * baseUnits <= PostFee(quantity, c) * PRECISE_UNIT
    ensures k <= NormalizedCredit(quantity, baseUnits, c) <==>
            k * baseUnits <= PostFeeAndPremium(quantity, c) * PRECISE_UNIT
  {
    DepositBounds(quantity, baseUnits, c);
    PreciseDivAdjoint(PostFee(quantity, c), baseUnits, k);
    PreciseDivAdjoint(PostFeeAndPremium(quantity, c), baseUnits, k);
  }

  /** The amounts an issue is computed from: both fees, the premium, deposit and credit in 18 decimals, the
      valued assets, and the credit's share of the supply. */
  datatype IssueAmounts =
    IssueAmounts(manager: int, protocol: int, premium: int, deposit: int, credit: int, assets: int, share: int)

  predicate AreIssueAmounts(a: IssueAmounts, supply: int, valuation: int, baseUnits: int, quantity: int, c: Charges) {
    var net := quantity - a.manager - a.protocol;
    && Truncates(a.manager, quantity * c.managerFee, PRECISE_UNIT)
    && Truncates(a.protocol, quantity * c.protocolFee, PRECISE_UNIT)
    && Truncates(a.premium, net * c.premium, PRECISE_UNIT)
    && Truncates(a.deposit, net * PRECISE_UNIT, baseUnits)
    && Truncates(a.credit, (net - a.premium) * PRECISE_UNIT, baseUnits)
    && Truncates(a.assets, supply * valuation, PRECISE_UNIT)
    && Truncates(a.share, a.credit * supply, PRECISE_UNIT)
  }

  lemma IssueAmountsExist(supply: int, valuation: int, baseUnits: int, quantity: int, c: Charges)
    requires baseUnits != 0
    ensures exists a :: AreIssueAmounts(a, supply, valuation, baseUnits, quantity, c)
  {
    var manager, protocol := PreciseMul(quantity, c.managerFee), PreciseMul(quantity, c.protocolFee);
    var net := quantity - manager - protocol;
    var premium := PreciseMul(net, c.premium);
    var deposit, credit := PreciseDiv(net, baseUnits), PreciseDiv(net - premium, baseUnits);
    var assets, share := PreciseMul(supply, valuation), PreciseMul(credit, supply);
    PreciseMulExact(quantity, c.managerFee, manager);
    PreciseMulExact(quantity, c.protocolFee, protocol);
    PreciseMulExact(net, c.premium, premium);
    PreciseDivExact(net, baseUnits, deposit);
    PreciseDivExact(net - premium, baseUnits, credit);
    PreciseMulExact(supply, valuation, assets);
    PreciseMulExact(credit, supply, share);
    assert AreIssueAmounts(IssueAmounts(manager, protocol, premium, deposit, credit, assets, share),
                           supply, valuation, baseUnits, quantity, c);
  }

  /** The issue quantity on all arguments. Where nothing is negative it is the greatest number of tokens that
      the share covers. */
  lemma IssueQuantityExact(supply: int, valuation: int, baseUnits: int, quantity: int, c: Charges, k: int)
    requires baseUnits != 0
    ensures exists a :: AreIssueAmounts(a, supply, valuation, baseUnits, quantity, c)
    ensures forall a :: AreIssueAmounts(a, supply, valuation, baseUnits, quantity, c) ==>
              var divisor := a.assets + a.deposit - a.credit;
              && IssueDenominator(supply, valuation, baseUnits, quantity, c) == divisor
              && (divisor != 0 ==>
                    (k == IssueQuantity(supply, valuation, baseUnits, quantity, c) <==>
                     Truncates(k, a.share * PRECISE_UNIT, divisor)))
              && (divisor > 0 && a.share >= 0 ==>
                    (k <= IssueQuantity(supply, valuation, baseUnits, quantity, c) <==>
                     k * divisor <= a.share * PRECISE_UNIT))
  {
    IssueAmountsExist(supply, valuation, baseUnits, quantity, c);
    forall a | AreIssueAmounts(a, supply, valuation, baseUnits, quantity, c)
      ensures NormalizedCredit(quantity, baseUnits, c) == a.credit
      ensures IssueDenominator(supply, valuation, baseUnits, quantity, c) == a.assets + a.deposit - a.credit
      ensures PreciseMul(a.credit, supply) == a.share
    {
      var net := quantity - a.manager - a.protocol;
      PostFeeExact(quantity, c, a.manager, a.protocol);
      PreciseMulExact(net, c.premium, a.premium);
      PreciseDivExact(net, baseUnits, a.deposit);
      PreciseDivExact(net - a.premium, baseUnits, a.credit);
      PreciseMulExact(supply, valuation, a.assets);
      PreciseMulExact(a.credit, supply, a.share);
    }
    var divisor := IssueDenominator(supply, valuation, baseUnits, quantity, c);
    var share := PreciseMul(NormalizedCredit(quantity, baseUnits, c), supply);
    if divisor != 0 { PreciseDivExact(share, divisor, k); }
    if divisor > 0 && share >= 0 { PreciseDivAdjoint(share, divisor, k); }
  }

  /** On all arguments both unit formulas spread a total over the supply, store the share under the
      multiplier and read it back. */
  predicate IsSpread(u: int, total: int, supply: int, m: int, share: int, stored: int) {
    && Truncates(share, total * PRECISE_UNIT, supply)
    && Truncates(stored, share * m, PRECISE_UNIT)
    && Truncates(u, stored * PRECISE_UNIT, m)
  }

  lemma SpreadExact(total: int, supply: int, m: int, share: int, stored: int, u: int)
    requires supply != 0 && m != 0 && IsSpread(u, total, supply, m, share, stored)
    ensures PreciseDiv(PreciseMul(PreciseDiv(total, supply), m), m) == u
  {
    PreciseDivExact(total, supply, share);
    PreciseMulExact(share, m, stored);
    PreciseDivExact(stored, m, u);
  }

  /** Both fees, what all tokens held before, and the two amounts of the spread. */
  datatype UnitAmounts = UnitAmounts(manager: int, protocol: int, held: int, share: int, stored: int)

  predicate AreUnitAmounts(a: UnitAmounts, u: int, unit: int, quantity: int, s0: int, s1: int, m: int, c: Charges) {
    && Truncates(a.manager, quantity * c.managerFee, PRECISE_UNIT)
    && Truncates(a.protocol, quantity * c.protocolFee, PRECISE_UNIT)
    && Truncates(a.held, s0 * unit, PRECISE_UNIT)
    && IsSpread(u, a.held + (quantity - a.manager - a.protocol), s1, m, a.share, a.stored)
  }

  lemma SpreadExists(total: int, supply: int, m: int) returns (u: int, share: int, stored: int)
    requires supply != 0 && m != 0
    ensures IsSpread(u, total, supply, m, share, stored)
  {
    share := PreciseDiv(total, supply);
    stored := PreciseMul(share, m);
    u := PreciseDiv(stored, m);
    PreciseDivExact(total, supply, share);
    PreciseMulExact(share, m, stored);
    PreciseDivExact(stored, m, u);
  }

  lemma UnitAmountsExist(unit: int, quantity: int, s0: int, s1: int, m: int, c: Charges)
    requires s1 != 0 && m != 0
    ensures exists a, u :: AreUnitAmounts(a, u, unit, quantity, s0, s1, m, c)
  {
    var manager, protocol := PreciseMul(quantity, c.managerFee), PreciseMul(quantity, c.protocolFee);
    var held := PreciseMul(s0, unit);
    PreciseMulExact(quantity, c.managerFee, manager);
    PreciseMulExact(quantity, c.protocolFee, protocol);
    PreciseMulExact(s0, unit, held);
    var u, share, stored := SpreadExists(held + (quantity - manager - protocol), s1, m);
    assert AreUnitAmounts(UnitAmounts(manager, protocol, held, share, stored), u, unit, quantity, s0, s1, m, c);
  }

  lemma IssuePositionUnitExact(unit: int, quantity: int, s0: int, s1: int, m: int, c: Charges)
    requires s1 != 0 && m != 0
    ensures exists a, u :: AreUnitAmounts(a, u, unit, quantity, s0, s1, m, c)
    ensures forall a, u :: AreUnitAmounts(a, u, unit, quantity, s0, s1, m, c) ==>
              IssuePositionUnit(unit, quantity, s0, s1, m, c) == u
  {
    UnitAmountsExist(unit, quantity, s0, s1, m, c);
    forall a, u | AreUnitAmounts(a, u, unit, quantity, s0, s1, m, c)
      ensures IssuePositionUnit(unit, quantity, s0, s1, m, c) == u
    {
      PostFeeExact(quantity, c, a.manager, a.protocol);
      PreciseMulExact(s0, unit, a.held);
      SpreadExact(a.held + (quantity - a.manager - a.protocol), s1, m, a.share, a.stored, u);
    }
  }

  /** x is what the premium leaves of the notional, rounded down. */
  predicate IsOutflow(x: int, notional: int, c: Charges) {
    x * PRECISE_UNIT <= notional * (PRECISE_UNIT - c.premium) < x * PRECISE_UNIT + PRECISE_UNIT
  }

  /** The outflow of a redemption at any valuation. */
  lemma RedeemOutflowExact(tokens: int, valuation: int, c: Charges, notional: int, x: int)
    requires tokens >= 0 && valuation >= 0 && c.premium >= 0
    requires Truncates(notional, valuation * tokens, PRECISE_UNIT)
    requires IsOutflow(x, notional, c)
    ensures RedeemOutflow(tokens, valuation, c) == x
  {
    PreciseMulExact(valuation, tokens, notional);
    PreciseMulBounds(valuation, tokens);
    PreciseMulCeilBounds(notional, c.premium);
    MulDistributes(PRECISE_UNIT, c.premium, notional);
    var y := notional - PreciseMulCeil(notional, c.premium);
    FloorExact(notional * (PRECISE_UNIT - c.premium), PRECISE_UNIT, x);
    FloorExact(notional * (PRECISE_UNIT - c.premium), PRECISE_UNIT, y);
  }

  /** What a redemption pays and what it deducts, at any valuation and with any base units. */
  lemma RedeemQuantityExact(tokens: int, valuation: int, baseUnits: int, c: Charges,
                            notional: int, x: int, manager: int, protocol: int, k: int)
    requires tokens >= 0 && valuation >= 0 && c.premium >= 0
    requires Truncates(notional, valuation * tokens, PRECISE_UNIT)
    requires IsOutflow(x, notional, c)
    requires Truncates(manager, x * c.managerFee, PRECISE_UNIT)
    requires Truncates(protocol, x * c.protocolFee, PRECISE_UNIT)
    ensures k == ReserveRedeemQuantity(tokens, valuation, baseUnits, c) <==>
            Truncates(k, (x - manager - protocol) * baseUnits, PRECISE_UNIT)
    ensures k == RedeemDeduction(tokens, valuation, baseUnits, c) <==> Truncates(k, x * baseUnits, PRECISE_UNIT)
  {
    RedeemOutflowExact(tokens, valuation, c, notional, x);
    PostFeeExact(x, c, manager, protocol);
    PreciseMulExact(x - manager - protocol, baseUnits, k);
    PreciseMulExact(x, baseUnits, k);
  }

  /** The tokens' value, the outflow, the deduction, what all tokens held before, and the two amounts of the
      spread. */
  datatype RedeemAmounts =
    RedeemAmounts(notional: int, outflow: int, deducted: int, held: int, share: int, stored: int)

  predicate AreRedeemAmounts(a: RedeemAmounts, u: int, unit: int, tokens: int, valuation: int, baseUnits: int,
                             s0: int, s1: int, m: int, c: Charges)
  {
    && Truncates(a.notional, valuation * tokens, PRECISE_UNIT)
    && IsOutflow(a.outflow, a.notional, c)
    && Truncates(a.deducted, a.outflow * baseUnits, PRECISE_UNIT)
    && Truncates(a.held, s0 * unit, PRECISE_UNIT)
    && IsSpread(u, a.held - a.deducted, s1, m, a.share, a.stored)
  }

  lemma RedeemAmountsExist(unit: int, tokens: int, valuation: int, baseUnits: int, s0: int, s1: int, m: int,
                           c: Charges)
    requires s1 != 0 && m != 0
    ensures exists a, u :: AreRedeemAmounts(a, u, unit, tokens, valuation, baseUnits, s0, s1, m, c)
  {
    var notional, held := PreciseMul(valuation, tokens), PreciseMul(s0, unit);
    var outflow := notional * (PRECISE_UNIT - c.premium) / PRECISE_UNIT;
    var deducted := PreciseMul(outflow, baseUnits);
    PreciseMulExact(valuation, tokens, notional);
    PreciseMulExact(s0, unit, held);
    FloorBounds(notional * (PRECISE_UNIT - c.premium), PRECISE_UNIT);
    PreciseMulExact(outflow, baseUnits, deducted);
    var u, share, stored := SpreadExists(held - deducted, s1, m);
    assert AreRedeemAmounts(RedeemAmounts(notional, outflow, deducted, held, share, stored),
                            u, unit, tokens, valuation, baseUnits, s0, s1, m, c);
  }

  lemma RedeemPositionUnitExact(unit: int, tokens: int, valuation: int, baseUnits: int, s0: int, s1: int, m: int,
                                c: Charges)
    requires tokens >= 0 && valuation >= 0 && c.premium >= 0 && s1 != 0 && m != 0
    ensures exists a, u :: AreRedeemAmounts(a, u, unit, tokens, valuation, baseUnits, s0, s1, m, c)
    ensures forall a, u :: AreRedeemAmounts(a, u, unit, tokens, valuation, baseUnits, s0, s1, m, c) ==>
              RedeemPositionUnit(unit, tokens, valuation, baseUnits, s0, s1, m, c) == u
  {
    RedeemAmountsExist(unit, tokens, valuation, baseUnits, s0, s1, m, c);
    forall a, u | AreRedeemAmounts(a, u, unit, tokens, valuation, baseUnits, s0, s1, m, c)
      ensures RedeemPositionUnit(unit, tokens, valuation, baseUnits, s0, s1, m, c) == u
    {
      RedeemOutflowExact(tokens, valuation, c, a.notional, a.outflow);
      PreciseMulExact(a.outflow, baseUnits, a.deducted);
      PreciseMulExact(s0, unit, a.held);
      SpreadExact(a.held - a.deducted, s1, m, a.share, a.stored, u);
    }
  }

  /** Spreading a non-negative total, without intermediate amounts: a unit is granted exactly when a stored
      unit can pay for it that an even share of the total pays for in turn. */
  lemma SpreadIsGreatest(total: int, supply: int, m: int, k: int)
    requires total >= 0 && supply > 0 && m > 0
    ensures k <= PreciseDiv(PreciseMul(PreciseDiv(total, supply), m), m) <==>
            exists share, stored :: k * m <= stored * PRECISE_UNIT && stored * PRECISE_UNIT <= share * m
                                    && share * supply <= total * PRECISE_UNIT
  {
    var share := PreciseDiv(total, supply);
    PreciseDivBounds(total, supply);
    var stored := PreciseMul(share, m);
    PreciseMulBounds(share, m);
    PreciseDivAdjoint(stored, m, k);
    if exists q, v :: k * m <= v * PRECISE_UNIT && v * PRECISE_UNIT <= q * m && q * supply <= total * PRECISE_UNIT {
      var q, v :| k * m <= v * PRECISE_UNIT && v * PRECISE_UNIT <= q * m && q * supply <= total * PRECISE_UNIT;
      PreciseDivAdjoint(total, supply, q);
      MulMono(q, share, m);
      PreciseMulAdjoint(share, m, v);
      MulMono(v, stored, PRECISE_UNIT);
    }
  }

  /** Issue and redemption move the multiplier by one and the same rule: times the ratio of the supplies,
      rounded down to 18 decimals, and rounded again. */
  lemma MultipliersExact(m: int, s0: int, s1: int, ratio: int, m1: int)
    requires s0 >= 0 && s1 > 0
    requires ratio * s1 <= s0 * PRECISE_UNIT < ratio * s1 + s1
    ensures s0 <= s1 ==> (m1 == IssuePositionMultiplier(m, s0, s1) <==> Truncates(m1, m * ratio, PRECISE_UNIT))
    ensures s1 <= s0 ==> (m1 == RedeemPositionMultiplier(m, s0, s1) <==> Truncates(m1, m * ratio, PRECISE_UNIT))
  {
    PreciseMulExact(m, ratio, m1);
    FloorExact(s0 * PRECISE_UNIT, s1, ratio);
    if s0 <= s1 {
      var inflation := PreciseDivCeil(s1 - s0, s1);
      PreciseDivCeilBounds(s1 - s0, s1);
      MulDistributes(PRECISE_UNIT, inflation, s1);
      FloorExact(s0 * PRECISE_UNIT, s1, PRECISE_UNIT - inflation);
    }
    if s1 <= s0 {
      var deflation := PreciseDiv(s0 - s1, s1);
      PreciseDivBounds(s0 - s1, s1);
      MulDistributes(PRECISE_UNIT, deflation, s1);
      FloorExact(s0 * PRECISE_UNIT, s1, PRECISE_UNIT + deflation);
    }
  }

  /** A supply of nothing is answered without a division: the multiplier stays. */
  lemma EmptySupplyKeepsMultiplier(m: int, s0: int)
    ensures IssuePositionMultiplier(m, s0, 0) == m
  {
    WholeUnitIsNeutral(m);
  }
}
