# Cook Protocol: verified accounting formulas and snapshot cache

This project models the TypeScript part of Cook Protocol that carries logic, and proves what it is relied on for:

- **18-decimal fixed point** (`MathUtils.dfy`): every rounding of `mathUtils.ts`, characterised for all integers.
- **Streaming fees** (`FeeModule.dfy`): the fee of an interval, the inflation that pays it, the cut of every
  position, and whole schedules and runs of accruals.
- **Issuing and redeeming at net asset value** (`NavIssuance.dfy`), and runs of both on one fund (`NavFund.dfy`).
- **Liquidity pools** (`Uniswap.dfy`): the Newton square root, minting, claims on reserves, rebalancing; and what
  the file's bare comparisons of BigNumbers really decide (`RawComparison.dfy`).
- **Position units** (`PositionEdits.dfy`): units that follow balances, and real units stored as virtual units.
- **The nested snapshot cache** (`ChainModel.dfy`, `BlockchainUtils.dfy`, `SnapshotCache.dfy`,
  `SnapshotCacheProof.dfy`, `MisplacedGuards.dfy`, `TestingUtils.dfy`, `Runner.dfy`, `Sandbox.dfy`): `cacheBeforeEach` and
  `addSnapshotBeforeRestoreAfterEach`, freely mixed and driven by a test runner over arbitrary trees of suites.

`dafny verify dfyconfig.toml` checks everything.

## How the model is put together

*Arithmetic.* BigNumbers are unbounded, so they are `int`. `.div` truncates toward zero (`Arithmetic.TruncDiv`).
Where the original throws on a zero divisor the function has a precondition; where it answers zero instead
(`preciseDivCeil`, `preciseDivCeilInt`) so does the model. Values read from contracts (supply, valuation, reserves,
fee state) are arguments. The three percentages of an issue or redemption travel together as `Charges`.

*What a formula answers.* Beside the results about what a formula is for, each formula has a lemma that fixes its
answer from its arguments alone (`...Exact`): every intermediate amount is given by the inequality of its rounding,
`Truncates(q, n, d)` for a truncated quotient and `RoundsAway` for one rounded away from zero, and not by the function
that computes it. Where a chain of roundings has a description without intermediate amounts, that is proved too
(`SpreadIsGreatest`, `TokensInReserveAreGreatest`, `ConversionIsGreatest`).

*Bare comparisons.* `uniswapUtils.ts` writes `<`, `>`, `==` and `!=` between BigNumber objects (lines 18, 111, 149,
151, 155, 166). `Uniswap.dfy` assumes that numbers are compared. `RawComparison.dfy` models the file as written, where
`<` and `>` compare decimal strings and `==` and `!=` compare object identity, so that line 18 never takes the
first-mint branch for a freshly read supply and line 155 takes its branch for zero too. It proves exactly when that
agrees with the numbers. The test in line 111 always does. `min` does under a digit condition, which is also the exact
condition under which a deposit, or a whole run of deposits, costs earlier shares nothing. `sqrt` answers the root for
the values from one to nine and for no others, although its loop always ends and never divides by zero. The first mint
is never computed from a root at all: it throws on an empty reserve.

*Redeeming more.* The redeem quantity is not monotone in the tokens redeemed: where both fees step up at once, one
unit more can pay less. `NavIssuance.Dip` says at which outflows, `RedeemMonotoneExactly` that these are the only
failures, for every reserve.

*Snapshots.* `evm_snapshot` hands out increasing identifiers; `evm_revert` restores a live snapshot and discards it
and all later ones, and on a dead identifier changes nothing and answers false, an answer the client ignores.
Identifiers are numbers instead of hexadecimal strings. Initialisers and ordinary `beforeEach` hooks are functions on
the chain state. A test body is an arbitrary change of state that may leave snapshots of its own behind and does not
touch earlier ones. The runner follows Mocha: outer hooks before inner ones, a suite's own tests before its children,
`after` hooks on leaving a suite. Closures are created when a suite is entered instead of when its block is declared;
nothing reads them in between. The `afterEach` halves of guards run innermost first. Mocha runs those of one suite in
order of registration instead; `ChainModel.RevertOrderIsImmaterial` says that reverting to the same live snapshots in
any order leads to the same chain.

The cache is proved in two layers. First the identifiers are forgotten: under the discipline of live, strictly
increasing identifiers, the stack is a stack of chain states. Then the flags of the enclosing hooks determine which
states those are. A guard (`addSnapshotBeforeRestoreAfterEach`) outside a cached hook takes that hook's snapshot away
when it reverts, so that the entries of the hooks inside it are dead; the next test that needs one has its revert
refused. `SnapshotCache.Misplaced` describes the trees in which that happens: two tests share a cached hook inside a
guard. The cache fails in those and in no others. Failing means that a revert is refused; effects can be so chosen that
no harm comes of it. `MisplacedGuards.dfy` therefore says where the test that fails starts from, for all effects, and
that whether all trees of a given shape start their bodies right depends on just this placement of guards.

The classes of `TestingUtils.dfy` and the methods of `Runner.dfy` are proved to do exactly what the functions of
`SnapshotCache.dfy` say, so the result holds for the objects too.

*Runs.* `NavFund.Step` applies the formulas of one issue or redemption to a fund. Its fields `balance` and `worth`
are bookkeeping of what the original moves, not fields of the original: a deposit net of fees comes in, the payout and
both fees go out, and the premium stays.

## Functions and what they model

- `MathUtils.PreciseMul`, `PreciseMulCeil`, `PreciseMulCeilInt`, `PreciseDiv`, `PreciseDivCeil`, `PreciseDivCeilInt`,
  `DivDown`, `Min`: `cook-protocol-contracts/utils/common/mathUtils.ts:5-68`
- `FeeModule.StreamingFee`, `InflationAmount`, `PostFeeUnit`: `cook-protocol-contracts/utils/common/feeModuleUtils.ts:8-45`
- `NavIssuance.IssuePositionMultiplier`, `IssueQuantity`, `IssuePositionUnit`, `PostFeeQuantity`, `ReserveRedeemQuantity`,
  `RedeemPositionMultiplier`, `RedeemPositionUnit`: `cook-protocol-contracts/utils/common/navIssuanceModuleUtils.ts:7-145`
- `Uniswap.LiquidityFor`, `EngageQuantities`, `RebalanceQuantity`, `TokensInReserve`:
  `cook-protocol-contracts/utils/common/uniswapUtils.ts:9-133`
- `ChainModel.TakeSnapshot`, `RevertTo`: the requests sent in `cook-protocol-contracts/utils/common/blockchainUtils.ts:13-26`
- `RawComparison.RawLess`, `RawMin`, `RawSqrtOf`, `RawLiquidity`, `RawDeposit`:
  `cook-protocol-contracts/utils/common/uniswapUtils.ts:9-28` and `145-167` as written
- `SnapshotCache.BeforeEach`, `AfterEach`, `After`: the hooks of `cook-protocol-contracts/utils/test/testingUtils.ts:29-65`
- `BlockchainUtils.Blockchain.Reset`: `cook-protocol-contracts/utils/common/blockchainUtils.ts:28-30`

## Model

| member | source | states |
|---|---|---|
| Arithmetic.TruncDivExact | cook-protocol-contracts/utils/common/mathUtils.ts:6 | BigNumber division: the only quotient whose remainder is smaller than the divisor and never of the opposite sign to the dividend, for all signs |
| MathUtils.PreciseMulExact | cook-protocol-contracts/utils/common/mathUtils.ts:5-7 | for all signs preciseMul truncates the scaled product toward zero |
| MathUtils.PreciseDivExact | cook-protocol-contracts/utils/common/mathUtils.ts:29-31 | for all signs preciseDiv truncates the scaled quotient toward zero |
| MathUtils.WholeUnitIsNeutral | cook-protocol-contracts/utils/common/mathUtils.ts:5-31 | 10¹⁸ is the neutral factor and divisor |
| MathUtils.CeilingsOfZero | cook-protocol-contracts/utils/common/mathUtils.ts:9-51 | every ceiling form answers zero on a zero operand, a zero divisor included |
| MathUtils.PreciseMulAdjoint | cook-protocol-contracts/utils/common/mathUtils.ts:5-7 | on non-negative operands preciseMul is the greatest k with k·P ≤ x·m |
| MathUtils.PreciseDivAdjoint | cook-protocol-contracts/utils/common/mathUtils.ts:29-31 | preciseDiv is the greatest k with k·m ≤ x·P |
| MathUtils.PreciseMulCeilAdjoint | cook-protocol-contracts/utils/common/mathUtils.ts:9-15 | preciseMulCeil is the least k with x·m ≤ k·P |
| MathUtils.PreciseDivCeilAdjoint | cook-protocol-contracts/utils/common/mathUtils.ts:33-39 | preciseDivCeil is the least k with x·P ≤ k·m |
| MathUtils.FloorCeilAdjoint | cook-protocol-contracts/utils/common/mathUtils.ts:5-39 | preciseMulCeil(x,m) ≤ k iff x ≤ preciseDiv(k,m), and preciseDivCeil(k,m) ≤ x iff k ≤ preciseMul(x,m) |
| MathUtils.TripleConversionIsSingle | cook-protocol-contracts/utils/common/mathUtils.ts:5-39 | converting with one form, back with its adjoint and forth again equals converting once, for all four forms |
| MathUtils.DivDownIsFloor | cook-protocol-contracts/utils/common/mathUtils.ts:53-61 | divDown is the mathematical floor of a/b for every a and every non-zero b |
| MathUtils.PreciseMulCeilIntRoundsAway | cook-protocol-contracts/utils/common/mathUtils.ts:17-27 | preciseMulCeilInt rounds the exact product away from zero for every pair of signs |
| MathUtils.PreciseDivCeilIntExact | cook-protocol-contracts/utils/common/mathUtils.ts:41-51 | the result for every pair of signs: the quotient rounded away from zero, and with a negative divisor further away by one for each of the scaled dividend and the number after it that the divisor divides |
| MathUtils.PreciseDivCeilIntOvershoots | cook-protocol-contracts/utils/common/mathUtils.ts:41-51 | a concrete negative divisor for which the result is two too far from zero |
| MathUtils.PreciseMulCeilExact | cook-protocol-contracts/utils/common/mathUtils.ts:9-15 | preciseMulCeil is the ceiling exactly when the product is non-negative or one more than a multiple of P, and otherwise one too high |
| MathUtils.PreciseDivCeilExact | cook-protocol-contracts/utils/common/mathUtils.ts:33-39 | the result for every pair of signs as the ceiling and an excess, and for which operands the excess is nothing |
| MathUtils.CeilsMissOnNegatives | cook-protocol-contracts/utils/common/mathUtils.ts:9-39 | concrete negative operands for which each of the two is not the ceiling |
| MathUtils.MinIsGreatestLowerBound | cook-protocol-contracts/utils/common/mathUtils.ts:63-68 | min is the greatest number not above either operand |
| FeeModule.PostFeePositionUnits | cook-protocol-contracts/utils/common/feeModuleUtils.ts:32-45 | the loop cuts every unit, in order: an asset is truncated, a debt rounded away from zero, each stated by its inequality |
| FeeModule.PostFeeUnitExact | cook-protocol-contracts/utils/common/feeModuleUtils.ts:38-42 | on all arguments only that cut is the one the formula gives |
| FeeModule.DebtIsLeast | cook-protocol-contracts/utils/common/feeModuleUtils.ts:41 | a cut debt is the least that is still worth its share |
| FeeModule.FeeIsProRata | cook-protocol-contracts/utils/common/feeModuleUtils.ts:8-20 | the fee is the percentage in force, explicit or stored, pro rata of the elapsed time, rounded down |
| FeeModule.StreamingFeeExact | cook-protocol-contracts/utils/common/feeModuleUtils.ts:15-19 | on all arguments the fee is elapsed time times the rate in force, over 31 557 600 seconds, truncated |
| FeeModule.YearlyFee | cook-protocol-contracts/utils/common/feeModuleUtils.ts:18-19 | 365 days and 6 hours cost exactly the yearly percentage |
| FeeModule.InflationExact | cook-protocol-contracts/utils/common/feeModuleUtils.ts:22-30 | on all arguments the inflation is p·supply/(P − p), truncated |
| FeeModule.InflationIsFairShare | cook-protocol-contracts/utils/common/feeModuleUtils.ts:22-30 | the minted inflation is the greatest amount whose share of the enlarged supply is within the fee percentage |
| FeeModule.TwoAccrualsMintNoMore | cook-protocol-contracts/utils/common/feeModuleUtils.ts:22-30 | two accruals end at or below one accrual of the summed percentage, floors included |
| FeeModule.OneIntervalAccrues | cook-protocol-contracts/utils/common/feeModuleUtils.ts:18-30 | what one interval of a schedule does to the supply, from its times and the rate alone |
| FeeModule.SplittingMintsNoMore | cook-protocol-contracts/utils/common/feeModuleUtils.ts:18-30 | accruing at every time of a schedule ends at or below one accrual over the whole span, with no slack |
| FeeModule.RefiningMintsNoMore | cook-protocol-contracts/utils/common/feeModuleUtils.ts:18-30 | of two schedules over the same span, the one that accrues more often mints no more |
| FeeModule.AccrualKeepsAssetBacked | cook-protocol-contracts/utils/common/feeModuleUtils.ts:22-45 | new unit times new supply never exceeds old unit times old supply, and loses less than old unit plus new supply |
| FeeModule.AccrualKeepsDebt | cook-protocol-contracts/utils/common/feeModuleUtils.ts:22-45 | a debt stays a debt; over all tokens it is understated by strictly less than one old unit and overstated by less than one per token |
| FeeModule.AccrualRunKeepsPositions | cook-protocol-contracts/utils/common/feeModuleUtils.ts:22-45 | over any run of accruals and every position: backing and its loss, the understatement and the overstatement of debt, all bounded |
| FeeModule.TwoCutsCostOne | cook-protocol-contracts/utils/common/feeModuleUtils.ts:32-45 | two cuts leave at least one cut of the summed percentage less one |
| FeeModule.ManyAccrualsCostLittle | cook-protocol-contracts/utils/common/feeModuleUtils.ts:32-45 | n accruals leave each asset unit at least what one accrual of the sum leaves, less n − 1 |
| NavIssuance.PostFeeExact | cook-protocol-contracts/utils/common/navIssuanceModuleUtils.ts:77-86 | on all arguments both fees are truncated and taken off |
| NavIssuance.IssuePremiumIsGreatest | cook-protocol-contracts/utils/common/navIssuanceModuleUtils.ts:38-40 | the premium of an issue is the greatest amount within its share of the deposit net of fees |
| NavIssuance.NormalizedIsGreatest | cook-protocol-contracts/utils/common/navIssuanceModuleUtils.ts:42-43 | deposit and credit in 18 decimals are the greatest that convert back to no more than the amounts |
| NavIssuance.IssueQuantityExact | cook-protocol-contracts/utils/common/navIssuanceModuleUtils.ts:19-50 | on all arguments the issue quantity, every intermediate amount given by its inequality; where nothing is negative the greatest k with k·(assets + deposit − credit) ≤ P·share |
| NavIssuance.IssueDilutesNobody | cook-protocol-contracts/utils/common/navIssuanceModuleUtils.ts:19-50 | I·(M+nf) ≤ nfp·(S+I) and S·(M+nf) ≥ M·(S+I) despite the nested floors; the issuer loses less than P plus the denominator; what is withheld from the credit is the premium up to two roundings |
| NavIssuance.IssueKeepsWorth | cook-protocol-contracts/utils/common/navIssuanceModuleUtils.ts:19-50 | whatever the assets are worth, an issue moves worth per token by at most the valuation's error times the tokens issued |
| NavIssuance.RoundTripNeverProfits | cook-protocol-contracts/utils/common/navIssuanceModuleUtils.ts:19-107 | redeeming just issued tokens, at any valuation the fund can bear and under any charges, returns at most the deposit net of its own fees and premium |
| NavIssuance.RedeemOutflowExact | cook-protocol-contracts/utils/common/navIssuanceModuleUtils.ts:96-98 | at every valuation the outflow is the truncated notional times the complement of the premium, rounded down |
| NavIssuance.RedeemQuantityExact | cook-protocol-contracts/utils/common/navIssuanceModuleUtils.ts:88-107 | at every valuation and with any base units, what a redemption pays and what it deducts |
| NavIssuance.DeductionIsProRata | cook-protocol-contracts/utils/common/navIssuanceModuleUtils.ts:133-137 | the deduction is valuation·tokens·(P − premium)·baseUnits over P³, short by less than its three roundings |
| NavIssuance.RedemptionAccountsAgree | cook-protocol-contracts/utils/common/navIssuanceModuleUtils.ts:77-137 | payout and both fees in base units never exceed the deduction from the position and fall short by at most two |
| NavIssuance.PremiumComplement | cook-protocol-contracts/utils/common/navIssuanceModuleUtils.ts:96-101 | taking the premium rounded up leaves the complementary share rounded down |
| NavIssuance.PostFeeNearlyMonotone | cook-protocol-contracts/utils/common/navIssuanceModuleUtils.ts:77-86 | a larger quantity nets at most one less after both fees |
| NavIssuance.RedeemingMorePaysNoLess | cook-protocol-contracts/utils/common/navIssuanceModuleUtils.ts:77-107 | the redeem quantity is monotone up to one 18-decimal unit, which is one base unit for reserves of at most 18 decimals |
| NavIssuance.RedeemDipsExactly | cook-protocol-contracts/utils/common/navIssuanceModuleUtils.ts:77-107 | redeeming for one unit of outflow less pays more iff both fees step up there and the unit they cost reaches a whole base unit |
| NavIssuance.RedeemMonotoneExactly | cook-protocol-contracts/utils/common/navIssuanceModuleUtils.ts:77-107 | for every reserve, whatever its decimals, the redeem quantity is monotone iff the premium is 100% or no outflow is such a dip |
| NavIssuance.RedeemMonotoneCheckable | cook-protocol-contracts/utils/common/navIssuanceModuleUtils.ts:77-107 | the outflows of one period P² decide, so the condition is a finite check on fees and base units |
| NavIssuance.ZeroFeeRedeemsMonotonely | cook-protocol-contracts/utils/common/navIssuanceModuleUtils.ts:77-107 | with one kind of fee it is monotone; for 18 decimals or more, only then or at a premium of 100% |
| NavIssuance.SixDecimalsDip | cook-protocol-contracts/utils/common/navIssuanceModuleUtils.ts:77-107 | a six-decimal reserve with fees of 0.1% and 0.2% on which it is not monotone |
| NavIssuance.MultipliersExact | cook-protocol-contracts/utils/common/navIssuanceModuleUtils.ts:7-119 | issue and redemption move the multiplier by one rule: times the ratio of the supplies rounded down, and truncated |
| NavIssuance.EmptySupplyKeepsMultiplier | cook-protocol-contracts/utils/common/navIssuanceModuleUtils.ts:13-16 | a new supply of zero leaves the multiplier alone |
| NavIssuance.IssueMultiplierBounds | cook-protocol-contracts/utils/common/navIssuanceModuleUtils.ts:7-17 | an issue never raises multiplier times supply and loses less than S1·(m+P)/P |
| NavIssuance.RedeemMultiplierBounds | cook-protocol-contracts/utils/common/navIssuanceModuleUtils.ts:109-119 | the same for a redemption, whose multiplier never falls |
| NavIssuance.MultiplierRoundTrip | cook-protocol-contracts/utils/common/navIssuanceModuleUtils.ts:72-74 | multiplying and dividing by the multiplier never raises a unit and loses δ with m·δ < P + m |
| NavIssuance.SpreadIsCovered | cook-protocol-contracts/utils/common/navIssuanceModuleUtils.ts:68-75 | spreading a non-negative total never allots more than it, allots a unit that can be stored, and leaves less over than its roundings |
| NavIssuance.SpreadIsGreatest | cook-protocol-contracts/utils/common/navIssuanceModuleUtils.ts:68-75 | a unit is granted iff a stored unit pays for it that an even share of the total pays for in turn |
| NavIssuance.IssuePositionUnitExact | cook-protocol-contracts/utils/common/navIssuanceModuleUtils.ts:52-75 | on all arguments the unit after an issue, every intermediate amount given by its inequality |
| NavIssuance.RedeemPositionUnitExact | cook-protocol-contracts/utils/common/navIssuanceModuleUtils.ts:121-145 | the same for the unit after a redemption, at every valuation and for either sign of the numerator |
| NavIssuance.IssueUnitIsCovered | cook-protocol-contracts/utils/common/navIssuanceModuleUtils.ts:52-75 | the new unit can be stored, and over the new supply stays within old position plus net deposit, tightly |
| NavIssuance.RedeemUnitIsCovered | cook-protocol-contracts/utils/common/navIssuanceModuleUtils.ts:121-145 | with a non-negative numerator the new unit can be stored, and over the new supply stays within old position less deduction, tightly |
| NavIssuance.RedeemUnitCoveredExactly | cook-protocol-contracts/utils/common/navIssuanceModuleUtils.ts:121-145 | for every numerator, that cover holds iff the numerator is non-negative or nothing is rounded |
| NavIssuance.RedeemUnitUncovered | cook-protocol-contracts/utils/common/navIssuanceModuleUtils.ts:121-145 | a concrete negative numerator for which the new units claim more than is there |
| NavFund.StepKeepsCovered | cook-protocol-contracts/utils/common/navIssuanceModuleUtils.ts:7-145 | one issue or redemption neither shrinks the surplus of holdings over recorded units nor grows multiplier times supply, and moves both by no more than its roundings |
| NavFund.StepMovesTogether | cook-protocol-contracts/utils/common/navIssuanceModuleUtils.ts:19-137 | supply, balance and worth move together: by what the fees leave of a deposit, or by the value of the tokens less the premium |
| NavFund.RunKeepsCovered | cook-protocol-contracts/utils/common/navIssuanceModuleUtils.ts:7-145 | the same over any run; a covered fund stays covered, and returning to a supply never raises the multiplier |
| NavFund.FairRunKeepsWorth | cook-protocol-contracts/utils/common/navIssuanceModuleUtils.ts:19-107 | over any fairly valued run worth per token never falls, and a run that restores the supply takes out no more than it put in |
| Uniswap.Sqrt | cook-protocol-contracts/utils/common/uniswapUtils.ts:145-160 | Newton's loop terminates without dividing by zero and returns z with z² ≤ value < (z+1)², and 1 on negative input |
| Uniswap.SqrtUnique | cook-protocol-contracts/utils/common/uniswapUtils.ts:145-160 | the integer square root is unique, so the loop computes the reference |
| Uniswap.NewtonStaysAbove | cook-protocol-contracts/utils/common/uniswapUtils.ts:153 | a Newton step from any positive point lands at or above the root |
| Uniswap.CalculateLPTokensIssued | cook-protocol-contracts/utils/common/uniswapUtils.ts:9-28 | the first mint is the exact root of the product less the locked minimum, a later one the specified minimum |
| Uniswap.FirstMintExact | cook-protocol-contracts/utils/common/uniswapUtils.ts:8-19 | the first mint is a thousand less than the integer root of the product, and −999 for a negative product |
| Uniswap.LaterMintExact | cook-protocol-contracts/utils/common/uniswapUtils.ts:21-24 | on all arguments a later mint is the smaller of the two truncated proportions |
| Uniswap.LiquidityIsProportionate | cook-protocol-contracts/utils/common/uniswapUtils.ts:21-24 | later liquidity is the greatest amount proportionate to both deposits |
| Uniswap.DepositsKeepShares | cook-protocol-contracts/utils/common/uniswapUtils.ts:9-28 | from any funded pool a run of deposits adds exactly what is deposited to the reserves, lowers neither reserve per share and keeps supply² ≤ reserve0·reserve1 |
| Uniswap.MintingRunIsSound | cook-protocol-contracts/utils/common/uniswapUtils.ts:8-28 | both from the first mint on, with the locked minimum in the supply |
| Uniswap.TokensInReserveExact | cook-protocol-contracts/utils/common/uniswapUtils.ts:125-132 | on all arguments both sides: the reserve per share, truncated, times the balance, truncated |
| Uniswap.TokensInReserveAreGreatest | cook-protocol-contracts/utils/common/uniswapUtils.ts:125-132 | each side is the greatest amount that some payout per share, affordable for every share at once, brings the holder |
| Uniswap.ClaimBounds | cook-protocol-contracts/utils/common/uniswapUtils.ts:129-132 | a claim never exceeds the share of the reserve and falls short by less than 1 + balance/P |
| Uniswap.ClaimsNeverExceedReserve | cook-protocol-contracts/utils/common/uniswapUtils.ts:125-132 | for any holders with balances within the supply, the claims add up to at most the reserve, and to no less than their share but for the roundings |
| Uniswap.DepositClaims | cook-protocol-contracts/utils/common/uniswapUtils.ts:9-133 | a deposit can claim at most what was put in, and lowers no earlier holder's claim, which stays a share of both reserves |
| Uniswap.EngageQuantitiesExact | cook-protocol-contracts/utils/common/uniswapUtils.ts:30-55 | on all arguments both quantities, from the pool and the balances alone |
| Uniswap.EngageHitsTarget | cook-protocol-contracts/utils/common/uniswapUtils.ts:48-54 | moving the quantity leaves the reserve with its complementary percentage of everything held, to within one unit |
| Uniswap.RebalanceExact | cook-protocol-contracts/utils/common/uniswapUtils.ts:93-115 | on all arguments quantity and direction: half the excess value, truncated, converted where asset two is sold, or the override |
| Uniswap.RebalanceBalances | cook-protocol-contracts/utils/common/uniswapUtils.ts:93-115 | the quantity is affordable and selling it at the quoted price evens out the two values, to within 1 or 3 + 2P/price |
| Uniswap.OverrideStaysOnSide | cook-protocol-contracts/utils/common/uniswapUtils.ts:93-115 | an override keeps the direction; selling asset one it stays on this side of the balance point iff it is at most the computed quantity, selling asset two if it is, and only if it exceeds it by less than 1 + 3·price/2P |
| RawComparison.RawLessExact | cook-protocol-contracts/utils/common/uniswapUtils.ts:149-166 | the bare comparison cuts the longer number to the length of the shorter, a tie going to the shorter |
| RawComparison.RawMinExact | cook-protocol-contracts/utils/common/uniswapUtils.ts:162-167 | min as written is the smaller iff the digit counts agree or the smaller is within the leading digits of the larger, and otherwise the larger |
| RawComparison.RawDepositExact | cook-protocol-contracts/utils/common/uniswapUtils.ts:21-24 | for every funded pool and deposit, the mint as written costs no earlier share anything iff the digits agree, and iff it equals the numeric mint |
| RawComparison.RawRunExact | cook-protocol-contracts/utils/common/uniswapUtils.ts:21-24 | over any run no deposit as written dilutes iff the digits agree all along, and then the run is the numeric one |
| RawComparison.RawMinDilutes | cook-protocol-contracts/utils/common/uniswapUtils.ts:21-24 | a concrete deposit whose digits do not agree and which dilutes |
| RawComparison.RawPositiveExact | cook-protocol-contracts/utils/common/uniswapUtils.ts:111 | the bare test against zero is right for every integer |
| RawComparison.RawSqrt | cook-protocol-contracts/utils/common/uniswapUtils.ts:145-160 | as written the loop of sqrt ends, never divides by zero, and computes the function the next rows are about |
| RawComparison.RawSqrtExact | cook-protocol-contracts/utils/common/uniswapUtils.ts:145-160 | as written sqrt answers the root iff the value is from one to nine; for a longer value it answers one, or a number as long as the value, according to the leading digit |
| RawComparison.RawSqrtIsFirstStop | cook-protocol-contracts/utils/common/uniswapUtils.ts:150-154 | behind the guard the answer is the first Newton candidate whose successor is not less as written |
| RawComparison.RawSqrtMisses | cook-protocol-contracts/utils/common/uniswapUtils.ts:145-160 | the values from 30 to 35, for which it answers half the value plus one |
| RawComparison.RawLiquidityExact | cook-protocol-contracts/utils/common/uniswapUtils.ts:9-28 | as written calculateLPTokensIssued throws iff a reserve is empty, is right on a funded pool iff the digits agree, and on a first mint only where both reserves are there and the root is the locked minimum |
| PositionEdits.EditKeepsSurplus | cook-protocol-contracts/test/protocol/lib/position.spec.ts:733-749 | one edit moves the surplus of holdings over units up by less than one unit per token, never down |
| PositionEdits.EditsStayCollateralised | cook-protocol-contracts/test/protocol/lib/position.spec.ts:733-749 | over any run of balances at fixed supply a collateralised position stays collateralised |
| PositionEdits.EditRoundTrip | cook-protocol-contracts/test/protocol/lib/position.spec.ts:733-749 | moving a balance away and back never raises the unit and lowers it by at most one |
| PositionEdits.ConversionIsGreatest | cook-protocol-contracts/test/protocol/ckToken.spec.ts:617-618 | the unit read back is the greatest that some stored unit pays for which the real unit pays for in turn |
| PositionEdits.ConversionIsConservative | cook-protocol-contracts/test/protocol/ckToken.spec.ts:617-618 | a unit read back from storage never exceeds the unit stored, for assets and debts, and is short by less than 1 + m/P |
| PositionEdits.ConversionIsExactIff | cook-protocol-contracts/test/protocol/ckToken.spec.ts:617-618 | it reads back unchanged iff the multiplier divides its scaled value |
| BlockchainUtils.Blockchain.constructor | cook-protocol-contracts/utils/common/blockchainUtils.ts:7-11 | the client keeps the provider and starts with snapshot slot zero |
| BlockchainUtils.Blockchain.SaveSnapshot | cook-protocol-contracts/utils/common/blockchainUtils.ts:13-18 | takes a snapshot, returns its identifier and remembers it |
| BlockchainUtils.Blockchain.Revert | cook-protocol-contracts/utils/common/blockchainUtils.ts:20-22 | reverts to the remembered identifier |
| BlockchainUtils.Blockchain.RevertById | cook-protocol-contracts/utils/common/blockchainUtils.ts:24-26 | reverts to a given identifier and leaves the slot alone |
| BlockchainUtils.ResetExactly | cook-protocol-contracts/utils/common/blockchainUtils.ts:13-30 | whatever clients did since, a reset returns to the first snapshot if nobody has reverted to it before, and otherwise does nothing |
| BlockchainUtils.SnapshotThenRevert | cook-protocol-contracts/utils/common/blockchainUtils.ts:13-26 | snapshot, anything that keeps earlier snapshots, revert: the state and exactly the live snapshots come back |
| ChainModel.RevertOrderIsImmaterial | cook-protocol-contracts/utils/common/blockchainUtils.ts:20-22 | reverting to several live snapshots in any order comes to reverting to the earliest |
| Sandbox.SandboxRestores | cook-protocol-contracts/utils/test/testingUtils.ts:29-38 | nested guards leave the chain as the hooks outside the outermost one left it, with the snapshots live before, whatever body and inner hooks did; an unguarded test leaks |
| TestingUtils.SnapshotGuard.BeforeEach | cook-protocol-contracts/utils/test/testingUtils.ts:31-33 | saves a snapshot in the closure's own slot |
| TestingUtils.SnapshotGuard.AfterEach | cook-protocol-contracts/utils/test/testingUtils.ts:35-37 | reverts to the slot's snapshot |
| SnapshotCacheProof.RestoreDenotes | cook-protocol-contracts/utils/test/testingUtils.ts:55-57 | restoring reverts to a live identifier, puts the chain into the top state, and keeps the stack's meaning |
| SnapshotCacheProof.RunTestComposes | cook-protocol-contracts/utils/test/testingUtils.ts:29-59 | with no dead entry a test starts from the composition of all its hooks on the anchor state, whatever the chain had become; the stack keeps its meaning and gains what was uninitialised, dead exactly inside a guard |
| SnapshotCacheProof.RunTestRan | cook-protocol-contracts/utils/test/testingUtils.ts:29-59 | in any reachable state a test faults iff a cached hook inside a guard has been initialised before it |
| SnapshotCacheProof.AfterAllPops | cook-protocol-contracts/utils/test/testingUtils.ts:61-65 | the after hooks pop one identifier for each initialised hook |
| SnapshotCacheProof.RunSuiteAgrees | cook-protocol-contracts/utils/test/testingUtils.ts:29-66 | at any depth and from any reachable point a suite faults iff a guard is misplaced around or in it, and otherwise agrees with the reference and re-establishes the invariant |
| SnapshotCacheProof.LeavingRestoresStack | cook-protocol-contracts/utils/test/testingUtils.ts:49-65 | leaving a suite restores the stack's length and the states it denotes, including suites whose hooks never ran |
| SnapshotCacheProof.CacheRefinesReinitialisation | cook-protocol-contracts/utils/test/testingUtils.ts:29-66 | for every tree and every test body: a pop or revert fails iff a guard lies outside a cached hook that two tests share; otherwise every body starts where re-initialisation would start it, every initialiser with a test runs once, SNAPSHOTS is left as found |
| SnapshotCacheProof.UnguardedIsNotMisplaced | cook-protocol-contracts/utils/test/testingUtils.ts:43-66 | without guards the cache never fails |
| MisplacedGuards.FaultyTestStarts | cook-protocol-contracts/utils/test/testingUtils.ts:29-59 | where a test whose revert is refused starts from, for all hooks and bodies: from where the outermost guard put the chain, without the effects of initialised hooks |
| MisplacedGuards.GuardOutsideCacheLeavesUninitialised | cook-protocol-contracts/utils/test/testingUtils.ts:29-66 | of two tests below a guard and a cached hook inside it the second starts without the hook's effect, for every body and effect |
| MisplacedGuards.CountingTreeAgreesExactly | cook-protocol-contracts/utils/test/testingUtils.ts:29-66 | in a tree whose cached hooks each count one, whatever the bodies do, every body starts where the reference starts it iff no guard is misplaced |
| MisplacedGuards.SafeExactlyWhenNotMisplaced | cook-protocol-contracts/utils/test/testingUtils.ts:29-66 | a shape of tree agrees with the reference for all effects and bodies iff it misplaces no guard |
| SnapshotCacheProof.EveryTestStartsFresh | cook-protocol-contracts/utils/test/testingUtils.ts:29-66 | with a cached hook at the root and no misplaced guard every body starts from its enclosing hooks applied to the state at entry, whatever the bodies do |
| TestingUtils.SnapshotStack.Pop | cook-protocol-contracts/utils/test/testingUtils.ts:43-63 | popping takes the last identifier, or nothing from an empty array |
| TestingUtils.CacheHook.BeforeEach | cook-protocol-contracts/utils/test/testingUtils.ts:49-59 | the closure's beforeEach does exactly what the specification function says to chain, array and flag |
| TestingUtils.CacheHook.After | cook-protocol-contracts/utils/test/testingUtils.ts:61-65 | so does its after hook |
| Runner.RunOne | cook-protocol-contracts/utils/test/testingUtils.ts:29-59 | running a test with the closures around it refines the specification function |
| Runner.RunDescribe | cook-protocol-contracts/utils/test/testingUtils.ts:29-66 | so does running a suite, at any depth |
| Runner.RunAll | cook-protocol-contracts/utils/test/testingUtils.ts:29-66 | a whole run in a new process faults iff a guard is misplaced; otherwise it meets both results above and ends with SNAPSHOTS empty |

## Left out

- The Solidity contracts, deployments, fixtures and typings: only the TypeScript formulas and test helpers are modelled.
- RPC transport, promises, block time and mining: values read from contracts are arguments, and waiting is not modelled.
- `calculateRebalanceFlows` and `getReservesSafe`: a call into a foreign router, and an ordering of addresses.
- Variables that initialisers assign in their closures: the cache is about chain state, as are the tests' anchors.
- Hooks that throw: a failing initialiser would leave its flag unset, which is not part of this model.
- Unit, hexadecimal and address helpers, and compiler set-up tasks: they would only add easy members.
