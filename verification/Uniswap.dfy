/** utils/common/uniswapUtils.ts: liquidity minting, claims on reserves and rebalancing. BigNumbers are
    compared as numbers here; RawComparison says when the comparisons as written agree. */
module Uniswap {
  import opened Arithmetic
  import opened MathUtils

  const MINIMUM_LIQUIDITY: int := 1000

  // ---------------------------------------------------------------------------------------------
  // Square root
  // ---------------------------------------------------------------------------------------------

  /** z is the integer square root of v. */
  predicate IsSqrt(z: int, v: int) {
    0 <= z && z * z <= v < (z + 1) * (z + 1)
  }

  /** Reference: the square root counted up one value at a time. */
  function FloorSqrt(v: nat): (z: nat)
    ensures IsSqrt(z, v)
  {
    if v == 0 then 0
    else
      var r := FloorSqrt(v - 1);
      if (r + 1) * (r + 1) <= v then
        assert (r + 2) * (r + 2) > v;
        r + 1
      else r
  }

  lemma SqrtUnique(y: int, z: int, v: int)
    requires IsSqrt(y, v) && IsSqrt(z, v)
    ensures y == z
  {
    if y < z { SquareMono(y + 1, z); }
    if z < y { SquareMono(z + 1, y); }
  }

  lemma SquareMono(a: int, b: int)
    requires 0 <= a <= b
    ensures a * a <= b * b
  {
    MulMono(a, b, a);
    MulMono(a, b, b);
  }

  /** What the original's square root answers: one on every negative input. */
  function SqrtOf(value: int): int {
    if value < 0 then 1 else FloorSqrt(value)
  }

  /** Newton's step never falls below the root. */
  lemma NewtonStaysAbove(v: int, z: int)
    requires v >= 0 && z > 0
    ensures var x := (v / z + z) / 2; x >= 0 && v < (x + 1) * (x + 1)
  {
    var q := v / z;
    FloorBounds(v, z);
    FloorAdjoint(0, v, z);
    MulDistributes(q, 1, z);
    MeanBound(q + 1, z, (q + z) / 2 + 1);
  }

  /** Once a step no longer goes down, z is not above the root. */
  lemma NewtonStops(v: int, z: int)
    requires v >= 0 && z > 0 && (v / z + z) / 2 >= z
    ensures z * z <= v
  {
    FloorAdjoint(z, v, z);
  }

  lemma AboveOne(v: int, x: int)
    requires v > 3 && x >= 0 && v < (x + 1) * (x + 1)
    ensures x >= 2
  {
    if x <= 1 { MulMono(x + 1, 2, x + 1); }
  }

  /** The product of two numbers is at most the square of their mean. */
  lemma MeanBound(a: int, b: int, w: int)
    requires a >= 0 && b >= 0 && a + b <= 2 * w
    ensures a * b <= w * w
  {
  }

  /** Newton's method from above: exact, terminating, and never dividing by zero. */
  method Sqrt(value: int) returns (z: int)
    ensures value >= 0 ==> IsSqrt(z, value)
    ensures z == SqrtOf(value)
  {
    z := value;
    if value > 3 {
      var x := value / 2 + 1;
      StartAbove(value);
      while x < z
        invariant 2 <= x && 2 <= z
        invariant value < (x + 1) * (x + 1) && value < (z + 1) * (z + 1)
        invariant (z == value && x == value / 2 + 1) || x == (value / z + z) / 2
        decreases z
      {
        z := x;
        NewtonStaysAbove(value, x);
        x := (value / x + x) / 2;
        AboveOne(value, x);
      }
      NewtonStops(value, z);
    } else if value != 0 {
      z := 1;
    }
    if value >= 0 { RootIsSqrtOf(z, value); }
  }

  lemma RootIsSqrtOf(z: int, value: int)
    requires value >= 0 && IsSqrt(z, value)
    ensures z == SqrtOf(value)
  {
    SqrtUnique(z, FloorSqrt(value), value);
  }

  lemma StartAbove(value: int)
    requires value > 3
    ensures value < (value / 2 + 2) * (value / 2 + 2) && value < (value + 1) * (value + 1)
  {
  }

  // ---------------------------------------------------------------------------------------------
  // Liquidity
  // ---------------------------------------------------------------------------------------------

  datatype Pool = Pool(reserve0: int, reserve1: int, totalSupply: int)

  /** Liquidity for a deposit; a pool with shares but an empty reserve makes the original throw. */
  function LiquidityFor(pool: Pool, amountOne: int, amountTwo: int): int
    requires pool.totalSupply != 0 ==> pool.reserve0 != 0 && pool.reserve1 != 0
  {
    if pool.totalSupply == 0 then SqrtOf(amountOne * amountTwo) - MINIMUM_LIQUIDITY
    else Min(TruncDiv(amountOne * pool.totalSupply, pool.reserve0),
             TruncDiv(amountTwo * pool.totalSupply, pool.reserve1))
  }

  method CalculateLPTokensIssued(pool: Pool, amountOne: int, amountTwo: int) returns (liquidity: int)
    requires pool.totalSupply != 0 ==> pool.reserve0 != 0 && pool.reserve1 != 0
    ensures liquidity == LiquidityFor(pool, amountOne, amountTwo)
    ensures pool.totalSupply == 0 && amountOne * amountTwo >= 0 ==>
              IsSqrt(liquidity + 1000, amountOne * amountTwo)
  {
    if pool.totalSupply == 0 {
      liquidity := Sqrt(amountOne * amountTwo);
      liquidity := liquidity - MINIMUM_LIQUIDITY;
    } else {
      liquidity := Min(
        TruncDiv(amountOne * pool.totalSupply, pool.reserve0),
        TruncDiv(amountTwo * pool.totalSupply, pool.reserve1)
      );
    }
  }

  /** The first mint from its arguments alone: the root less a thousand. A negative product is answered as if
      its root were one. */
  lemma FirstMintExact(pool: Pool, amountOne: int, amountTwo: int, root: int)
    requires pool.totalSupply == 0
    ensures amountOne * amountTwo >= 0 ==>
              (root - 1000 == LiquidityFor(pool, amountOne, amountTwo) <==> IsSqrt(root, amountOne * amountTwo))
    ensures amountOne * amountTwo < 0 ==> LiquidityFor(pool, amountOne, amountTwo) == 1 - 1000
  {
    if amountOne * amountTwo >= 0 && IsSqrt(root, amountOne * amountTwo) { RootIsSqrtOf(root, amountOne * amountTwo); }
  }

  /** A later mint on all arguments: the smaller of the two truncated proportions. */
  lemma LaterMintExact(pool: Pool, amountOne: int, amountTwo: int, l0: int, l1: int)
    requires pool.totalSupply != 0 && pool.reserve0 != 0 && pool.reserve1 != 0
    requires Truncates(l0, amountOne * pool.totalSupply, pool.reserve0)
    requires Truncates(l1, amountTwo * pool.totalSupply, pool.reserve1)
    ensures LiquidityFor(pool, amountOne, amountTwo) == if l0 <= l1 then l0 else l1
  {
    TruncDivExact(amountOne * pool.totalSupply, pool.reserve0, l0);
    TruncDivExact(amountTwo * pool.totalSupply, pool.reserve1, l1);
  }

  predicate Funded(pool: Pool) {
    pool.reserve0 > 0 && pool.reserve1 > 0 && pool.totalSupply > 0
  }

  /** The pool after its first deposit; the locked minimum counts toward the supply. */
  function FirstMint(amountOne: int, amountTwo: int): Pool {
    Pool(amountOne, amountTwo, LiquidityFor(Pool(0, 0, 0), amountOne, amountTwo) + MINIMUM_LIQUIDITY)
  }

  function Deposit(pool: Pool, amountOne: int, amountTwo: int): Pool
    requires Funded(pool)
  {
    Pool(pool.reserve0 + amountOne, pool.reserve1 + amountTwo,
         pool.totalSupply + LiquidityFor(pool, amountOne, amountTwo))
  }

  /** Minted liquidity is the greatest amount proportionate to both deposits. */
  lemma LiquidityIsProportionate(pool: Pool, a: int, b: int, k: int)
    requires Funded(pool) && a >= 0 && b >= 0
    ensures k <= LiquidityFor(pool, a, b) <==>
            k * pool.reserve0 <= a * pool.totalSupply && k * pool.reserve1 <= b * pool.totalSupply
    ensures LiquidityFor(pool, a, b) >= 0
  {
    MulMono(0, a, pool.totalSupply);
    MulMono(0, b, pool.totalSupply);
    FloorAdjoint(k, a * pool.totalSupply, pool.reserve0);
    FloorAdjoint(k, b * pool.totalSupply, pool.reserve1);
    FloorAdjoint(0, a * pool.totalSupply, pool.reserve0);
    FloorAdjoint(0, b * pool.totalSupply, pool.reserve1);
  }

  /** Shares never outgrow the geometric mean of the reserves. */
  predicate Sound(pool: Pool) {
    pool.totalSupply * pool.totalSupply <= pool.reserve0 * pool.reserve1
  }

  /** Neither reserve per share is lower in `after` than in `before`. */
  predicate SharesWorthNoLess(before: Pool, after: Pool) {
    && after.reserve0 * before.totalSupply >= before.reserve0 * after.totalSupply
    && after.reserve1 * before.totalSupply >= before.reserve1 * after.totalSupply
  }

  lemma DepositKeepsShares(pool: Pool, a: int, b: int)
    requires Funded(pool) && a >= 0 && b >= 0
    ensures Funded(Deposit(pool, a, b)) && SharesWorthNoLess(pool, Deposit(pool, a, b))
    ensures Sound(pool) ==> Sound(Deposit(pool, a, b))
  {
    var l := LiquidityFor(pool, a, b);
    LiquidityIsProportionate(pool, a, b, l);
    SideKeepsShares(pool.reserve0, pool.totalSupply, a, l);
    SideKeepsShares(pool.reserve1, pool.totalSupply, b, l);
    if Sound(pool) { RatioKeepsSound(pool, Deposit(pool, a, b)); }
  }

  lemma SideKeepsShares(reserve: int, supply: int, a: int, l: int)
    requires l * reserve <= a * supply
    ensures (reserve + a) * supply >= reserve * (supply + l)
    ensures (reserve + a) * l <= a * (supply + l)
  {
  }

  /** If no share lost on either side, the product of the reserves still covers the squared supply. */
  lemma RatioKeepsSound(p: Pool, q: Pool)
    requires Funded(p) && Funded(q) && SharesWorthNoLess(p, q) && Sound(p)
    ensures Sound(q)
  {
  }

  lemma FirstMintIsSound(a: int, b: int)
    requires a > 0 && b > 0
    ensures Funded(FirstMint(a, b)) && Sound(FirstMint(a, b))
    ensures FirstMint(a, b) == Pool(a, b, FloorSqrt(a * b))
  {
    assert a * b > 0;
  }

  predicate NonNegative(deposits: seq<(int, int)>) {
    forall i :: 0 <= i < |deposits| ==> deposits[i].0 >= 0 && deposits[i].1 >= 0
  }

  /** The pool after a run of deposits. */
  function DepositAll(pool: Pool, deposits: seq<(int, int)>): Pool
    requires Funded(pool) && NonNegative(deposits)
    decreases |deposits|
  {
    if deposits == [] then pool
    else
      DepositKeepsShares(pool, deposits[0].0, deposits[0].1);
      DepositAll(Deposit(pool, deposits[0].0, deposits[0].1), deposits[1..])
  }

  /** Everything deposited on either side. */
  function Deposited(deposits: seq<(int, int)>): (int, int)
    decreases |deposits|
  {
    if deposits == [] then (0, 0)
    else (deposits[0].0 + Deposited(deposits[1..]).0, deposits[0].1 + Deposited(deposits[1..]).1)
  }

  /** Over a run of deposits the reserves take in exactly what is deposited, and no share loses worth. */
  lemma {:induction false} DepositsKeepShares(pool: Pool, deposits: seq<(int, int)>)
    requires Funded(pool) && NonNegative(deposits)
    ensures var q := DepositAll(pool, deposits);
            && Funded(q) && SharesWorthNoLess(pool, q) && (Sound(pool) ==> Sound(q))
            && q.reserve0 == pool.reserve0 + Deposited(deposits).0
            && q.reserve1 == pool.reserve1 + Deposited(deposits).1
    decreases |deposits|
  {
    if deposits != [] {
      var p := Deposit(pool, deposits[0].0, deposits[0].1);
      DepositKeepsShares(pool, deposits[0].0, deposits[0].1);
      DepositsKeepShares(p, deposits[1..]);
      var q := DepositAll(p, deposits[1..]);
      RatioTransitive(q.reserve0, q.totalSupply, p.reserve0, p.totalSupply, pool.reserve0, pool.totalSupply);
      RatioTransitive(q.reserve1, q.totalSupply, p.reserve1, p.totalSupply, pool.reserve1, pool.totalSupply);
    }
  }

  /** From a first mint, every run of deposits keeps supply^2 <= reserve0 * reserve1 and never lowers
      either reserve per share. */
  lemma MintingRunIsSound(a: int, b: int, deposits: seq<(int, int)>)
    requires a > 0 && b > 0 && NonNegative(deposits)
    ensures Funded(FirstMint(a, b))
    ensures var q := DepositAll(FirstMint(a, b), deposits);
            && Sound(q) && SharesWorthNoLess(FirstMint(a, b), q)
            && q.reserve0 == a + Deposited(deposits).0 && q.reserve1 == b + Deposited(deposits).1
  {
    FirstMintIsSound(a, b);
    DepositsKeepShares(FirstMint(a, b), deposits);
  }

  // ---------------------------------------------------------------------------------------------
  // Claims on the reserves
  // ---------------------------------------------------------------------------------------------

  /** One side of calculateTokensInReserve. */
  function Claim(reserve: int, totalSupply: int, lpTokenBalance: int): int
    requires totalSupply != 0
  {
    PreciseMul(PreciseDiv(reserve, totalSupply), lpTokenBalance)
  }

  function TokensInReserve(pool: Pool, lpTokenBalance: int): (int, int)
    requires pool.totalSupply != 0
  {
    (Claim(pool.reserve0, pool.totalSupply, lpTokenBalance), Claim(pool.reserve1, pool.totalSupply, lpTokenBalance))
  }

  /** Both sides on all arguments: the reserve per share, truncated, times the balance, truncated. */
  lemma TokensInReserveExact(pool: Pool, balance: int, share0: int, share1: int, t0: int, t1: int)
    requires pool.totalSupply != 0
    requires Truncates(share0, pool.reserve0 * PRECISE_UNIT, pool.totalSupply)
    requires Truncates(share1, pool.reserve1 * PRECISE_UNIT, pool.totalSupply)
    ensures TokensInReserve(pool, balance) == (t0, t1) <==>
            Truncates(t0, share0 * balance, PRECISE_UNIT) && Truncates(t1, share1 * balance, PRECISE_UNIT)
  {
    PreciseDivExact(pool.reserve0, pool.totalSupply, share0);
    PreciseDivExact(pool.reserve1, pool.totalSupply, share1);
    PreciseMulExact(share0, balance, t0);
    PreciseMulExact(share1, balance, t1);
  }

  /** Without intermediate amounts: each side is the greatest amount that some payout per share, affordable
      for every share at once, brings the holder. */
  lemma TokensInReserveAreGreatest(pool: Pool, balance: int, k: int)
    requires pool.reserve0 >= 0 && pool.reserve1 >= 0 && pool.totalSupply > 0 && balance >= 0
    ensures k <= TokensInReserve(pool, balance).0 <==> Affordable(pool.reserve0, pool.totalSupply, balance, k)
    ensures k <= TokensInReserve(pool, balance).1 <==> Affordable(pool.reserve1, pool.totalSupply, balance, k)
  {
    ClaimIsGreatest(pool.reserve0, pool.totalSupply, balance, k);
    ClaimIsGreatest(pool.reserve1, pool.totalSupply, balance, k);
  }

  ghost predicate Affordable(reserve: int, totalSupply: int, balance: int, k: int) {
    exists perShare :: perShare * totalSupply <= reserve * PRECISE_UNIT && k * PRECISE_UNIT <= perShare * balance
  }

  lemma ClaimIsGreatest(reserve: int, totalSupply: int, balance: int, k: int)
    requires reserve >= 0 && totalSupply > 0 && balance >= 0
    ensures k <= Claim(reserve, totalSupply, balance) <==> Affordable(reserve, totalSupply, balance, k)
  {
    var share := PreciseDiv(reserve, totalSupply);
    PreciseDivBounds(reserve, totalSupply);
    PreciseMulAdjoint(share, balance, k);
    if Affordable(reserve, totalSupply, balance, k) {
      var s :| s * totalSupply <= reserve * PRECISE_UNIT && k * PRECISE_UNIT <= s * balance;
      PreciseDivAdjoint(reserve, totalSupply, s);
      MulMono(s, share, balance);
    }
  }

  function TotalClaims(reserve: int, totalSupply: int, balances: seq<int>): int
    requires totalSupply != 0
  {
    if balances == [] then 0
    else Claim(reserve, totalSupply, balances[0]) + TotalClaims(reserve, totalSupply, balances[1..])
  }

  /** c is at most the share of the reserve that the balance is of the supply, and close to it. */
  predicate IsClaim(c: int, reserve: int, totalSupply: int, balance: int) {
    && 0 <= c && c * totalSupply <= reserve * balance
    && (reserve * balance - c * totalSupply) * PRECISE_UNIT < totalSupply * (PRECISE_UNIT + balance)
  }

  /** A claim never exceeds the holder's share of the reserve and falls short of it by less than
      1 + balance/P. */
  lemma ClaimBounds(reserve: int, totalSupply: int, balance: int)
    requires reserve >= 0 && totalSupply > 0 && balance >= 0
    ensures IsClaim(Claim(reserve, totalSupply, balance), reserve, totalSupply, balance)
  {
    var perShare := PreciseDiv(reserve, totalSupply);
    PreciseDivBounds(reserve, totalSupply);
    PreciseMulBounds(perShare, balance);
    NestedFloors(PRECISE_UNIT, reserve, totalSupply, balance, perShare, Claim(reserve, totalSupply, balance));
  }

  lemma NestedFloors(P: int, reserve: int, t: int, balance: int, perShare: int, c: int)
    requires P > 0 && t > 0 && balance >= 0
    requires perShare * t <= reserve * P < perShare * t + t
    requires c * P <= perShare * balance < c * P + P
    ensures c * t <= reserve * balance
    ensures (reserve * balance - c * t) * P < t * (P + balance)
  {
    var x := perShare * balance * t;
    assert (c * t) * P <= x < (c * t) * P + t * P by {
      MulMono(c * P, perShare * balance, t);
      MulMono(perShare * balance, c * P + P - 1, t);
      Mul3(c, P, t);
      MulDistributes(c * P, P - 1, t);
    }
    assert x <= (reserve * balance) * P <= x + t * balance by {
      MulMono(perShare * t, reserve * P, balance);
      MulMono(reserve * P, perShare * t + t, balance);
      Mul3(perShare, balance, t);
      Mul3(reserve, P, balance);
      MulDistributes(perShare * t, t, balance);
    }
    MulCancel(c * t, reserve * balance, P);
    MulDistributes(P, balance, t);
  }

  lemma {:induction false} ClaimsFollowShares(reserve: int, totalSupply: int, balances: seq<int>)
    requires reserve >= 0 && totalSupply > 0
    requires forall i :: 0 <= i < |balances| ==> balances[i] >= 0
    ensures 0 <= Sum(balances)
    ensures var total := TotalClaims(reserve, totalSupply, balances);
            && total * totalSupply <= reserve * Sum(balances)
            && (reserve * Sum(balances) - total * totalSupply) * PRECISE_UNIT
               <= totalSupply * (|balances| * PRECISE_UNIT + Sum(balances))
    decreases |balances|
  {
    if balances != [] {
      var b, rest := balances[0], balances[1..];
      var c, others := Claim(reserve, totalSupply, b), TotalClaims(reserve, totalSupply, rest);
      ClaimBounds(reserve, totalSupply, b);
      ClaimsFollowShares(reserve, totalSupply, rest);
      AddShares(c, b, others, Sum(rest), totalSupply, reserve);
      AddLosses(c, b, others, Sum(rest), totalSupply, reserve, PRECISE_UNIT, |rest|);
    }
  }

  lemma AddLosses(c: int, b: int, others: int, rest: int, totalSupply: int, reserve: int, P: int, n: int)
    requires (reserve * b - c * totalSupply) * P <= totalSupply * (P + b)
    requires (reserve * rest - others * totalSupply) * P <= totalSupply * (n * P + rest)
    ensures (reserve * (b + rest) - (c + others) * totalSupply) * P <= totalSupply * ((n + 1) * P + (b + rest))
  {
  }

  lemma AddShares(c: int, b: int, others: int, rest: int, totalSupply: int, reserve: int)
    requires c * totalSupply <= reserve * b && others * totalSupply <= reserve * rest
    ensures (c + others) * totalSupply <= reserve * (b + rest)
  {
  }

  /** However the shares are spread, the claims together never exceed the reserve. They fall short of their
      share of it by no more than 1 + balance/P for each holder. */
  lemma ClaimsNeverExceedReserve(reserve: int, totalSupply: int, balances: seq<int>)
    requires reserve >= 0 && totalSupply > 0
    requires forall i :: 0 <= i < |balances| ==> balances[i] >= 0
    requires Sum(balances) <= totalSupply
    ensures var total := TotalClaims(reserve, totalSupply, balances);
            && total <= reserve
            && (reserve * Sum(balances) - total * totalSupply) * PRECISE_UNIT
               <= totalSupply * (|balances| * PRECISE_UNIT + Sum(balances))
  {
    ClaimsFollowShares(reserve, totalSupply, balances);
    MulMono(Sum(balances), totalSupply, reserve);
    MulCancel(TotalClaims(reserve, totalSupply, balances), reserve, totalSupply);
  }

  /** A deposit is never worth more than was put in, and takes nothing from an earlier holder, who can still
      claim a share of both reserves. */
  lemma DepositClaims(pool: Pool, a: int, b: int, earlier: int)
    requires Funded(pool) && a >= 0 && b >= 0 && earlier >= 0
    ensures var q, l := Deposit(pool, a, b), LiquidityFor(pool, a, b);
            && q.totalSupply > 0
            && TokensInReserve(q, l).0 <= a && TokensInReserve(q, l).1 <= b
            && TokensInReserve(q, earlier).0 >= TokensInReserve(pool, earlier).0
            && TokensInReserve(q, earlier).1 >= TokensInReserve(pool, earlier).1
            && IsClaim(TokensInReserve(q, earlier).0, q.reserve0, q.totalSupply, earlier)
            && IsClaim(TokensInReserve(q, earlier).1, q.reserve1, q.totalSupply, earlier)
  {
    var q, l := Deposit(pool, a, b), LiquidityFor(pool, a, b);
    LiquidityIsProportionate(pool, a, b, l);
    DepositKeepsShares(pool, a, b);
    SideClaims(pool.reserve0, pool.totalSupply, a, l, earlier);
    SideClaims(pool.reserve1, pool.totalSupply, b, l, earlier);
    ClaimBounds(q.reserve0, q.totalSupply, earlier);
    ClaimBounds(q.reserve1, q.totalSupply, earlier);
  }

  lemma SideClaims(reserve: int, supply: int, a: int, l: int, earlier: int)
    requires reserve > 0 && supply > 0 && a >= 0 && l >= 0 && earlier >= 0
    requires l * reserve <= a * supply
    ensures Claim(reserve + a, supply + l, l) <= a
    ensures Claim(reserve + a, supply + l, earlier) >= Claim(reserve, supply, earlier)
  {
    var r', s' := reserve + a, supply + l;
    ClaimBounds(r', s', l);
    SideKeepsShares(reserve, supply, a, l);
    MulCancel(Claim(r', s', l), a, s');
    var perShare := PreciseDiv(reserve, supply);
    PreciseDivBounds(reserve, supply);
    assert perShare * s' <= r' * PRECISE_UNIT by {
      calc {
        (perShare * s') * supply;
      ==  { Mul3(perShare, s', supply); }
        (perShare * supply) * s';
      <=  { MulMono(perShare * supply, reserve * PRECISE_UNIT, s'); }
        (reserve * PRECISE_UNIT) * s';
      ==  { Mul3(reserve, PRECISE_UNIT, s'); }
        (reserve * s') * PRECISE_UNIT;
      <=
        (r' * supply) * PRECISE_UNIT;
      ==  { Mul3(r', supply, PRECISE_UNIT); }
        (r' * PRECISE_UNIT) * supply;
      }
      MulCancel(perShare * s', r' * PRECISE_UNIT, supply);
    }
    PreciseDivAdjoint(r', s', perShare);
    PreciseMulMono(perShare, PreciseDiv(r', s'), earlier);
  }

  // ---------------------------------------------------------------------------------------------
  // Engaging and rebalancing
  // ---------------------------------------------------------------------------------------------

  /** One side of calculateEngageQuantities: `balance` is what the token holds plus the extra. */
  function EngageQuantity(reserve: int, balance: int, reservePercentage: int): int {
    PreciseMul(reserve, reservePercentage) - PreciseMul(balance, PRECISE_UNIT - reservePercentage)
  }

  /** Moving the quantity out of the reserve leaves the reserve with the complementary percentage of
      everything held, to within one unit. */
  lemma EngageHitsTarget(reserve: int, balance: int, reservePercentage: int)
    requires reserve >= 0 && balance >= 0 && 0 <= reservePercentage <= PRECISE_UNIT
    ensures var q := EngageQuantity(reserve, balance, reservePercentage);
            && -balance <= q <= reserve
            && Abs((reserve - q) * PRECISE_UNIT - (PRECISE_UNIT - reservePercentage) * (reserve + balance))
               < PRECISE_UNIT
  {
    PreciseMulBounds(reserve, reservePercentage);
    PreciseMulBounds(balance, PRECISE_UNIT - reservePercentage);
    MulMono(reservePercentage, PRECISE_UNIT, reserve);
    MulMono(PRECISE_UNIT - reservePercentage, PRECISE_UNIT, balance);
    MulDistributes(reserve, balance, PRECISE_UNIT - reservePercentage);
    MulDistributes(PRECISE_UNIT, reservePercentage, reserve);
  }

  /** calculateEngageQuantities: of either asset, what to take out of the pool's share and the balance. */
  function EngageQuantities(pool: Pool, lpTokenBalance: int, balanceOne: int, balanceTwo: int,
                            reservePercentage: int): (int, int)
    requires pool.totalSupply != 0
  {
    var reserves := TokensInReserve(pool, lpTokenBalance);
    (EngageQuantity(reserves.0, balanceOne, reservePercentage),
     EngageQuantity(reserves.1, balanceTwo, reservePercentage))
  }

  /** Both quantities on all arguments, from the pool and the balances alone. */
  lemma EngageQuantitiesExact(pool: Pool, lpTokenBalance: int, balanceOne: int, balanceTwo: int, percentage: int,
                              one: EngageSide, two: EngageSide)
    requires pool.totalSupply != 0
    requires IsEngageSide(one, pool.reserve0, pool.totalSupply, lpTokenBalance, balanceOne, percentage)
    requires IsEngageSide(two, pool.reserve1, pool.totalSupply, lpTokenBalance, balanceTwo, percentage)
    ensures EngageQuantities(pool, lpTokenBalance, balanceOne, balanceTwo, percentage)
         == (one.taken - one.kept, two.taken - two.kept)
  {
    EngageSideExact(one, pool.reserve0, pool.totalSupply, lpTokenBalance, balanceOne, percentage);
    EngageSideExact(two, pool.reserve1, pool.totalSupply, lpTokenBalance, balanceTwo, percentage);
  }

  /** Per share and per holder what the pool holds of one asset, the percentage of that which is taken, and the
      complementary percentage of the balance. */
  datatype EngageSide = EngageSide(perShare: int, held: int, taken: int, kept: int)

  predicate IsEngageSide(e: EngageSide, reserve: int, totalSupply: int, lpTokenBalance: int, balance: int,
                         percentage: int)
  {
    && Truncates(e.perShare, reserve * PRECISE_UNIT, totalSupply)
    && Truncates(e.held, e.perShare * lpTokenBalance, PRECISE_UNIT)
    && Truncates(e.taken, e.held * percentage, PRECISE_UNIT)
    && Truncates(e.kept, balance * (PRECISE_UNIT - percentage), PRECISE_UNIT)
  }

  lemma EngageSideExact(e: EngageSide, reserve: int, totalSupply: int, lpTokenBalance: int, balance: int,
                        percentage: int)
    requires totalSupply != 0 && IsEngageSide(e, reserve, totalSupply, lpTokenBalance, balance, percentage)
    ensures EngageQuantity(Claim(reserve, totalSupply, lpTokenBalance), balance, percentage) == e.taken - e.kept
  {
    PreciseDivExact(reserve, totalSupply, e.perShare);
    PreciseMulExact(e.perShare, lpTokenBalance, e.held);
    PreciseMulExact(e.held, percentage, e.taken);
    PreciseMulExact(balance, PRECISE_UNIT - percentage, e.kept);
  }

  datatype Rebalance = Rebalance(quantityToSell: int, sellAssetOne: bool)

  /** A price of zero makes the original throw. */
  function RebalanceQuantity(sellTokenQuantity: int, balanceOne: int, balanceTwo: int, price: int): Rebalance
    requires price != 0
  {
    var valueTwo := PreciseDiv(balanceTwo, price);
    var computed :=
      if balanceOne > valueTwo then Rebalance(TruncDiv(balanceOne - valueTwo, 2), true)
      else Rebalance(PreciseMul(TruncDiv(valueTwo - balanceOne, 2), price), false);
    if sellTokenQuantity > 0 then computed.(quantityToSell := sellTokenQuantity) else computed
  }

  /** Quantity and direction on all arguments: half the excess value, converted where asset two is sold. */
  lemma RebalanceExact(sellTokenQuantity: int, balanceOne: int, balanceTwo: int, price: int,
                       valueTwo: int, half: int, q: int)
    requires price != 0
    requires Truncates(valueTwo, balanceTwo * PRECISE_UNIT, price)
    requires Truncates(half, if balanceOne > valueTwo then balanceOne - valueTwo else valueTwo - balanceOne, 2)
    requires if balanceOne > valueTwo then q == half else Truncates(q, half * price, PRECISE_UNIT)
    ensures RebalanceQuantity(sellTokenQuantity, balanceOne, balanceTwo, price)
         == Rebalance(if sellTokenQuantity > 0 then sellTokenQuantity else q, balanceOne > valueTwo)
  {
    PreciseDivExact(balanceTwo, price, valueTwo);
    PreciseMulExact(half, price, q);
    TruncDivExact(balanceOne - valueTwo, 2, half);
    TruncDivExact(valueTwo - balanceOne, 2, half);
  }

  /** Without an override the quantity is affordable, and selling it at the quoted price leaves both
      holdings worth the same: to within one unit when asset one is sold, to within 3 + 2P/price when
      asset two is, and never past the balance point. */
  lemma RebalanceBalances(sellTokenQuantity: int, balanceOne: int, balanceTwo: int, price: int)
    requires sellTokenQuantity <= 0 && balanceOne >= 0 && balanceTwo >= 0 && price > 0
    ensures var r := RebalanceQuantity(sellTokenQuantity, balanceOne, balanceTwo, price);
            var q := r.quantityToSell;
            && q >= 0
            && r.sellAssetOne == (balanceOne > PreciseDiv(balanceTwo, price))
            && (r.sellAssetOne ==>
                  q <= balanceOne && 0 <= (balanceOne - q) - (PreciseDiv(balanceTwo, price) + q) <= 1)
            && (!r.sellAssetOne ==>
                  && q <= balanceTwo
                  && var gap := PreciseDiv(balanceTwo - q, price) - (balanceOne + PreciseDiv(q, price));
                     0 <= gap && gap * price < 3 * price + 2 * PRECISE_UNIT)
  {
    var valueTwo := PreciseDiv(balanceTwo, price);
    PreciseDivBounds(balanceTwo, price);
    if balanceOne <= valueTwo {
      var half := (valueTwo - balanceOne) / 2;
      var q := PreciseMul(half, price);
      PreciseMulBounds(half, price);
      SellTwo(balanceOne, balanceTwo, price, valueTwo, half, q);
    }
  }

  lemma SellTwoStaysOnSide(balanceOne: int, balanceTwo: int, price: int, valueTwo: int, half: int, q: int)
    requires price > 0 && 0 <= balanceOne <= valueTwo && balanceTwo >= 0
    requires valueTwo * price <= balanceTwo * PRECISE_UNIT
    requires half == (valueTwo - balanceOne) / 2
    requires q >= 0 && q * PRECISE_UNIT <= half * price
    ensures q <= balanceTwo
    ensures balanceOne + PreciseDiv(q, price) <= PreciseDiv(balanceTwo - q, price)
  {
    MulMono(half, valueTwo, price);
    PreciseDivBounds(q, price);
    assert PreciseDiv(balanceTwo - q, price) >= valueTwo - half by {
      MulDistributes(valueTwo, half, price);
      PreciseDivAdjoint(balanceTwo - q, price, valueTwo - half);
    }
    MulCancel(PreciseDiv(q, price), half, price);
  }

  lemma SellTwo(balanceOne: int, balanceTwo: int, price: int, valueTwo: int, half: int, q: int)
    requires price > 0 && 0 <= balanceOne <= valueTwo && balanceTwo >= 0
    requires valueTwo * price <= balanceTwo * PRECISE_UNIT < valueTwo * price + price
    requires half == (valueTwo - balanceOne) / 2
    requires q >= 0 && q * PRECISE_UNIT <= half * price < q * PRECISE_UNIT + PRECISE_UNIT
    ensures q <= balanceTwo
    ensures var gap := PreciseDiv(balanceTwo - q, price) - (balanceOne + PreciseDiv(q, price));
            0 <= gap && gap * price < 3 * price + 2 * PRECISE_UNIT
  {
    SellTwoStaysOnSide(balanceOne, balanceTwo, price, valueTwo, half, q);
    var left, gained := PreciseDiv(balanceTwo - q, price), PreciseDiv(q, price);
    PreciseDivBounds(q, price);
    PreciseDivBounds(balanceTwo - q, price);
    var gap := left - (balanceOne + gained);
    calc {
      gap * price;
    ==  { MulDistributes(left, balanceOne + gained, price); MulDistributes(balanceOne, gained, price); }
      left * price - balanceOne * price - gained * price;
    <=
      (balanceTwo - q) * PRECISE_UNIT - balanceOne * price - (q * PRECISE_UNIT - price + 1);
    <
      valueTwo * price - balanceOne * price - 2 * (half * price) + 2 * price + 2 * PRECISE_UNIT;
    ==  { MulDistributes(valueTwo, balanceOne, price); MulDistributes(valueTwo - balanceOne, 2 * half, price);
          Mul3(2, half, price); }
      (valueTwo - balanceOne - 2 * half) * price + 2 * price + 2 * PRECISE_UNIT;
    <=  { MulMono(valueTwo - balanceOne - 2 * half, 1, price); }
      3 * price + 2 * PRECISE_UNIT;
    }
  }

  /** Selling so little of asset two that it stays on this side is selling the computed quantity or less, up
      to the roundings. */
  lemma SellTwoCrosses(balanceOne: int, balanceTwo: int, price: int, valueTwo: int, half: int, computed: int, q: int)
    requires price > 0 && 0 <= balanceOne <= valueTwo && 0 <= q <= balanceTwo
    requires balanceTwo * PRECISE_UNIT < valueTwo * price + price
    requires half == (valueTwo - balanceOne) / 2 && half * price < computed * PRECISE_UNIT + PRECISE_UNIT
    requires balanceOne + PreciseDiv(q, price) <= PreciseDiv(balanceTwo - q, price)
    ensures 2 * (q - computed) * PRECISE_UNIT < 3 * price + 2 * PRECISE_UNIT
  {
    var left, gained := PreciseDiv(balanceTwo - q, price), PreciseDiv(q, price);
    PreciseDivBounds(q, price);
    PreciseDivBounds(balanceTwo - q, price);
    MulMono(balanceOne + gained, left, price);
    MulDistributes(balanceOne, gained, price);
    assert 2 * q * PRECISE_UNIT < valueTwo * price - balanceOne * price + 2 * price;
    MulMono(valueTwo - balanceOne, 2 * half + 1, price);
    MulDistributes(valueTwo, balanceOne, price);
    MulDistributes(2 * half, 1, price);
    Mul3(2, half, price);
  }

  /** An override keeps the direction of the trade. Selling asset one it stays on this side of the balance
      point exactly when it does not exceed the computed quantity. Selling asset two it does if it does not
      exceed it, and only if it exceeds it by less than 1 + 3*price/2P. */
  lemma OverrideStaysOnSide(sellTokenQuantity: int, balanceOne: int, balanceTwo: int, price: int)
    requires sellTokenQuantity > 0 && balanceOne >= 0 && balanceTwo >= 0 && price > 0
    ensures var computed := RebalanceQuantity(0, balanceOne, balanceTwo, price);
            var r := RebalanceQuantity(sellTokenQuantity, balanceOne, balanceTwo, price);
            var q := r.quantityToSell;
            var stays := q <= balanceTwo && balanceOne + PreciseDiv(q, price) <= PreciseDiv(balanceTwo - q, price);
            && r == Rebalance(sellTokenQuantity, computed.sellAssetOne)
            && (r.sellAssetOne ==>
                  (PreciseDiv(balanceTwo, price) + q <= balanceOne - q <==> q <= computed.quantityToSell))
            && (!r.sellAssetOne ==>
                  && (q <= computed.quantityToSell ==> stays)
                  && (stays ==> 2 * (q - computed.quantityToSell) * PRECISE_UNIT < 3 * price + 2 * PRECISE_UNIT))
  {
    var computed := RebalanceQuantity(0, balanceOne, balanceTwo, price).quantityToSell;
    var valueTwo := PreciseDiv(balanceTwo, price);
    PreciseDivBounds(balanceTwo, price);
    if balanceOne <= valueTwo {
      var q, half := sellTokenQuantity, (valueTwo - balanceOne) / 2;
      PreciseMulBounds(half, price);
      if q <= computed {
        MulMono(q, computed, PRECISE_UNIT);
        SellTwoStaysOnSide(balanceOne, balanceTwo, price, valueTwo, half, q);
      }
      if q <= balanceTwo && balanceOne + PreciseDiv(q, price) <= PreciseDiv(balanceTwo - q, price) {
        SellTwoCrosses(balanceOne, balanceTwo, price, valueTwo, half, computed, q);
      }
    }
  }
}
