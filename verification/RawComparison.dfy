/** uniswapUtils.ts compares BigNumbers with the bare operators `<` and `>`. JavaScript turns such objects
    into their decimal strings and compares those character by character. This module says exactly when
    that agrees with comparing the numbers. */
module RawComparison {
  import opened Arithmetic
  import opened MathUtils
  import opened Uniswap

  function Digit(d: nat): char
    requires d < 10
  {
    "0123456789"[d]
  }

  function Numeral(n: nat): (s: string)
    ensures |s| >= 1
  {
    if n < 10 then [Digit(n)] else Numeral(n / 10) + [Digit(n % 10)]
  }

  function DecimalString(n: int): string {
    if n < 0 then "-" + Numeral(-n) else Numeral(n)
  }

  /** String order by code units; a proper prefix comes first. */
  predicate StringLess(s: string, t: string)
    decreases |s|
  {
    t != [] && (s == [] || s[0] < t[0] || (s[0] == t[0] && StringLess(s[1..], t[1..])))
  }

  /** `a < b` as the file writes it. */
  predicate RawLess(a: int, b: int) {
    StringLess(DecimalString(a), DecimalString(b))
  }

  /** The exported `min` as the file writes it. */
  function RawMin(valueOne: int, valueTwo: int): int {
    if RawLess(valueOne, valueTwo) then valueOne else valueTwo
  }

  /** n without its last k decimal digits. */
  function Stripped(n: nat, k: nat): nat {
    if k == 0 then n else Stripped(n / 10, k - 1)
  }

  lemma {:induction false} AppendDigit(s: string, t: string, c: char, d: char)
    requires |s| == |t|
    ensures StringLess(s + [c], t + [d]) <==> StringLess(s, t) || (s == t && c < d)
    decreases |s|
  {
    if s != [] {
      assert (s + [c])[1..] == s[1..] + [c] && (t + [d])[1..] == t[1..] + [d];
      AppendDigit(s[1..], t[1..], c, d);
      assert s == [s[0]] + s[1..] && t == [t[0]] + t[1..];
    }
  }

  lemma DigitOrder(c: nat, d: nat)
    requires c < 10 && d < 10
    ensures Digit(c) < Digit(d) <==> c < d
    ensures Digit(c) == Digit(d) <==> c == d
  {
  }

  /** Numerals of equal length are ordered as the numbers are. */
  lemma {:induction false} SameLengthOrder(a: nat, b: nat)
    requires |Numeral(a)| == |Numeral(b)|
    ensures StringLess(Numeral(a), Numeral(b)) <==> a < b
    ensures Numeral(a) == Numeral(b) <==> a == b
    decreases a
  {
    DigitOrder(a % 10, b % 10);
    if a >= 10 {
      SameLengthOrder(a / 10, b / 10);
      AppendDigit(Numeral(a / 10), Numeral(b / 10), Digit(a % 10), Digit(b % 10));
      assert Numeral(a) == Numeral(b) ==> Numeral(a / 10) == Numeral(b / 10) && Digit(a % 10) == Digit(b % 10) by {
        var n := |Numeral(a / 10)|;
        assert Numeral(a)[..n] == Numeral(a / 10) && Numeral(b)[..n] == Numeral(b / 10);
        assert Numeral(a)[n] == Digit(a % 10) && Numeral(b)[n] == Digit(b % 10);
      }
    } else {
      AppendDigit([], [], Digit(a), Digit(b));
      assert [] + [Digit(a)] == Numeral(a) && b < 10;
      assert [] + [Digit(b)] == Numeral(b);
    }
  }

  lemma {:induction false} StrippedNumeral(n: nat, k: nat)
    requires k < |Numeral(n)|
    ensures Numeral(Stripped(n, k)) == Numeral(n)[..|Numeral(n)| - k]
    decreases k
  {
    var s := Numeral(n);
    if k == 0 {
      assert s[..|s|] == s;
    } else {
      StrippedNumeral(n / 10, k - 1);
      assert s[..|s| - k] == Numeral(n / 10)[..|Numeral(n / 10)| - (k - 1)];
    }
  }

  lemma {:induction false} PrefixOrder(s: string, t: string)
    ensures |s| < |t| ==> (StringLess(s, t) <==> StringLess(s, t[..|s|]) || s == t[..|s|])
    ensures |s| > |t| ==> (StringLess(s, t) <==> StringLess(s[..|t|], t))
    decreases |s|
  {
    if s != [] && t != [] {
      PrefixOrder(s[1..], t[1..]);
      if |s| < |t| {
        assert t[..|s|][1..] == t[1..][..|s| - 1];
        assert t[..|s|] == [t[0]] + t[1..][..|s| - 1] && s == [s[0]] + s[1..];
      } else if |s| > |t| {
        assert s[..|t|][1..] == s[1..][..|t| - 1];
      }
    }
  }

  /** What the bare comparison really decides: the longer number is first cut to the length of the shorter
      one, and a tie goes to the shorter. */
  lemma RawLessExact(a: nat, b: nat)
    ensures var la, lb := |Numeral(a)|, |Numeral(b)|;
            && (la == lb ==> (RawLess(a, b) <==> a < b))
            && (la < lb ==> (RawLess(a, b) <==> a <= Stripped(b, lb - la)))
            && (la > lb ==> (RawLess(a, b) <==> Stripped(a, la - lb) < b))
  {
    var la, lb := |Numeral(a)|, |Numeral(b)|;
    if la == lb {
      SameLengthOrder(a, b);
    } else if la < lb {
      ShorterOnTheLeft(a, b);
    } else {
      ShorterOnTheRight(a, b);
    }
  }

  lemma ShorterOnTheLeft(a: nat, b: nat)
    requires |Numeral(a)| < |Numeral(b)|
    ensures RawLess(a, b) <==> a <= Stripped(b, |Numeral(b)| - |Numeral(a)|)
  {
    PrefixOnTheRight(a, b, |Numeral(b)| - |Numeral(a)|);
  }

  lemma ShorterOnTheRight(a: nat, b: nat)
    requires |Numeral(a)| > |Numeral(b)|
    ensures RawLess(a, b) <==> Stripped(a, |Numeral(a)| - |Numeral(b)|) < b
  {
    PrefixOnTheLeft(a, b, |Numeral(a)| - |Numeral(b)|);
  }

  lemma PrefixOnTheRight(a: nat, b: nat, k: nat)
    requires k > 0 && |Numeral(a)| + k == |Numeral(b)|
    ensures StringLess(Numeral(a), Numeral(b)) <==> a <= Stripped(b, k)
  {
    PrefixOrder(Numeral(a), Numeral(b));
    StrippedNumeral(b, k);
    SameLengthOrder(a, Stripped(b, k));
  }

  lemma PrefixOnTheLeft(a: nat, b: nat, k: nat)
    requires k > 0 && |Numeral(a)| == |Numeral(b)| + k
    ensures StringLess(Numeral(a), Numeral(b)) <==> Stripped(a, k) < b
  {
    PrefixOrder(Numeral(a), Numeral(b));
    StrippedNumeral(a, k);
    SameLengthOrder(Stripped(a, k), b);
  }

  lemma {:induction false} LongerIsLarger(a: nat, b: nat)
    requires a <= b
    ensures |Numeral(a)| <= |Numeral(b)|
    decreases b
  {
    if a >= 10 { LongerIsLarger(a / 10, b / 10); }
  }

  /** The numbers have the same number of digits, or lo is within the leading digits of hi. */
  predicate LeadingDigitsAgree(lo: nat, hi: nat) {
    |Numeral(lo)| < |Numeral(hi)| ==> lo <= Stripped(hi, |Numeral(hi)| - |Numeral(lo)|)
  }

  lemma RawPairExact(lo: nat, hi: nat)
    requires lo < hi
    ensures RawLess(lo, hi) <==> LeadingDigitsAgree(lo, hi)
    ensures RawLess(hi, lo) <==> !LeadingDigitsAgree(lo, hi)
  {
    LongerIsLarger(lo, hi);
    RawLessExact(lo, hi);
    RawLessExact(hi, lo);
  }

  /** `min` as written returns the smaller of two non-negative numbers exactly when they have the same
      number of digits, or the smaller does not exceed the leading digits of the larger; otherwise the larger. */
  lemma RawMinExact(a: nat, b: nat)
    ensures var lo, hi := if a < b then a else b, if a < b then b else a;
            RawMin(a, b) == if LeadingDigitsAgree(lo, hi) then lo else hi
    ensures RawMin(a, b) == Min(a, b) <==> LeadingDigitsAgree(if a < b then a else b, if a < b then b else a)
  {
    if a < b {
      RawPairExact(a, b);
    } else if b < a {
      RawPairExact(b, a);
    }
  }

  // ---------------------------------------------------------------------------------------------
  // What this means for the shares of a pool
  // ---------------------------------------------------------------------------------------------

  /** The two proportionate amounts a deposit is minted for. */
  function Proportion0(pool: Pool, a: int): int
    requires pool.reserve0 != 0
  {
    TruncDiv(a * pool.totalSupply, pool.reserve0)
  }

  function Proportion1(pool: Pool, b: int): int
    requires pool.reserve1 != 0
  {
    TruncDiv(b * pool.totalSupply, pool.reserve1)
  }

  /** The pool after a deposit minted with `min` as written. */
  function RawDeposit(pool: Pool, a: int, b: int): Pool
    requires Funded(pool)
  {
    Pool(pool.reserve0 + a, pool.reserve1 + b,
         pool.totalSupply + RawMin(Proportion0(pool, a), Proportion1(pool, b)))
  }

  /** The digits of the two amounts allow `min` as written to tell them apart. */
  predicate DepositDigitsAgree(pool: Pool, a: int, b: int)
    requires Funded(pool) && a >= 0 && b >= 0
  {
    ProportionsNonNegative(pool, a, b);
    var l0, l1 := Proportion0(pool, a), Proportion1(pool, b);
    LeadingDigitsAgree(if l0 < l1 then l0 else l1, if l0 < l1 then l1 else l0)
  }

  lemma ProportionsNonNegative(pool: Pool, a: int, b: int)
    requires Funded(pool) && a >= 0 && b >= 0
    ensures Proportion0(pool, a) >= 0 && Proportion1(pool, b) >= 0
  {
    LiquidityIsProportionate(pool, a, b, 0);
  }

  /** Shares hold their worth through a deposit exactly when they hold it for the minted amount. */
  lemma SharesHoldExactly(pool: Pool, a: int, b: int, k: int)
    requires Funded(pool) && a >= 0 && b >= 0
    ensures SharesWorthNoLess(pool, Pool(pool.reserve0 + a, pool.reserve1 + b, pool.totalSupply + k)) <==>
            k <= LiquidityFor(pool, a, b)
  {
    LiquidityIsProportionate(pool, a, b, k);
    SideHolds(pool.reserve0, pool.totalSupply, a, k);
    SideHolds(pool.reserve1, pool.totalSupply, b, k);
  }

  lemma SideHolds(reserve: int, supply: int, a: int, k: int)
    ensures (reserve + a) * supply >= reserve * (supply + k) <==> k * reserve <= a * supply
  {
  }

  /** A deposit minted as the file is written costs no earlier share anything exactly when the digits agree;
      it then mints just what the numeric comparison would. */
  lemma RawDepositExact(pool: Pool, a: int, b: int)
    requires Funded(pool) && a >= 0 && b >= 0
    ensures Funded(RawDeposit(pool, a, b))
    ensures SharesWorthNoLess(pool, RawDeposit(pool, a, b)) <==> DepositDigitsAgree(pool, a, b)
    ensures RawDeposit(pool, a, b) == Deposit(pool, a, b) <==> DepositDigitsAgree(pool, a, b)
  {
    var l0, l1 := Proportion0(pool, a), Proportion1(pool, b);
    ProportionsNonNegative(pool, a, b);
    RawMinExact(l0, l1);
    SharesHoldExactly(pool, a, b, RawMin(l0, l1));
  }

  function RawDepositAll(pool: Pool, deposits: seq<(int, int)>): Pool
    requires Funded(pool) && NonNegative(deposits)
    decreases |deposits|
  {
    if deposits == [] then pool
    else
      RawDepositExact(pool, deposits[0].0, deposits[0].1);
      RawDepositAll(RawDeposit(pool, deposits[0].0, deposits[0].1), deposits[1..])
  }

  /** No deposit of the run, minted as written, costs the shares before it anything. */
  predicate NeverDilutes(pool: Pool, deposits: seq<(int, int)>)
    requires Funded(pool) && NonNegative(deposits)
    decreases |deposits|
  {
    if deposits == [] then true
    else
      var next := RawDeposit(pool, deposits[0].0, deposits[0].1);
      RawDepositExact(pool, deposits[0].0, deposits[0].1);
      SharesWorthNoLess(pool, next) && NeverDilutes(next, deposits[1..])
  }

  /** The digits agree at every deposit of the numeric run. */
  predicate DigitsAgreeAlong(pool: Pool, deposits: seq<(int, int)>)
    requires Funded(pool) && NonNegative(deposits)
    decreases |deposits|
  {
    if deposits == [] then true
    else
      DepositKeepsShares(pool, deposits[0].0, deposits[0].1);
      DepositDigitsAgree(pool, deposits[0].0, deposits[0].1)
      && DigitsAgreeAlong(Deposit(pool, deposits[0].0, deposits[0].1), deposits[1..])
  }

  /** Over any run: as written, no deposit dilutes exactly when the digits agree all along, and then the run
      is the numeric one, with everything proved of that. */
  lemma {:induction false} RawRunExact(pool: Pool, deposits: seq<(int, int)>)
    requires Funded(pool) && NonNegative(deposits)
    ensures NeverDilutes(pool, deposits) <==> DigitsAgreeAlong(pool, deposits)
    ensures NeverDilutes(pool, deposits) ==>
              && RawDepositAll(pool, deposits) == DepositAll(pool, deposits)
              && SharesWorthNoLess(pool, RawDepositAll(pool, deposits))
              && (Sound(pool) ==> Sound(RawDepositAll(pool, deposits)))
    decreases |deposits|
  {
    DepositsKeepShares(pool, deposits);
    if deposits != [] {
      var a, b := deposits[0].0, deposits[0].1;
      RawDepositExact(pool, a, b);
      DepositKeepsShares(pool, a, b);
      if DepositDigitsAgree(pool, a, b) { RawRunExact(Deposit(pool, a, b), deposits[1..]); }
    }
  }

  /** Such a deposit: nine and ten tokens offered to a balanced pool mint ten shares. */
  lemma RawMinDilutes()
    ensures var p := Pool(1000, 1000, 1000);
            && RawDeposit(p, 9, 10).totalSupply == 1010
            && !DepositDigitsAgree(p, 9, 10)
            && !SharesWorthNoLess(p, RawDeposit(p, 9, 10))
  {
    var p := Pool(1000, 1000, 1000);
    assert Proportion0(p, 9) == 9 && Proportion1(p, 10) == 10;
    assert Numeral(10) == Numeral(1) + [Digit(0)] && |Numeral(1)| == 1 && |Numeral(9)| == 1;
    assert Stripped(10, 1) == Stripped(1, 0) == 1;
    RawPairExact(9, 10);
    RawDepositExact(p, 9, 10);
  }

  /** The one comparison against zero is right for every integer. */
  lemma RawPositiveExact(n: int)
    ensures RawLess(0, n) <==> n > 0
  {
    if n >= 0 {
      RawLessExact(0, n);
      FirstCharacter(n);
    }
  }

  lemma FirstCharacter(n: nat)
    ensures n > 0 ==> Numeral(n)[0] > '0'
  {
  }

  // ---------------------------------------------------------------------------------------------
  // The square root as written. Its test against zero compares objects and always lets the value pass.
  // ---------------------------------------------------------------------------------------------

  predicate SameLength(a: nat, b: nat) {
    |Numeral(a)| == |Numeral(b)|
  }

  lemma {:induction false} StrippedIsSmall(n: nat, k: nat)
    requires k > 0
    ensures Stripped(n, k) <= n / 10
    decreases k
  {
    if k > 1 { StrippedIsSmall(n / 10, k - 1); }
  }

  lemma {:induction false} SameLengthWithinTen(a: nat, b: nat)
    requires SameLength(a, b) && a >= 1
    ensures b < 10 * a
    decreases a
  {
    if a >= 10 { SameLengthWithinTen(a / 10, b / 10); }
  }

  /** Between two steps z is as long as the value, and the candidate x is no longer and no less than about
      half of z. */
  predicate Stepping(value: nat, z: nat, x: nat) {
    && 1 <= value && 1 <= x && z <= 2 * x + 1
    && SameLength(z, value) && |Numeral(x)| <= |Numeral(value)|
  }

  lemma SteppingStarts(value: nat)
    requires value >= 1
    ensures Stepping(value, value, value / 2 + 1)
  {
    LongerIsLarger(value / 2 + 1, value);
  }

  function NewtonStep(value: nat, x: nat): nat
    requires x >= 1
  {
    FloorAdjoint(0, value, x);
    (value / x + x) / 2
  }

  /** A candidate that lost a digit is never below z as written; so one that is below is below as a number,
      and the loop comes to an end. */
  lemma OnlyFullLengthIsLess(value: nat, z: nat, x: nat)
    requires Stepping(value, z, x) && RawLess(x, z)
    ensures x < z && SameLength(x, value)
  {
    RawLessExact(x, z);
    if !SameLength(x, z) { StrippedIsSmall(z, |Numeral(z)| - |Numeral(x)|); }
  }

  lemma NewtonStepBounds(value: nat, x: nat)
    requires x >= 1 && 1 <= value < 10 * x
    ensures var next := NewtonStep(value, x); 1 <= next && x <= 2 * next + 1 && next <= if x < 10 then 9 else x
  {
    FloorAdjoint(10, value, x);
    FloorAdjoint(1, value, x);
  }

  lemma SteppingGoesOn(value: nat, z: nat, x: nat)
    requires Stepping(value, z, x) && RawLess(x, z)
    ensures x < z && Stepping(value, x, NewtonStep(value, x))
  {
    OnlyFullLengthIsLess(value, z, x);
    SameLengthWithinTen(x, value);
    NewtonStepBounds(value, x);
    NoLongerThan(NewtonStep(value, x), x);
  }

  lemma NoLongerThan(a: nat, b: nat)
    requires a <= if b < 10 then 9 else b
    ensures |Numeral(a)| <= |Numeral(b)|
  {
    LongerIsLarger(a, if b < 10 then 9 else b);
  }

  function RawNewton(value: nat, z: nat, x: nat): nat
    requires Stepping(value, z, x)
    decreases z
  {
    if RawLess(x, z) then
      SteppingGoesOn(value, z, x);
      RawNewton(value, x, NewtonStep(value, x))
    else z
  }

  /** What `sqrt` answers as written. */
  function RawSqrtOf(value: int): int {
    if RawLess(3, value) then
      RawPositive(value);
      SteppingStarts(value);
      RawNewton(value, value, value / 2 + 1)
    else 1
  }

  lemma RawPositive(value: int)
    requires RawLess(3, value)
    ensures value >= 1
  {
    RawLessExact(3, 0);
  }

  /** The loop as written ends, and never divides by zero. */
  method RawSqrt(value: int) returns (z: int)
    ensures z == RawSqrtOf(value)
  {
    if RawLess(3, value) {
      RawPositive(value);
      SteppingStarts(value);
      z := value;
      var x := value / 2 + 1;
      while RawLess(x, z)
        invariant z >= 0 && x >= 0 && Stepping(value, z, x)
        invariant RawNewton(value, z, x) == RawSqrtOf(value)
        decreases z
      {
        SteppingGoesOn(value, z, x);
        z := x;
        x := (value / x + x) / 2;
      }
    } else {
      z := 1;
    }
  }

  lemma {:induction false} RawNewtonLength(value: nat, z: nat, x: nat)
    requires Stepping(value, z, x)
    ensures SameLength(RawNewton(value, z, x), value)
    decreases z
  {
    if RawLess(x, z) {
      SteppingGoesOn(value, z, x);
      RawNewtonLength(value, x, NewtonStep(value, x));
    }
  }

  /** On single digits the comparisons are right, and the loop is the numeric one. */
  lemma {:induction false} RawNewtonOnDigits(value: nat, z: nat, x: nat)
    requires Stepping(value, z, x) && 3 < value < 10
    requires value < (x + 1) * (x + 1) && value < (z + 1) * (z + 1)
    requires (z == value && x == value / 2 + 1) || x == (value / z + z) / 2
    ensures IsSqrt(RawNewton(value, z, x), value)
    decreases z
  {
    RawLessExact(x, z);
    if RawLess(x, z) {
      SteppingGoesOn(value, z, x);
      NewtonStaysAbove(value, x);
      RawNewtonOnDigits(value, x, NewtonStep(value, x));
    } else {
      NewtonStops(value, z);
    }
  }

  function LeadingDigit(n: nat): nat {
    Stripped(n, |Numeral(n)| - 1)
  }

  /** What the guard of the square root decides as written. */
  lemma GuardReadsLeadingDigit(value: nat)
    ensures RawLess(3, value) <==> if value < 10 then value > 3 else LeadingDigit(value) >= 3
  {
    RawLessExact(3, value);
  }

  lemma RawSqrtOnDigits(value: nat)
    requires value < 10
    ensures IsSqrt(RawSqrtOf(value), value) <==> 1 <= value
    ensures value == 0 ==> RawSqrtOf(value) == 1
  {
    RawLessExact(3, value);
    if value > 3 {
      SteppingStarts(value);
      StartAbove(value);
      RawNewtonOnDigits(value, value, value / 2 + 1);
    }
  }

  /** A number as long as the value is above its root. */
  lemma AsLongIsNoRoot(z: nat, value: nat)
    requires value >= 10 && SameLength(z, value)
    ensures z >= 10 && !IsSqrt(z, value)
  {
    SameLengthWithinTen(z, value);
    MulMono(10, z, z);
  }

  lemma RawSqrtBeyondDigits(value: nat)
    requires value >= 10
    ensures !IsSqrt(RawSqrtOf(value), value)
    ensures LeadingDigit(value) < 3 ==> RawSqrtOf(value) == 1
    ensures LeadingDigit(value) >= 3 ==> RawSqrtOf(value) >= 10 && SameLength(RawSqrtOf(value), value)
  {
    GuardReadsLeadingDigit(value);
    if RawLess(3, value) {
      SteppingStarts(value);
      RawNewtonLength(value, value, value / 2 + 1);
      AsLongIsNoRoot(RawSqrtOf(value), value);
    }
  }

  lemma RawSqrtOfNegative(value: int)
    requires value < 0
    ensures RawSqrtOf(value) == 1 && !IsSqrt(1, value)
  {
  }

  /** As written, `sqrt` answers the root exactly for the values from one to nine. For any longer value it
      answers one if the leading digit is below three, and otherwise a number as long as the value itself. */
  lemma RawSqrtExact(value: int)
    ensures IsSqrt(RawSqrtOf(value), value) <==> 1 <= value <= 9
    ensures value <= 0 || (value >= 10 && LeadingDigit(value) < 3) ==> RawSqrtOf(value) == 1
    ensures value >= 10 && LeadingDigit(value) >= 3 ==>
              RawSqrtOf(value) >= 10 && SameLength(RawSqrtOf(value), value)
  {
    if value < 0 {
      RawSqrtOfNegative(value);
    } else if value < 10 {
      RawSqrtOnDigits(value);
    } else {
      RawSqrtBeyondDigits(value);
    }
  }

  /** The candidates in the order in which the loop comes to them. */
  function Candidate(value: nat, n: nat): nat {
    if n == 0 then value
    else if n == 1 then value / 2 + 1
    else
      var x := Candidate(value, n - 1);
      if x == 0 then 0 else NewtonStep(value, x)
  }

  /** From candidate i on, n is the first whose successor is not less as written. */
  predicate FirstStop(value: nat, i: nat, n: nat)
    decreases n - i
  {
    i <= n && (RawLess(Candidate(value, i + 1), Candidate(value, i)) <==> i < n)
    && (i < n ==> FirstStop(value, i + 1, n))
  }

  /** Behind the guard the answer is the first candidate whose successor is not less as written. */
  lemma RawSqrtIsFirstStop(value: nat) returns (n: nat)
    requires RawLess(3, value)
    ensures RawSqrtOf(value) == Candidate(value, n) && FirstStop(value, 0, n)
  {
    RawPositive(value);
    SteppingStarts(value);
    n := RawNewtonStops(value, value, value / 2 + 1, 0);
  }

  lemma NextCandidate(value: nat, i: nat)
    requires Candidate(value, i + 1) >= 1
    ensures Candidate(value, i + 2) == NewtonStep(value, Candidate(value, i + 1))
  {
  }

  lemma {:induction false} RawNewtonStops(value: nat, z: nat, x: nat, i: nat) returns (n: nat)
    requires Stepping(value, z, x) && z == Candidate(value, i) && x == Candidate(value, i + 1)
    ensures RawNewton(value, z, x) == Candidate(value, n) && FirstStop(value, i, n)
    decreases z
  {
    n := i;
    if RawLess(x, z) {
      SteppingGoesOn(value, z, x);
      NextCandidate(value, i);
      n := RawNewtonStops(value, x, NewtonStep(value, x), i + 1);
    }
  }

  lemma TwoDigits(n: nat)
    requires 10 <= n < 100
    ensures |Numeral(n)| == 2 && Stripped(n, 1) == n / 10
  {
    assert Stripped(n, 1) == Stripped(n / 10, 0);
  }

  lemma RawLessUpToTwoDigits(a: nat, b: nat)
    requires a < 100 && 10 <= b < 100
    ensures RawLess(a, b) <==> a <= b / 10 || 10 <= a < b
  {
    TwoDigits(b);
    if a >= 10 { TwoDigits(a); }
    RawLessExact(a, b);
  }

  /** The root of thirty is five; as written the first candidate, sixteen, is taken and the second refused.
      So it is up to thirty-five. */
  lemma RawSqrtMisses(value: nat)
    requires 30 <= value < 36
    ensures RawSqrtOf(value) == value / 2 + 1 >= 16 && !IsSqrt(RawSqrtOf(value), value)
  {
    var x := value / 2 + 1;
    var next := NewtonStep(value, x);
    FloorExact(value, x, 1);
    RawLessUpToTwoDigits(3, value);
    RawLessUpToTwoDigits(x, value);
    assert next == (1 + x) / 2 < 10;
    TwoDigits(x);
    RawLessExact(next, x);
    SteppingStarts(value);
    SteppingGoesOn(value, value, x);
    assert RawNewton(value, value, x) == RawNewton(value, x, next) == x;
    RawSqrtExact(value);
  }

  /** `calculateLPTokensIssued` as written: the freshly read supply is never the same object as zero, so it
      always takes the smaller proportion, and an empty reserve makes it throw. */
  function RawLiquidity(pool: Pool, a: int, b: int): Option<int> {
    if pool.reserve0 == 0 || pool.reserve1 == 0 then None
    else Some(RawMin(Proportion0(pool, a), Proportion1(pool, b)))
  }

  /** On a funded pool this is the intended liquidity exactly when the digits agree. On a first mint it throws
      if a reserve is empty, and otherwise answers zero, which is intended only where the root of the product
      is the locked minimum. */
  lemma RawLiquidityExact(pool: Pool, a: int, b: int)
    requires pool.reserve0 >= 0 && pool.reserve1 >= 0 && pool.totalSupply >= 0 && a >= 0 && b >= 0
    ensures RawLiquidity(pool, a, b) == None <==> pool.reserve0 == 0 || pool.reserve1 == 0
    ensures Funded(pool) ==>
              (RawLiquidity(pool, a, b) == Some(LiquidityFor(pool, a, b)) <==> DepositDigitsAgree(pool, a, b))
    ensures pool.totalSupply == 0 ==>
              (RawLiquidity(pool, a, b) == Some(LiquidityFor(pool, a, b)) <==>
               && pool.reserve0 > 0 && pool.reserve1 > 0
               && MINIMUM_LIQUIDITY * MINIMUM_LIQUIDITY <= a * b < (MINIMUM_LIQUIDITY + 1) * (MINIMUM_LIQUIDITY + 1))
  {
    if Funded(pool) {
      ProportionsNonNegative(pool, a, b);
      RawMinExact(Proportion0(pool, a), Proportion1(pool, b));
    } else if pool.totalSupply == 0 {
      MulMono(0, a, b);
      if IsSqrt(MINIMUM_LIQUIDITY, a * b) { RootIsSqrtOf(MINIMUM_LIQUIDITY, a * b); }
    }
  }
}
