/** How the tests of the position library and of the token expect units to follow balances
    (test/protocol/lib/position.spec.ts) and real units to survive storage as virtual units
    (test/protocol/ckToken.spec.ts). */
module PositionEdits {
  import opened Arithmetic
  import opened MathUtils

  /** The unit after the token's balance moved from `preTotal` to `postTotal`. */
  function EditedUnit(supply: int, preTotal: int, postTotal: int, preUnit: int): int
    requires supply != 0
  {
    if postTotal > preTotal then preUnit + PreciseDiv(postTotal - preTotal, supply)
    else preUnit - PreciseDivCeil(preTotal - postTotal, supply)
  }

  /** Units follow a run of balances at a fixed supply; the first balance is the current one. */
  function UnitAlong(supply: int, unit: int, balances: seq<int>): int
    requires supply != 0 && |balances| >= 1
    decreases |balances|
  {
    if |balances| == 1 then unit
    else UnitAlong(supply, EditedUnit(supply, balances[0], balances[1], unit), balances[1..])
  }

  /** Holdings in excess of what the recorded unit claims for all tokens, in scaled units. */
  function Surplus(supply: int, unit: int, balance: int): int {
    PRECISE_UNIT * balance - unit * supply
  }

  /** One edit never turns surplus into unit, and books all of a change but less than one unit per token. */
  lemma EditKeepsSurplus(supply: int, preTotal: int, postTotal: int, unit: int)
    requires supply > 0
    ensures var before := Surplus(supply, unit, preTotal);
            var after := Surplus(supply, EditedUnit(supply, preTotal, postTotal, unit), postTotal);
            before <= after < before + supply
  {
    if postTotal > preTotal {
      var up := PreciseDiv(postTotal - preTotal, supply);
      PreciseDivBounds(postTotal - preTotal, supply);
      MulDistributes(unit, up, supply);
    } else {
      var down := PreciseDivCeil(preTotal - postTotal, supply);
      PreciseDivCeilBounds(preTotal - postTotal, supply);
      MulDistributes(unit, down, supply);
    }
  }

  /** Over any run of balances a collateralised position stays collateralised: the surplus never
      shrinks, and rounding adds less than one unit per token and edit. */
  lemma {:induction false} EditsStayCollateralised(supply: int, unit: int, balances: seq<int>)
    requires supply > 0 && |balances| >= 1
    ensures var last, u := balances[|balances| - 1], UnitAlong(supply, unit, balances);
            var first := Surplus(supply, unit, balances[0]);
            && first <= Surplus(supply, u, last) <= first + (|balances| - 1) * supply
            && (|balances| > 1 ==> Surplus(supply, u, last) < first + (|balances| - 1) * supply)
            && (unit * supply <= PRECISE_UNIT * balances[0] ==> u * supply <= PRECISE_UNIT * last)
    decreases |balances|
  {
    if |balances| > 1 {
      EditKeepsSurplus(supply, balances[0], balances[1], unit);
      EditsStayCollateralised(supply, EditedUnit(supply, balances[0], balances[1], unit), balances[1..]);
      MulDistributes(|balances| - 2, 1, supply);
    }
  }

  /** Moving a balance away and back never raises the unit, and lowers it by at most one. */
  lemma EditRoundTrip(supply: int, here: int, there: int, unit: int)
    requires supply > 0
    ensures unit - 1 <= UnitAlong(supply, unit, [here, there, here]) <= unit
  {
    var d := Abs(there - here);
    PreciseDivBounds(d, supply);
    PreciseDivCeilBounds(d, supply);
    var down, up := PreciseDivCeil(d, supply), PreciseDiv(d, supply);
    var away := EditedUnit(supply, here, there, unit);
    assert [here, there, here][1..] == [there, here] && [there, here][1..] == [here];
    assert UnitAlong(supply, away, [there, here]) == EditedUnit(supply, there, here, away);
    assert UnitAlong(supply, unit, [here, there, here]) == EditedUnit(supply, there, here, away);
    MulDistributes(down, up, supply);
    if down < up { MulMono(down + 1, up, supply); MulDistributes(down, 1, supply); }
    if down > up + 1 { MulMono(up + 2, down, supply); MulDistributes(up, 2, supply); }
  }

  /** Stored form of a real unit. */
  function VirtualUnit(realUnit: int, multiplier: int): int
    requires multiplier != 0
  {
    DivDown(realUnit * PRECISE_UNIT, multiplier)
  }

  /** Real unit read back from storage. */
  function RealUnit(virtualUnit: int, multiplier: int): int {
    DivDown(virtualUnit * multiplier, PRECISE_UNIT)
  }

  /** Storing and reading back is conservative: the unit read never exceeds the unit requested, for
      assets and debts alike, and falls short of it by less than 1 + m/P. */
  lemma ConversionIsConservative(realUnit: int, multiplier: int)
    requires multiplier > 0
    ensures var back := RealUnit(VirtualUnit(realUnit, multiplier), multiplier);
            back <= realUnit && PRECISE_UNIT * (realUnit - back) < PRECISE_UNIT + multiplier
  {
    var v := VirtualUnit(realUnit, multiplier);
    DivDownIsFloor(realUnit * PRECISE_UNIT, multiplier, v);
    DivDownIsFloor(realUnit * PRECISE_UNIT, multiplier, v + 1);
    var back := RealUnit(v, multiplier);
    DivDownIsFloor(v * multiplier, PRECISE_UNIT, back);
    DivDownIsFloor(v * multiplier, PRECISE_UNIT, back + 1);
    MulDistributes(v, 1, multiplier);
  }

  /** Without the stored unit: what is read back is the greatest unit that some stored unit pays for which the
      real unit pays for in turn. */
  lemma ConversionIsGreatest(realUnit: int, multiplier: int, k: int)
    requires multiplier > 0
    ensures k <= VirtualUnit(realUnit, multiplier) <==> k * multiplier <= realUnit * PRECISE_UNIT
    ensures k <= RealUnit(VirtualUnit(realUnit, multiplier), multiplier) <==>
            exists v :: v * multiplier <= realUnit * PRECISE_UNIT && k * PRECISE_UNIT <= v * multiplier
  {
    var stored := VirtualUnit(realUnit, multiplier);
    DivDownIsFloor(realUnit * PRECISE_UNIT, multiplier, k);
    DivDownIsFloor(realUnit * PRECISE_UNIT, multiplier, stored);
    DivDownIsFloor(stored * multiplier, PRECISE_UNIT, k);
    if exists v :: v * multiplier <= realUnit * PRECISE_UNIT && k * PRECISE_UNIT <= v * multiplier {
      var v :| v * multiplier <= realUnit * PRECISE_UNIT && k * PRECISE_UNIT <= v * multiplier;
      DivDownIsFloor(realUnit * PRECISE_UNIT, multiplier, v);
      MulMono(v, stored, multiplier);
    }
  }

  /** A unit survives the round trip exactly when the multiplier divides its scaled value. */
  lemma ConversionIsExactIff(realUnit: int, multiplier: int)
    requires multiplier > 0
    ensures RealUnit(VirtualUnit(realUnit, multiplier), multiplier) == realUnit <==>
            (realUnit * PRECISE_UNIT) % multiplier == 0
  {
    var n := realUnit * PRECISE_UNIT;
    var v := VirtualUnit(realUnit, multiplier);
    DivDownIsFloor(n, multiplier, v);
    DivDownIsFloor(n, multiplier, n / multiplier);
    FloorAdjoint(v, n, multiplier);
    FloorAdjoint(n / multiplier, n, multiplier);
    assert v == n / multiplier;
    DivDownIsFloor(v * multiplier, PRECISE_UNIT, realUnit);
    ConversionIsConservative(realUnit, multiplier);
    assert n == v * multiplier + n % multiplier;
  }
}
