/** The documented allocation formula, which rounds a unit cost first, against the allocation the code performs. */
module UnitCosts {
  import opened Reals
  import opened Decimals
  import opened Proportions

  /** The rounded unit cost times the portion. */
  function UnitCostShare(total: real, quantity: real, portion: real): real
    requires quantity != 0.0
  {
    Product(RoundHalfUp(total / quantity) as real, portion)
  }

  /** An amount of one policy unit over a quantity of three: two thirds of it are one unit by the code and nothing by
      the documented formula. */
  lemma DocumentedFormulaDiffers()
    ensures Share(1.0, 3.0, 2.0) == 1.0 && UnitCostShare(1.0, 3.0, 2.0) == 0.0
  {
    RoundedThirds(1.0 / 3.0, 2.0 / 3.0);
  }

  lemma RoundedThirds(third: real, twoThirds: real)
    requires third * 3.0 == 1.0 && twoThirds * 3.0 == 2.0
    ensures RoundHalfUp(third) == 0 && RoundHalfUp(twoThirds) == 1
  {
    NearestIsUnique(third, RoundHalfUp(third), 0);
    NearestIsUnique(twoThirds, RoundHalfUp(twoThirds), 1);
  }

  lemma ShareOfUnitCost(total: real, quantity: real, portion: real)
    requires quantity != 0.0
    ensures ExactShare(total, quantity, portion) == Product(total / quantity, portion)
  {
    DivideThenMultiply(total, quantity);
    ProductOfQuotient(total, quantity, portion, total / quantity);
  }

  lemma ProductOfQuotient(total: real, quantity: real, portion: real, unit: real)
    requires quantity != 0.0 && unit * quantity == total
    ensures total * portion / quantity == Product(unit, portion)
  {
    assert unit * portion * quantity == total * portion by { assert unit * portion * quantity == unit * quantity * portion; }
    QuotientIsUnique(total * portion, quantity, unit * portion);
  }

  /** The two never differ by more than half a unit and half the portion. */
  lemma FormulasStayClose(total: real, quantity: real, portion: real)
    requires 0.0 < quantity && 0.0 < portion
    ensures -0.5 - 0.5 * portion <= Share(total, quantity, portion) - UnitCostShare(total, quantity, portion) <= 0.5 + 0.5 * portion
  {
    hide Share, Product, ExactShare, RoundHalfUp;
    ShareIsNear(total, quantity, portion);
    ShareOfUnitCost(total, quantity, portion);
    var unit := total / quantity;
    NearUnit(unit);
    NearProduct(unit, RoundHalfUp(unit) as real, portion);
  }

  lemma NearUnit(unit: real)
    ensures -0.5 <= RoundHalfUp(unit) as real - unit <= 0.5
  {
  }

  /** For a whole lot or pool the formulas agree exactly when the unit cost is on the grid. */
  lemma WholeQuantitiesAgreeOnGridUnitCosts(total: real, quantity: real)
    requires 0.0 < quantity
    ensures UnitCostShare(total, quantity, quantity) == Share(total, quantity, quantity) <==> OnGrid(total / quantity)
  {
    DivideThenMultiply(total, quantity);
    var unit := total / quantity;
    var rounded := RoundHalfUp(unit) as real;
    CancelOrder(rounded, unit, quantity);
    CancelOrder(unit, rounded, quantity);
    assert UnitCostShare(total, quantity, quantity) == total <==> rounded == unit;
    if OnGrid(unit) {
      RoundOfInteger(unit.Floor);
    } else {
      IntegersAreOnGrid(RoundHalfUp(unit));
    }
  }

  /** What rounding the unit cost first adds to the exact share of the portion. */
  function UnitRoundingDrift(total: real, quantity: real, portion: real): real
    requires quantity != 0.0
  {
    Product(RoundHalfUp(total / quantity) as real - total / quantity, portion)
  }

  /** A partial portion is allocated alike by both formulas if and only if the rounded unit cost times the portion is
      whole, and rounding the unit cost moved the portion's share by no more than the rounding of the share itself. */
  lemma PartialPortionsAgreeExactlyWhen(total: real, quantity: real, portion: real)
    requires 0.0 <= total && 0.0 < quantity && 0.0 < portion && portion != quantity
    ensures UnitCostShare(total, quantity, portion) == Share(total, quantity, portion)
            <==> OnGrid(UnitCostShare(total, quantity, portion)) && -0.5 < UnitRoundingDrift(total, quantity, portion) <= 0.5
  {
    hide Product, ExactShare, RoundHalfUp;
    var unit, exact := total / quantity, ExactShare(total, quantity, portion);
    var documented, drift := UnitCostShare(total, quantity, portion), UnitRoundingDrift(total, quantity, portion);
    ShareOfUnitCost(total, quantity, portion);
    DifferenceTimes(RoundHalfUp(unit) as real, unit, portion);
    UnitIsNonNegative(total, quantity);
    ProductSign(unit, portion);
    if exact == 0.0 {
      FreePortionHasNoDrift(total, quantity, portion);
    }
    IntegersAreOnGrid(RoundHalfUp(exact));
    if OnGrid(documented) && -0.5 < drift <= 0.5 {
      NearestIsUnique(exact, RoundHalfUp(exact), documented.Floor);
    }
  }

  lemma UnitIsNonNegative(total: real, quantity: real)
    requires 0.0 <= total && 0.0 < quantity
    ensures 0.0 <= total / quantity
  {
    DivideThenMultiply(total, quantity);
    CancelOrder(0.0, total / quantity, quantity);
  }

  /** A portion whose exact share is nothing costs nothing. */
  lemma FreePortionHasNoDrift(total: real, quantity: real, portion: real)
    requires 0.0 < quantity && 0.0 < portion && ExactShare(total, quantity, portion) == 0.0
    ensures UnitRoundingDrift(total, quantity, portion) == 0.0
  {
  }

  /** For any portion they agree when the unit cost is on the grid, if and only if the portion's exact share is too or
      the portion is the whole. */
  lemma GridUnitCostsAgree(total: real, quantity: real, portion: real)
    requires 0.0 < quantity && OnGrid(total / quantity)
    ensures UnitCostShare(total, quantity, portion) == Share(total, quantity, portion)
            <==> portion == quantity || OnGrid(ExactShare(total, quantity, portion))
  {
    hide Product, RoundHalfUp;
    var unit := total / quantity;
    RoundOfInteger(unit.Floor);
    ShareOfUnitCost(total, quantity, portion);
    assert UnitCostShare(total, quantity, portion) == ExactShare(total, quantity, portion);
    if portion == quantity {
      ExactShareOfWhole(total, quantity);
    } else {
      var exact := ExactShare(total, quantity, portion);
      if OnGrid(exact) {
        RoundOfInteger(exact.Floor);
      } else {
        IntegersAreOnGrid(RoundHalfUp(exact));
      }
    }
  }
}
