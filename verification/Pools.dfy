/** The moving average-cost pool. */
module Pools {
  import opened Outcomes
  import opened Reals
  import opened Decimals
  import opened Proportions

  datatype Pool = Pool(quantity: real, basis: real)

  datatype PoolDisposal = PoolDisposal(disposed: real, allocatedBasis: real, remainingQuantity: real, remainingBasis: real)

  const EMPTY_POOL := Pool(0.0, 0.0)

  function PoolAcquisition(pool: Pool, quantity: real, basis: real): Result<Pool> {
    if quantity <= 0.0 then Failure(NotPositive)
    else if basis < 0.0 then Failure(NegativeAmount)
    else Success(Pool(pool.quantity + quantity, pool.basis + basis))
  }

  function PoolDisposalResult(pool: Pool, quantity: real): Result<PoolDisposal> {
    if quantity <= 0.0 then Failure(NotPositive)
    else if pool.quantity == 0.0 || quantity > pool.quantity then Failure(ExceedsOpenQuantity)
    else
      match AllocateProportional(pool.basis, pool.quantity, quantity)
      case Failure(e) => Failure(e)
      case Success(basis) =>
        if pool.quantity - quantity == 0.0 then Success(PoolDisposal(quantity, basis, 0.0, 0.0))
        else Success(PoolDisposal(quantity, basis, pool.quantity - quantity, pool.basis - basis))
  }

  function PoolAfter(pool: Pool, quantity: real): Pool {
    match PoolDisposalResult(pool, quantity)
    case Failure(_) => pool
    case Success(d) => Pool(d.remainingQuantity, d.remainingBasis)
  }

  /** An empty pool holds no basis. */
  ghost predicate WellFormedPool(pool: Pool) {
    0.0 <= pool.quantity && (pool.quantity == 0.0 ==> pool.basis == 0.0)
  }

  /** When a disposal succeeds, and what it takes: exactly the asked quantity and exactly the basis it reports, so
      nothing is lost when the pool resets at zero. */
  lemma PoolDisposalConserves(pool: Pool, quantity: real)
    requires WellFormedPool(pool)
    ensures PoolDisposalResult(pool, quantity).Success? <==> 0.0 < quantity <= pool.quantity && 0.0 <= pool.basis
    ensures PoolDisposalResult(pool, quantity).Success? ==>
              var disposal, after := PoolDisposalResult(pool, quantity).value, PoolAfter(pool, quantity);
              && WellFormedPool(after)
              && disposal.disposed == quantity && disposal.allocatedBasis == Share(pool.basis, pool.quantity, quantity)
              && after == Pool(pool.quantity - quantity, pool.basis - disposal.allocatedBasis)
              && after == Pool(disposal.remainingQuantity, disposal.remainingBasis)
  {
  }

  lemma AveragePricesTheBasis(basis: real, quantity: real, average: real)
    requires 0.0 < quantity && -0.5 <= average - basis / quantity <= 0.5
    ensures -0.5 * quantity <= average * quantity - basis <= 0.5 * quantity
  {
    DivideThenMultiply(basis, quantity);
    NearProduct(basis / quantity, average, quantity);
  }

  class AverageCostState {
    var quantity: real
    var basis: real

    function Contents(): Pool
      reads this
    {
      Pool(quantity, basis)
    }

    constructor ()
      ensures Contents() == EMPTY_POOL
    {
      quantity, basis := 0.0, 0.0;
    }

    method AddAcquisition(addedQuantity: real, addedBasis: real) returns (error: Option<Error>)
      modifies this
      ensures PoolAcquisition(old(Contents()), addedQuantity, addedBasis)
              == if error.Some? then Failure(error.value) else Success(Contents())
      ensures error.None? <==> addedQuantity > 0.0 && addedBasis >= 0.0
      ensures error.None? ==> quantity == old(quantity) + addedQuantity && basis == old(basis) + addedBasis
      ensures error.Some? ==> Contents() == old(Contents())
    {
      if addedQuantity <= 0.0 {
        return Some(NotPositive);
      }
      if addedBasis < 0.0 {
        return Some(NegativeAmount);
      }
      quantity := quantity + addedQuantity;
      basis := basis + addedBasis;
      return None;
    }

    method Dispose(disposed: real) returns (r: Result<PoolDisposal>)
      modifies this
      ensures r == PoolDisposalResult(old(Contents()), disposed)
      ensures Contents() == PoolAfter(old(Contents()), disposed)
    {
      if disposed <= 0.0 {
        return Failure(NotPositive);
      }
      if quantity == 0.0 || disposed > quantity {
        return Failure(ExceedsOpenQuantity);
      }
      var share := AllocateProportional(basis, quantity, disposed);
      if share.Failure? {
        return Failure(share.error);
      }
      var remainingQuantity, remainingBasis := quantity - disposed, basis - share.value;
      if remainingQuantity == 0.0 {
        quantity, basis := 0.0, 0.0;
        return Success(PoolDisposal(disposed, share.value, 0.0, 0.0));
      }
      quantity, basis := remainingQuantity, remainingBasis;
      return Success(PoolDisposal(disposed, share.value, remainingQuantity, remainingBasis));
    }

    /** The whole number of policy units nearest to the basis per quantity, zero for an empty pool; pricing the whole
        quantity at it misses the basis by at most half a unit for each unit of quantity. */
    method AverageUnitCost() returns (average: real)
      ensures quantity == 0.0 ==> average == 0.0
      ensures quantity != 0.0 ==> OnGrid(average) && IsNearest(basis / quantity, average.Floor)
      ensures quantity > 0.0 ==> -0.5 * quantity <= average * quantity - basis <= 0.5 * quantity
    {
      if quantity == 0.0 {
        average := 0.0;
      } else {
        average := RoundHalfUp(basis / quantity) as real;
        IntegersAreOnGrid(RoundHalfUp(basis / quantity));
        if quantity > 0.0 {
          AveragePricesTheBasis(basis, quantity, average);
        }
      }
    }
  }
}
