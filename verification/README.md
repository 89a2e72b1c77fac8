# Capital-gains report engine: a verified model

This project models the calculation core of a crypto capital-gains report generator and proves properties of it. The
program replays a history of BUY and SELL activities per asset under one of five cost-basis methods (FIFO, LIFO, HIFO,
moving average, scope-local hybrid), derives the opening and closing positions and the realized gains of one year, and
writes the report. Around the core the model covers the normalization and validation of the synced history, currency
conversion, value formatting, PDF table pagination, the report file writer and the paginated activity fetch.

## How it is modelled

- **Money** is a `real` in policy units: one unit is the last decimal place of the active decimal policy (16 places by
  default), so "on the grid" means "a whole number" at every scale. `Decimals` also models the integer rounding
  algorithm itself and proves that it is rounding of the exact quotient. Quantities are `real`.
- **State** keeps the form of the program. Lot state, pool state, scope state, replay state, report aggregation, rate
  cache and service, PDF document and output directory are classes whose methods update fields; loops carry invariants.
  Every such method is proved equal to a function of the old state, and the theorems are about those functions and about
  runs of them.
- **Failure** is a `Result` without text. A refused disposal is not rolled back; the model says what it leaves behind,
  under every method.
- **Time** is a day number, 0 being the first of January of year 1 and the zero time. A record has the calendar day of
  its own offset; the year is the Gregorian year of that day (`Calendar`).
- **The outside world**: rate providers and the activity server are arbitrary functions; the output directory is driven
  by an arbitrary finite script of faults and of files that other processes create.

## Main results

- HIFO is optimal up to half a policy unit; over whole histories FIFO is a queue and LIFO a stack of acquired units, and
  HIFO leaves nothing costlier, and nothing equally costly and older, beside what it takes from.
- Two removals equal one of their sum under FIFO and LIFO; under HIFO exactly when no other lot overtakes the one left
  partly removed, or the second removal clears it.
- Every method conserves quantity and basis over every successful history; methods that end at zero allocated the same.
- Rounding drift is bounded over whole histories for lots, for the pool and for every hybrid scope, and it can refuse a
  disposal exactly when acquired bases have too large a fraction of a policy unit, under every method.
- The hybrid machine keeps its invariant over every run, moves between its modes as documented, and is the product of
  independent per-scope machines. Inside one scope it allocates what average cost would, in either mode.
- Checking each synced record against the one before it orders the whole history, and a normalized history always passes
  that check; it is accepted exactly when its records are sound and no day ends with more sold of a symbol than bought.
- Every section of the report of an accepted history is what its activities say: gross value plus fee for each BUY, gross
  value minus fee minus allocated basis for each priced SELL, up to the yearly total, and no assumption is made about the
  order of the activities. Each amount is the record's own, or exchanged at the rate of its own currency and day.
- Holdings are validated by symbol but replayed by identity key, and by scope under the hybrid. A report is refused for
  the quantity of a sale only when some key (some scope) is oversold, and never calculated then; an accepted history
  oversells none when records of one symbol have one key (and no asset is narrowed to scopes).
- The audit trail is unbroken.
- Memoised currency conversion equals a fresh lookup for every row and asks for each key once.
- Greedy pagination succeeds exactly when the rows can be placed at all and uses the fewest pages.
- The bundle write is success or cleanup against any disturbance.

## Two promises the code does not keep

- *The remaining basis is never negative.* One partial disposal may be rounded up beyond a basis that is not on the
  grid, and the next disposal is then refused. `Proportions.NeverOverAllocates` and
  `Drift.DisposalsNeverGetStuckExactlyWhen` give the exact condition for one amount, the fraction of a policy unit in
  the basis being at most one half; `Proportions.OverAllocationWitness` is a concrete case. Over whole histories
  `LotRefusals.HistoriesAreNeverRefusedExactlyWhen` gives the condition for FIFO, LIFO and HIFO, every acquired basis
  having such a fraction, and `PoolRefusals.PoolHistoriesAreNeverRefusedExactlyWhen` for the average-cost pool, every
  run of consecutive acquisitions adding up to one. The hybrid's condition is the pool's, in every scope
  (`HybridRefusals.HybridHistoriesAreNeverRefusedExactlyWhen`). Histories whose bases are on the grid never fail for
  rounding, under any method (`GridRuns.WholeHistoriesFailOnlyForQuantity`).
- *Unit costs are rounded before they are multiplied* (requirement FR-019b of the repository's own gains-report
  documentation, and its method definitions). The code multiplies first and divides once. The model follows the code;
  `UnitCosts` shows that the two differ, bounds the difference, and says exactly when they agree: for a whole lot when
  the unit cost is on the grid, for a part when the rounded unit cost times the part is whole and rounding the unit cost
  moved the share of the part by at most half a unit.

## Model

| member | source | states |
|---|---|---|
| Decimals.RoundedQuotientIsRounding | internal/support/math/rounding.go:19-41 | The truncate-and-compare integer algorithm is half-up (away from zero) rounding of the exact quotient, for every sign combination |
| Decimals.DivideFiniteRounds | internal/support/math/decimal_ops.go:182-198 | Dividing finite decimals succeeds exactly for a supported scale and a nonzero divisor, and yields the exact quotient rounded to the scale |
| Decimals.RoundIsMonotone | internal/support/math/rounding.go:19-41 | Rounding never reverses an order |
| Proportions.ShareIsNear | internal/support/math/decimal_ops.go:362-412 | An allocated share is within half a unit of the exact proportional share |
| Proportions.ShareIsMonotone | internal/support/math/decimal_ops.go:362-412 | A larger partial portion never gets a smaller share |
| Proportions.NeverOverAllocates | internal/support/math/decimal_ops.go:362-412 | No portion that is a finite decimal is allocated more than the whole amount if and only if the amount's fraction of a policy unit is at most one half |
| Proportions.OverAllocationWitness | internal/support/math/decimal_ops.go:378-411 | A concrete amount is over-allocated, and allocating its negative rest is refused |
| UnitCosts.DocumentedFormulaDiffers | internal/report/basis/lot_methods.go:412-427 | On a concrete lot the documented unit-cost-first formula and the code allocate different amounts |
| UnitCosts.FormulasStayClose | internal/report/basis/lot_methods.go:412-427 | The two formulas differ by at most half a unit plus half the portion |
| UnitCosts.WholeQuantitiesAgreeOnGridUnitCosts | internal/report/basis/lot_methods.go:412-427 | For a whole lot they agree if and only if the unit cost is on the grid |
| UnitCosts.PartialPortionsAgreeExactlyWhen | internal/report/basis/lot_methods.go:412-427 | For a part of a lot, whatever the unit cost, they agree if and only if the rounded unit cost times the part is whole and within half a unit of the exact share, a tie only upwards |
| UnitCosts.GridUnitCostsAgree | internal/report/basis/lot_methods.go:412-427 | With a unit cost on the grid they agree if and only if the portion is the whole or its exact share is on the grid |
| LotOrder.CrossMultiplicationComparesUnitCosts | internal/report/basis/lot_methods.go:365-377 | The cross-multiplied comparison of open lots is the comparison of their unit costs |
| Text.CompareIsLexicographic | internal/sync/model/activity_ordering.go:85-108 | The comparison of texts is lexicographic order: at the first place where they differ one ends or has the smaller character |
| Text.TrimSpaceStripsSpace | internal/report/calculate/activity_input.go:44-52 | Trimming takes away white space only, and all of it at both ends |
| LotOrder.ChronologyIsEarlier | internal/report/basis/lot_methods.go:330-343 | The comparison of lots in time finds the earlier day, on one day the earlier place, there the smaller identifier |
| LotOrder.ComparisonIsTotal | internal/report/basis/lot_methods.go:313-360 | Comparing two open lots the other way round reverses the answer, under every method |
| LotOrder.ComparisonIsTransitive | internal/report/basis/lot_methods.go:313-377 | The comparisons of open lots are transitive under every method |
| LotOrder.PositionsAreWeaklyOrdered | internal/report/basis/lot_methods.go:313-324 | The sort predicate is a strict weak order on the open lots |
| LotOrder.DisposalOrderIsPermutation | internal/report/basis/lot_methods.go:295-309 | The disposal order lists every open lot once and no closed lot |
| LotOrder.DisposalOrderIsSorted | internal/report/basis/lot_methods.go:295-324 | No lot stands behind one it must precede |
| DisposalOrders.DisposalOrderIsTakenFirst | internal/report/basis/lot_methods.go:295-377 | Of any two open lots the one listed first is taken first by its days, places, unit costs and position alone: FIFO earlier, LIFO later, HIFO costlier and then earlier, ties in acquisition order |
| DisposalOrders.CostliestThenOldest | internal/report/basis/lot_methods.go:345-360 | With chronological lots HIFO lists costlier lots first and of equally costly ones those acquired earlier |
| StableSorting.StableSortIsStable | internal/report/basis/lot_methods.go:304-306 | Of open lots that tie, the one acquired first stays first |
| LotState.LotMethodState.constructor | internal/report/basis/lot_methods.go:95-101 | A new state has its method and no lots |
| LotState.LotMethodState.AddAcquisition | internal/report/basis/lot_methods.go:106-119 | A lot with an identifier, a date, a positive quantity and a non-negative basis, and no other, is appended with its identifier trimmed; any other changes nothing |
| LotState.LotMethodState.OpenLotIndexes | internal/report/basis/lot_methods.go:295-309 | The collecting and sorting loop computes the disposal order |
| LotState.LotMethodState.Dispose | internal/report/basis/lot_methods.go:124-156 | The in-place loop returns the specified result and leaves the specified lots, on success and on failure |
| LotState.LotMethodState.DisposeFromLot | internal/report/basis/lot_methods.go:166-225 | Taking from one lot changes that lot alone, by the matched quantity and its allocated basis |
| LotState.LotMethodState.GetOpenLots | internal/report/basis/lot_methods.go:239-253 | The loop lists the open lots in acquisition order, as many as there are positions with quantity left |
| LotState.LotMethodState.OpenLotCount | internal/report/basis/lot_methods.go:257-259 | The count is the number of positions whose lot has quantity left |
| LotState.LotMethodState.GetTotalOpenQuantity | internal/report/basis/lot_methods.go:263-275 | The loop over the open lots yields the total open quantity |
| LotState.LotMethodState.GetTotalOpenBasis | internal/report/basis/lot_methods.go:279-291 | The loop over the open lots yields the total open basis |
| LotProperties.ConsumeTakesExactly | internal/report/basis/lot_methods.go:124-188 | Without recursion: which lots a disposal reaches, what each gives, the match for each, and that all others are untouched |
| LotTheorems.DisposalSucceedsExactlyWhen | internal/report/basis/lot_methods.go:124-156 | A disposal succeeds if and only if its quantity is positive and at most the open total and no reached lot has a negative basis |
| LotTheorems.DisposalConserves | internal/report/basis/lot_methods.go:124-225 | Match quantities sum to the disposed quantity, match bases to the allocated basis, the totals shrink by exactly both, no lot goes negative and every lot keeps its identity |
| LotTheorems.RefusedExcessEmptiesTheLots | internal/report/basis/lot_methods.go:137-153 | A refused excessive disposal has already emptied every lot |
| DisposalOrders.ReachedInOrder | internal/report/basis/lot_methods.go:124-188 | Under every method a disposal that took anything from a lot has emptied every open lot that is taken before it |
| DisposalOrders.HighestCostLeavesNoneCostlier | internal/report/basis/lot_methods.go:124-188 | A HIFO disposal leaves no costlier open lot, and no equally costly older one, beside a lot it took from |
| FragmentSources.LotFragmentsAreWhatLotsLost | internal/report/basis/lot_methods.go:124-225 | The fragments of a disposal follow the disposal order, each with the identifier of its lot and exactly the quantity and basis that lot lost, and no other lot lost anything |
| HighestCost.HighestCostIsOptimal | internal/report/basis/lot_methods.go:124-188 | A HIFO disposal allocates at least the exact basis of every feasible split of the quantity over the open lots, less half a unit |
| HighestCost.GreedyBeatsSplits | internal/report/basis/lot_methods.go:124-188 | Taking costliest lots first, only the last partially, costs at least any split, less half a unit |
| QueueAndStack.FifoCutsTheFront | internal/report/basis/lot_methods.go:124-188 | With chronological lots a FIFO disposal matches exactly the front of the line of open units and keeps the rest in place |
| QueueAndStack.LifoPopsTheEnd | internal/report/basis/lot_methods.go:124-188 | With chronological lots a LIFO disposal matches exactly the end of the line and keeps the rest in place |
| QueueRuns.FifoRunIsAQueue | internal/report/basis/lot_methods.go:106-188 | Over any chronological run the removed units are the front of the acquisition line and the open ones the rest |
| QueueRuns.FifoRemovalCutsTheLine | internal/report/basis/lot_methods.go:124-188 | After D removed units a FIFO removal of q matches the cut of the interval from D to D+q of the acquisition line |
| StackRuns.LifoRunIsAStack | internal/report/basis/lot_methods.go:106-188 | Over any chronological run the open lots are the stack of acquisitions pushed whole and popped from the end |
| TwoRemovals.RemovingTwiceIsRemovingTheSumExactlyWhen | internal/report/basis/lot_methods.go:124-188 | Under every lot method, when removals of a and then b succeed so does one of a+b, and it leaves the same quantities if and only if no lot overtakes the one the first left partly removed, or the second clears it and all that overtook it |
| TwoRemovals.QueuesAndStacksRemoveAlike | internal/report/basis/lot_methods.go:124-188 | Under FIFO and LIFO removing a and then b always leaves the quantities that removing a+b leaves |
| TwoRemovals.HighestCostRemovingTwiceDiffers | internal/report/basis/lot_methods.go:348-377 | Under HIFO a concrete pair of equal lots where the two differ |
| LotDrift.LotDriftIsBounded | internal/report/basis/lot_methods.go:124-225 | Under every lot method and over every successful history, the remaining basis of a lot that k removals changed is within k/2 units of the exact share of the basis it was acquired with |
| LotRefusals.HistoriesAreNeverRefusedExactlyWhen | internal/report/basis/lot_methods.go:106-225 | Under every lot method no history over given acquisitions is refused for rounding if and only if every acquired basis has a fraction of a policy unit of at most one half |
| Pools.AverageCostState.constructor | internal/report/basis/average_cost.go:38-40 | A new pool is empty |
| Pools.AverageCostState.AddAcquisition | internal/report/basis/average_cost.go:53-77 | A positive quantity with a non-negative basis, and nothing else, is added to the pool; anything else changes nothing |
| Pools.AverageCostState.Dispose | internal/report/basis/average_cost.go:93-137 | The method returns the specified result and pool, reset at zero, unchanged on failure |
| Pools.AverageCostState.AverageUnitCost | internal/report/basis/average_cost.go:189-203 | The whole number of policy units nearest to the basis per quantity, zero for an empty pool; pricing the whole quantity at it misses the basis by at most half a unit per unit of quantity |
| Pools.PoolDisposalConserves | internal/report/basis/average_cost.go:93-137 | When a pool disposal succeeds and that it takes exactly the quantity and the basis it reports, the reset at zero losing nothing |
| FragmentSources.PoolFragmentIsTheWhole | internal/report/calculate/basis_state.go:162-169 | A pool reports one fragment, under its own name, for the whole quantity and its share of the basis |
| Drift.DriftIsBounded | internal/report/basis/average_cost.go:93-137 | After k partial disposals the remaining basis is within k/2 units of the exact proportional share of the original |
| Drift.DisposalsNeverGetStuckExactlyWhen | internal/report/basis/average_cost.go:106-127 | Every way of disposing of finite decimal quantities piece by piece succeeds if and only if the basis has a fraction of at most half a unit |
| PoolHistories.PoolHistoryDriftIsBounded | internal/report/basis/average_cost.go:53-137 | Over every successful history of acquisitions and removals the pool basis is within half a unit, per removal since the pool was last empty, of the basis an unrounded average would have left |
| PoolRefusals.PoolHistoriesAreNeverRefusedExactlyWhen | internal/report/basis/average_cost.go:53-137 | No pool history over given acquisitions is refused for rounding if and only if the bases of every run of consecutive acquisitions add up to a fraction of at most half a unit |
| HybridScopes.ActivationKeepsTotals | internal/report/basis/scope_local_hybrid.go:279-312 | Fallback activation moves the whole open quantity and basis into the pool, oldest provenance first, and is refused only for a negative basis |
| ProvenanceQueues.ActivationRemembersTheOpenLots | internal/report/basis/scope_local_hybrid.go:279-312 | A fallback started from chronological lots remembers exactly the open ones, in their order, each by identifier, day, place and quantity |
| ProvenanceQueues.FallbackRemembersTheAcquisition | internal/report/basis/scope_local_hybrid.go:86-123 | An acquisition in fallback adds one entry that remembers it and loses none |
| ProvenanceQueues.ConsumptionCutsTheFront | internal/report/basis/scope_local_hybrid.go:317-349 | Consuming takes the units in front: what is left of an entry is what lies behind the consumed quantity, and nothing else of it changes |
| FragmentSources.ScopeFragmentIsTheWhole | internal/report/calculate/basis_state.go:198-221 | A scope reports one fragment, under its key, for the whole quantity and its share of the basis, unless it is exact with a single open lot |
| FragmentSources.SingleLotFragmentIsItsOwn | internal/report/basis/scope_local_hybrid.go:147-161 | Such a scope reports one fragment, under the identifier of that lot, with the lot's share of its basis |
| HybridScopes.ConsumingProvenance | internal/report/basis/scope_local_hybrid.go:317-349 | Consuming the queue takes the asked quantity as far as it goes, and no entry goes negative |
| HybridScopes.SortedProvenanceIsOldestFirst | internal/report/basis/scope_local_hybrid.go:354-368 | Sorting puts the provenance oldest first |
| HybridTheorems.AcquisitionKeepsScope | internal/report/basis/scope_local_hybrid.go:86-121 | An acquisition is refused only by validation, starts a scope in exact mode, never changes an open scope's mode and adds exactly its quantity and basis |
| HybridTheorems.DisposalKeepsScope | internal/report/basis/scope_local_hybrid.go:125-168 | When a scope disposal succeeds, what it takes, how the mode moves, and that the provenance-exhausted and nothing-open errors cannot occur |
| HybridMachine.HybridRun | internal/report/basis/scope_local_hybrid.go:86-168 | After every successful run each stored scope has positive quantity, is in one mode, and in fallback its provenance sums to the pool, oldest first |
| HybridMachine.AcquisitionKeepsScopes | internal/report/basis/scope_local_hybrid.go:86-121 | An acquisition touches its own scope only and raises the totals by exactly its quantity and basis |
| HybridMachine.DisposalKeepsScopes | internal/report/basis/scope_local_hybrid.go:125-168 | A disposal touches its own scope only, lowers the totals by exactly what it reports, and forgets the scope exactly when it reports zero |
| HybridDecomposition.HybridDecomposes | internal/report/basis/scope_local_hybrid.go:125-168 | A history succeeds if and only if every scope's machine succeeds on its projection, with the same scopes and the same disposals |
| ScopePools.ScopeDisposalIsPooled | internal/report/basis/scope_local_hybrid.go:125-168 | A disposal that a scope accepts in either mode, a pool of its quantity and basis accepts too, allocating the same basis, leaving the same totals and reaching zero at the same time |
| ScopePools.ScopeRunIsPooled | internal/report/basis/scope_local_hybrid.go:86-168 | A history that a scope accepts the average-cost pool accepts, and both end with the same quantity and basis |
| ScopePools.PooledHistoriesAreAccepted | internal/report/basis/scope_local_hybrid.go:86-168 | With a fraction of at most half a unit in every acquired basis the converse holds |
| ScopePools.ToppedUpLotsAreRefused | internal/report/basis/scope_local_hybrid.go:279-312 | Without it the converse fails: a lot rounded negative and topped up by a later purchase is accepted by the pool and refused by the scope |
| ScopePools.ScopeHistoriesAreNeverRefusedExactlyWhen | internal/report/basis/scope_local_hybrid.go:86-168 | No history of one scope over given acquisitions is refused for rounding if and only if the bases of every run of consecutive acquisitions add up to a fraction of at most half a unit |
| HybridRefusals.HybridHistoriesAreNeverRefusedExactlyWhen | internal/report/basis/scope_local_hybrid.go:86-168 | No history of all scopes over given acquisitions is refused for rounding if and only if that condition holds in every scope |
| HybridRefusals.HybridDriftIsBounded | internal/report/basis/scope_local_hybrid.go:86-168 | After every successful history each scope holds the quantity of the unrounded average of its own events, and a basis within half a unit per removal since it was last empty |
| HybridModes.FallbackPersists | internal/report/basis/scope_local_hybrid.go:146-167 | A scope in fallback stays there through every later event until a disposal reports zero |
| HybridModes.ReacquisitionRestartsExact | internal/report/basis/scope_local_hybrid.go:229-268 | The acquisition after zero starts the scope again in exact mode with that lot alone |
| HybridState.ScopeLocalOpenState.constructor | internal/report/basis/scope_local_hybrid.go:229-248 | A new scope is exact and without lots |
| HybridState.ScopeLocalOpenState.SortFallbackProvenance | internal/report/basis/scope_local_hybrid.go:354-368 | Afterwards the provenance is oldest first, with the same entries |
| HybridState.ScopeLocalOpenState.AddAcquisition | internal/report/basis/scope_local_hybrid.go:98-119 | The acquisition goes to the lots in exact mode and to pool and sorted provenance in fallback |
| HybridState.ScopeLocalOpenState.ActivateFallback | internal/report/basis/scope_local_hybrid.go:279-312 | The loop swaps the lots for the specified pool and provenance; a refused activation leaves the scope in fallback with what was pooled before |
| HybridState.ScopeLocalOpenState.ConsumeFallbackProvenance | internal/report/basis/scope_local_hybrid.go:317-349 | The in-place loop consumes the queue as specified and reports an excess |
| HybridState.ScopeLocalHybridState.constructor | internal/report/basis/scope_local_hybrid.go:80-82 | A new state has no scopes |
| HybridState.ScopeLocalHybridState.EnsureScopeState | internal/report/basis/scope_local_hybrid.go:229-248 | The scope's object is returned, created in exact mode when missing, and no other scope changes |
| HybridState.ScopeLocalHybridState.AddAcquisition | internal/report/basis/scope_local_hybrid.go:86-121 | The method is the specified acquisition on the map of scopes; a refused one changes nothing |
| HybridState.ScopeLocalHybridState.DisposeWithFallback | internal/report/basis/scope_local_hybrid.go:253-268 | Pool and provenance shrink together and a used-up scope is deleted; what a refusal leaves of the scope |
| HybridState.ScopeLocalHybridState.DisposeExactly | internal/report/basis/scope_local_hybrid.go:146-160 | With one open lot the disposal is exact and a used-up scope is deleted; a refusal leaves the lots as far as they were taken |
| HybridState.ScopeLocalHybridState.ActivateAndDispose | internal/report/basis/scope_local_hybrid.go:160-168 | With several open lots the scope moves to fallback and disposes from there; a refusal undoes neither |
| HybridState.ScopeLocalHybridState.Dispose | internal/report/basis/scope_local_hybrid.go:125-168 | The method is the specified disposal on the map of scopes, and what a refusal leaves of them |
| HybridState.ScopeLocalHybridState.GetTotalOpenQuantity | internal/report/basis/scope_local_hybrid.go:173-197 | The total over the scopes, whatever order the map is walked in |
| HybridState.ScopeLocalHybridState.GetTotalOpenBasis | internal/report/basis/scope_local_hybrid.go:201-225 | The basis total over the scopes, whatever order the map is walked in |
| BasisAdapters.NewAssetBasisState | internal/report/calculate/basis_state.go:74-101 | Each method gets its own empty state object |
| BasisAdapters.DisposeLots | internal/report/calculate/basis_state.go:118-139 | The lot adapter copies every fragment and reports zero exactly when nothing is open |
| BasisAdapters.DisposePool | internal/report/calculate/basis_state.go:162-169 | The pool adapter reports one fragment for the whole disposal |
| BasisAdapters.DisposeScope | internal/report/calculate/basis_state.go:198-221 | The scope adapter copies the fragments, or reports one for the scope when there are none; a refusal leaves what the scopes then hold |
| BasisAdapters.AssetBasisState.AddAcquisition | internal/report/calculate/basis_state.go:105-194 | The live objects follow the recorded position of whichever method; a refused acquisition changes nothing |
| BasisAdapters.AssetBasisState.Dispose | internal/report/calculate/basis_state.go:118-221 | The live objects and the result follow the recorded position of whichever method, also when the disposal is refused |
| BasisAdapters.AssetBasisState.OpenQuantity | internal/report/calculate/basis_state.go:143-227 | The open quantity of whichever method |
| BasisAdapters.AssetBasisState.OpenBasis | internal/report/calculate/basis_state.go:149-233 | The open basis of whichever method |
| BasisModel.AcquisitionConserves | internal/report/calculate/basis_state.go:105-194 | Under every method an acquisition adds exactly its quantity and basis |
| BasisModel.DisposalAlwaysBalances | internal/report/calculate/basis_state.go:118-221 | Under every method a disposal takes exactly its quantity and reported basis, its fragments add up to both, and an asset at zero reports it and keeps no basis |
| MethodRuns.LifetimeConservation | internal/report/calculate/basis_state.go:74-233 | Over every successful history acquired basis equals allocated plus open basis, and likewise quantity, under all five methods |
| MethodRuns.MethodsAgreeAtZero | internal/report/calculate/basis_state.go:74-233 | Two methods always agree on the open quantity, and at zero on the total allocated basis |
| Agreement.MethodsAgreeWithoutOverlap | internal/report/calculate/basis_state.go:74-233 | On a single-scope history with at most one open lot at each disposal all methods succeed together and report the same basis and the same zero transitions |
| HybridAgreement.HybridIsAverageCostInsideAScope | internal/report/calculate/basis_state.go:155-233 | On a single-scope history that the hybrid accepts, overlapping lots included, average cost succeeds with the same allocated basis and transition to zero at every disposal and the same totals |
| GridRuns.WholeHistoriesFailOnlyForQuantity | internal/report/calculate/basis_state.go:118-221 | With bases on the grid, under every method and for any scope key, a further disposal succeeds if and only if its quantity is positive and available, and no basis goes negative |
| Fragments.BuildPricedLiquidationMatches | internal/report/calculate/activity_replay.go:242-281 | The loop prices every fragment at the rounded proceeds per unit |
| Fragments.FragmentProceedsBound | internal/report/calculate/activity_replay.go:176-281 | Fragment proceeds sum to within half a unit per disposed unit of the net proceeds and gains to that sum minus the allocated basis, for lots, pool and scopes and any sign |
| Fragments.FragmentsAreSound | internal/report/calculate/basis_state.go:118-221 | No fragment of any method is empty or has negative basis |
| AssetReplay.StepBalances | internal/report/calculate/activity_replay.go:92-237 | A BUY adds gross plus fee, a SELL removes what it reports; gain is net proceeds minus allocated basis for priced SELLs only |
| AssetReplayer.ApplyAcquisition | internal/report/calculate/activity_replay.go:114-153 | A BUY needs both amounts and enters with gross plus fee as its basis |
| AssetReplayer.ApplyZeroPricedHoldingReduction | internal/report/calculate/activity_replay.go:158-171 | The reduction allocates basis without proceeds or gain; a refused one leaves what the disposal left |
| AssetReplayer.ApplyPricedLiquidation | internal/report/calculate/activity_replay.go:176-237 | The liquidation disposes, then prices the fragments, in that order of failures; a failed pricing does not undo the disposal |
| AssetReplayer.ApplyBasisInput | internal/report/calculate/activity_replay.go:92-110 | The activity type and the zero-priced flag select the branch, and what a refused activity leaves recorded |
| AssetReplayer.ReplayAssetInput | internal/report/calculate/activity_replay.go:30-88 | Audit entry through the selected year, row and liquidation inside it, nothing after it; what a refused activity leaves recorded |
| AssetReplayer.AssetReplayState.constructor | internal/report/calculate/asset_replay.go:18-30 | A new replay state is empty |
| AssetReplayer.AssetReplayState.CaptureOpeningPositionIfNeeded | internal/report/calculate/asset_replay.go:141-160 | The position before the first in-year activity is kept, once |
| AssetReplayer.AssetReplayState.ApplyReplayResult | internal/report/calculate/asset_replay.go:77-105 | Counts, lists and the yearly net grow by the contribution |
| AssetReplayer.AssetReplayState.FinalizeReplayState | internal/report/calculate/asset_replay.go:109-125 | The closing position is taken and stands in for an uncaptured opening |
| AssetReplayer.ReplayAssetGroup | internal/report/calculate/asset_replay.go:45-73 | The loop is the specified replay; it stops at the first refused activity with what that one left recorded |
| YearBridge.YearlyNetIsRealizedGain | internal/report/calculate/asset_replay.go:77-105 | The yearly net is the sum over the in-year priced SELLs of net proceeds minus allocated basis; summaries and rows list exactly those and all in-year activities |
| YearBridge.YearBridgeHolds | internal/report/calculate/asset_replay.go:45-160 | With years nondecreasing opening plus in-year acquired minus in-year removed equals closing, for quantity and basis |
| YearBridge.AuditTrailIsUnbroken | internal/report/calculate/activity_replay.go:69-88 | Every audit entry continues from the one before it, the last is the closing position and none is negative |
| YearBridge.ValidatorsRejectOnlyNegativeBasis | internal/report/calculate/artifacts.go:47-79 | Once an identified activity is applied the numeric validators refuse it if and only if the open basis went negative |
| ReplayFigures.FiguresAfter | internal/report/calculate/artifacts.go:19-166 | Every audit entry of a priced SELL carries net proceeds and what they exceed the allocated basis by, no other does; a row shows the position of its entry, a liquidation its figures, and its fragments add up to its quantity and basis, their proceeds to its net proceeds but for half a unit per unit sold |
| LiquidationCounts.FullLiquidationsAreCounted | internal/report/calculate/asset_replay.go:77-92 | The full-liquidation count is that of the audited zero transitions, and the in-year flag says whether one was in the selected year |
| YearReport.GroupCalculationCurrency | internal/report/calculate/artifacts.go:294-313 | The loop returns the one currency of the inputs that have one and refuses two different ones |
| YearReport.CalculateAssetGroup | internal/report/calculate/asset_group.go:102-121 | State, scopes, replay and sections are composed in this order of failures |
| YearReport.ReportAggregation.constructor | internal/report/calculate/calculator.go:36-42 | A new aggregation is empty |
| YearReport.ReportAggregation.AddAssetResult | internal/report/calculate/calculator.go:150-177 | Reference and audit sections are always listed, summary, detail and total only for included assets |
| YearReport.CalculateReportAssetGroups | internal/report/calculate/calculator.go:127-145 | The loop reports the groups in order and stops at the first failure |
| ReportTheorems.ExcludedAssetsHaveNoActivity | internal/report/calculate/artifacts.go:196-200 | With years in order an asset left out of the main sections had no activity in the selected year and a zero yearly net |
| ReportTheorems.NoGainIsLost | internal/report/calculate/calculator.go:150-177 | With years in order the yearly total is the sum over all assets, shown or not, of their realized gains |
| ReportTheorems.DetailSectionIsNeverRejected | internal/report/calculate/artifacts.go:264-284 | Opening and closing positions of an accepted asset always pass the detail-section validator |
| ReportTheorems.DetailSectionBridgesTheYear | internal/report/calculate/artifacts.go:248-288 | The printed detail and summary of an included asset bridge the year and list its activities and realized gain |
| ReportFigures.GroupResultShows | internal/report/calculate/artifacts.go:185-290 | The sections of one asset in terms of its activities alone: gross value plus fee added by each BUY, gross value minus fee brought by each priced SELL, the bridge, the yearly net, inclusion, labels and counts |
| ReportFigures.ReportToShows | internal/report/calculate/asset_group.go:102-121 | The annex has a section for every asset, summaries and details are those of the shown assets and references those of the fully liquidated ones, all in the order of the assets, and the total is every asset's gain |
| ReportCalculation.CalculateReport | internal/report/calculate/calculator.go:68-96 | Selection, currency boundary and replay in this order; it succeeds if and only if the request is valid and every stage accepts the records |
| OrderedReports.CalculatedGroupsAreInOrder | internal/report/calculate/asset_group.go:39-97 | The groups of an accepted history reach the replay with their days and years in order, after currency conversion too |
| OrderedReports.AcceptedHistoriesLoseNoGain | internal/report/calculate/calculator.go:78-95 | From accepted records through grouping and conversion the yearly total is the sum over all assets, shown or not, of their realized gains |
| OrderedReports.AcceptedHistoriesBridgeTheYear | internal/report/calculate/asset_replay.go:45-160 | For every asset of an accepted history opening plus in-year acquired minus in-year removed equals closing, for quantity and basis, and an asset left out had no in-year activity |
| OrderedReports.AcceptedHistoriesAreQueuesAndStacks | internal/report/calculate/activity_replay.go:92-237 | After any number of activities an asset of an accepted history is a queue under FIFO, its next SELL taking exactly the next units bought, a stack under LIFO, and under HIFO its next SELL leaves nothing costlier, and nothing equally costly and older, beside a lot it took from |
| ReportFigures.AcceptedHistoriesAreShown | internal/report/calculate/activity_replay.go:176-192 | Of an accepted history the report's total is the sum, over the in-year SELLs of all assets that are not zero-priced, of gross value minus fee minus the basis their annex entry allocates; all other sections follow from the annex and the activities likewise |
| LotHistories.LotReplayIsARun | internal/report/calculate/activity_replay.go:92-237 | Replaying an asset under a lot method is running its acquisitions and removals on the lots |
| LotHistories.LotsAreChronological | internal/report/calculate/activity_replay.go:114-153 | With the calendar days of the activities in order the lots are chronological |
| Scoping.ShouldBroadenAssetScope | internal/report/calculate/scope.go:94-122 | The loop broadens if and only if some activity is unreliable or some identifier has two kinds |
| Scoping.ResolveEach | internal/report/calculate/scope.go:75-88 | The loop resolves every activity or stops at the first that cannot be resolved |
| Scoping.ResolveScopedAssetInputs | internal/report/calculate/scope.go:55-89 | Resolution always succeeds and keeps every input in place |
| Scoping.PartitionsAreScopeIds | internal/report/calculate/scope.go:127-163 | Narrowed inputs share a partition exactly when their trimmed scope identifiers agree; a broadened asset has one partition |
| Scoping.LocatedAssetsAreSplit | internal/report/calculate/scope.go:55-163 | An asset whose activities all name a reliable account or wallet, no identifier naming both, is split by trimmed identifier; any other is one partition under its trimmed key |
| Grouping.SelectAssetInputGroupsThroughYear | internal/report/calculate/asset_group.go:39-97 | The loop fails for the first refused record and otherwise returns the groups of the kept inputs |
| Grouping.KeptCarryTheirRecords | internal/report/calculate/activity_input.go:37-88 | What is kept is exactly the records through the year, in order, each with its own identifiers, day, type and quantity and with the amounts, currency and scope selected for it |
| Grouping.GroupsPartitionTheRecords | internal/report/calculate/asset_group.go:39-97 | Distinct nonblank keys in first-seen order, each group exactly its asset's records through the year in order, none lost or repeated |
| Grouping.LabelIsFirstNonBlank | internal/report/calculate/asset_group.go:77-88 | A group carries the first label that is not blank |
| Calendar.YearIsUnique | internal/report/calculate/activity_input.go:37-46 | The source year is the one Gregorian year that starts no later than the day and ends after it |
| Calendar.YearIsMonotone | internal/report/calculate/activity_input.go:37-46 | A later day is never in an earlier year |
| ActivityOrdering.KeysAreTotal | internal/sync/model/activity_ordering.go:85-108 | Comparing two ordering keys the other way round reverses the answer, and only keys of equal rank and fields tie |
| ActivityOrdering.KeysAreTransitive | internal/sync/model/activity_ordering.go:85-108 | The comparisons of ordering keys are transitive |
| ActivityOrdering.KeyComparisonIsPrecedence | internal/sync/model/activity_ordering.go:85-146 | Comparing two records finds the earlier day, then the smaller symbol, then the BUY before the SELL, then the smaller source, timestamp and hash |
| HistoryNormalization.Normalize | internal/sync/normalize/activity_history.go:82-106 | Records are hashed, sorted by key, checked for ambiguity, freed of neighbouring duplicates, and their years listed once each in increasing order |
| HistoryNormalization.EveryHashIsKept | internal/sync/normalize/activity_history.go:192-218 | Removing duplicates loses no hash |
| HistoryNormalization.RunHeadsAreKept | internal/sync/normalize/activity_history.go:192-218 | Of each run of neighbouring duplicates exactly the first record is kept |
| HistoryNormalization.NoNeighboursAlike | internal/sync/normalize/activity_history.go:192-218 | No two neighbours of a normalized history have the same hash |
| HistoryNormalization.NormalizedHistoriesPassTheOrder | internal/sync/normalize/activity_history.go:82-170 | Of a normalized history of BUYs and SELLs validation never refuses a record for its order |
| DailyHoldings.NormalizedStandsInOrder | internal/sync/normalize/activity_history.go:82-106 | No record of a normalized history stands behind one it precedes, by the records' own fields |
| DailyHoldings.NormalizedIsAcceptedExactlyWhen | internal/sync/validate/activity_history.go:73-99 | A normalized history whose records pass their field checks is accepted if and only if no day ends with more sold of a symbol than bought |
| HistoryValidation.ValidateHistory | internal/sync/validate/activity_history.go:73-99 | The loop accepts exactly the histories of the announced length whose every record passes its order, field and holdings checks, and otherwise reports what the first refused record fails |
| HistoryValidation.AcceptedIsOrdered | internal/sync/validate/activity_history.go:112-136 | Any two records of an accepted history stand in key order and are not ambiguous, although only neighbours are compared |
| HistoryValidation.AcceptedNeverOversells | internal/sync/validate/activity_history.go:203-221 | At no point of an accepted history has more of an asset been sold than bought |
| DailyHoldings.BuysComeFirst | internal/sync/model/activity_ordering.go:128-146 | In a history in order no SELL stands before a BUY of its day and symbol |
| DailyHoldings.AcceptedExactlyWhen | internal/sync/validate/activity_history.go:73-221 | Any history is accepted if and only if its timestamps are trimmed dates, its records sound, in order and told apart by more than their hashes, and no day ends with more sold of a symbol than bought |
| KeyHoldings.AcceptedKeysAreCovered | internal/sync/validate/activity_history.go:203-221 | When records of one symbol have one identity key, an accepted history at no point sells more of a key than it bought |
| QuantityRefusals.AcceptedSellsAreNeverRefusedForQuantity | internal/report/calculate/asset_group.go:39-97 | For such histories no sale is refused for its quantity under FIFO, LIFO, HIFO or average cost, after conversion too |
| QuantityRefusals.CoveredReportsAreNotRefused | internal/report/calculate/basis_state.go:118-170 | Accepted or not, no history that oversells no key through the year is refused for the quantity of a sale under those methods |
| QuantityRefusals.CalculatedReportsOversellNoKey | internal/report/calculate/basis_state.go:118-223 | Whenever a report is calculated, under any method, no key is oversold through the year |
| QuantityRefusals.SplitAssetsAreRefused | internal/sync/validate/activity_history.go:203-221 | A concrete accepted history buys under one key and sells the same symbol under another; no report of that year is ever calculated from it |
| QuantityRefusals.SplitSaleIsRefused | internal/report/calculate/asset_group.go:39-97 | Under FIFO, LIFO, HIFO and average cost it is that sale which the replay of its key refuses, for its quantity |
| ScopeHoldings.CoveredScopedReportsAreNotRefused | internal/report/basis/scope_local_hybrid.go:125-168 | No history that oversells no scope of any asset through the year is refused for the quantity of a sale under the hybrid |
| ScopeHoldings.CalculatedScopedReportsOversellNoScope | internal/report/basis/scope_local_hybrid.go:86-168 | Whenever a hybrid report is calculated, no scope is oversold through the year |
| ScopeHoldings.AcceptedScopesAreCovered | internal/report/calculate/scope.go:55-89 | When records of one symbol have one key and every asset is broadened to a single scope, an accepted history oversells no scope |
| ScopeHoldings.MovedAssetsAreRefused | internal/report/calculate/scope.go:127-163 | A concrete accepted history, one key to one symbol, buys in one account and sells in another; no hybrid report of that year is ever calculated from it |
| Rates.CurrencyRateSessionCache.constructor | internal/integration/currency/session_cache.go:53-55 | A new cache is empty |
| Rates.CurrencyRateSessionCache.Get | internal/integration/currency/session_cache.go:59-78 | Only a valid request finds an entry |
| Rates.CurrencyRateSessionCache.Store | internal/integration/currency/session_cache.go:88-117 | Only valid evidence that answers the request is stored |
| Rates.CurrencyRateService.constructor | internal/integration/currency/service.go:247-256 | A new service has an empty cache and has asked nothing |
| Rates.CurrencyRateService.LookupRate | internal/integration/currency/service.go:172-209 | The cached lookup equals a fresh one, and no answered request is ever asked of a provider again |
| Rates.ConfigureProviders | internal/integration/currency/service.go:256-271 | Configuration succeeds if and only if bases are supported and distinct, and maps each to its provider |
| CurrencyConversion.ReportCurrencyBoundary.constructor | internal/report/calculate/currency_conversion.go:68-75 | A new boundary remembers nothing |
| CurrencyConversion.ReportCurrencyBoundary.ResolveCrossCurrencyBoundary | internal/report/calculate/currency_conversion.go:191-268 | Remembered or looked up, the evidence is that of a fresh lookup, and keys keep first-use order |
| CurrencyConversion.ReportCurrencyBoundary.ApplyInputReportCurrencyBoundary | internal/report/calculate/currency_conversion.go:150-186 | Zero-priced and same-currency rows bypass conversion, others convert as by a fresh lookup |
| CurrencyConversion.ApplyReportCurrencyBoundary | internal/report/calculate/currency_conversion.go:58-102 | Converted groups and audits equal a fresh lookup per row; each key reaches the service at most once per report, also when it fails |
| CurrencyConversion.ServiceEvidenceIsReportable | internal/report/calculate/currency_conversion.go:356-384 | Evidence the service accepts always maps to report evidence unchanged |
| RateTheorems.ConversionIsAccurate | internal/report/calculate/amount_conversion.go:17-34 | Source-per-base divides to within half a unit, base-per-source multiplies exactly, and signs are kept |
| RateTheorems.RowsAreRefusedOnlyForTheirAmounts | internal/report/calculate/currency_conversion.go:273-351 | With usable evidence a row converts if and only if it has an amount and no negative one |
| RateTheorems.ConvertedRowsChangeOnlyTheirAmounts | internal/report/calculate/currency_conversion.go:273-351 | Each amount is converted in its own field, nothing else of the activity changes, and the audit entry records every original with its conversion |
| RateTheorems.ConversionKeepsTheGroups | internal/report/calculate/currency_conversion.go:58-102 | Every group keeps its key, its label and its activities in order; only amounts and currencies change |
| BoundaryAmounts.KeptRowsKeepTheirAmounts | internal/report/calculate/currency_conversion.go:150-165 | A row that is zero-priced or in the base currency always passes with all its amounts, without an audit entry; only the currency fields it sets change |
| BoundaryAmounts.ForeignRowIsReported | internal/report/calculate/currency_conversion.go:167-186 | Any other row has each amount multiplied by the rate, or divided by it and rounded, at what the base's own authority says of its currency and day; its audit entry pairs each original with the reported amount and carries the asset's label |
| BoundaryAmounts.GroupsAreReported | internal/report/calculate/currency_conversion.go:58-102 | So for every row of every group, and the audit entries are those of the foreign rows, one each and in order |
| BoundaryAmounts.CalculatedAmountsAreTheirOwn | internal/report/calculate/currency_conversion.go:58-102 | Every activity of a calculated report has the amounts selected for its record, or each of them exchanged at the rate of its own currency and day |
| RateTheorems.RateSourcesBackTheAudit | internal/report/model/capital_gains_report.go:226-241 | Each used key has one rate source in first-use order and every audit entry has a matching source |
| RateTheorems.ConvertedGroupsHaveOneCurrency | internal/report/calculate/artifacts.go:294-313 | After the boundary every asset with activities is calculated in the base currency, so no group is refused for mixed currencies |
| DecimalText.DecimalIsInjective | internal/report/output/writer.go:240-243 | Different suffixes are rendered differently |
| DecimalText.DecimalReadsBack | internal/report/output/writer.go:240-243 | A rendered number is digits without a superfluous leading zero that read, left to right in base ten, as the number |
| FileNames.BundleNamesAreDistinct | internal/report/output/writer.go:237-270 | No two names of a bundle, or of bundles with different suffixes, coincide |
| FileNames.BundleNamesAreReadable | internal/report/output/writer.go:237-270 | The first document has the stem's own name, the second the annex marker before its timestamp; the first bundle has no number, a later one a dash and its number |
| FileSystem.Directory.CreateNew | internal/report/output/writer.go:219-229 | Exclusive creation succeeds only at a free name and touches nothing else |
| ReportWriter.CleanupReservedFile | internal/report/output/writer.go:330-347 | An open file is closed, then removed; residual means the removal failed and the file is still there |
| ReportWriter.CleanupReservedReportFiles | internal/report/output/writer.go:310-325 | Every reserved file is cleaned up whatever happens to the others, and what remains is exactly the residual list |
| ReportWriter.ReserveCandidateReportFiles | internal/report/output/writer.go:215-233 | Names are reserved in order until one is taken or refused, and the reserved ones come back |
| ReportWriter.ReserveReportFiles | internal/report/output/writer.go:193-211 | The suffix search terminates and reserves the least suffix whose names are all free when nobody else creates files |
| ReportWriter.WriteReservedReportFile | internal/report/output/writer.go:274-296 | A file counts as closed only after write, sync and close succeeded, and then holds its whole document |
| ReportWriter.WriteReservedReportOutputFiles | internal/report/output/writer.go:111-158 | Documents are written in order; the first failure ends it, and so does the first written and closed file whose metadata is refused |
| ReportWriter.WriteReportOutputBundle | internal/report/output/writer.go:52-88 | Success leaves exactly the matched-suffix files with their contents, any failure, refused metadata included, leaves created files absent or residual, files of others are never touched |
| ReportWriter.QuietBundleIsExact | internal/report/output/writer.go:52-88 | Without other creators a successful write leaves the old directory and the bundle, nothing else |
| Pagination.TableRowCountAt | internal/report/pdf/gopdf_document.go:334-346 | The loop counts the rows that fit |
| Pagination.RowsThatFitIsLongest | internal/report/pdf/gopdf_document.go:334-346 | The counted run fits and no longer one does |
| Pagination.GreedyIsMinimal | internal/report/pdf/gopdf_document.go:176-202 | Greedy chunking succeeds if and only if some contiguous split fits, and no split uses fewer pages |
| PdfTables.Document.AddSubsectionHeading | internal/report/pdf/gopdf_document.go:286-295 | A heading that fits is placed on this page after its spacing, any other at the top of the next page |
| PdfTables.Document.PrepareTableStart | internal/report/pdf/gopdf_document.go:419-449 | Title, header and first row start here or on a new page, and are refused only when no page holds them |
| PdfTables.FirstRowFitsTheStart | internal/report/pdf/gopdf_document.go:444-447 | The second preflight check can never fail |
| PdfTables.Document.DrawTableChunk | internal/report/pdf/gopdf_document.go:350-383 | Rows are stacked below the header and the position moves below the border |
| PdfTables.Document.AddTableRows | internal/report/pdf/gopdf_document.go:176-202 | The loop terminates and draws the greedy layout as far as rows fit, on consecutive pages; it finds no zero capacity after a continuation check |
| PdfTables.TableRowHeights | internal/report/pdf/gopdf_document.go:207-223 | Every row is at least the minimum height and at least its content |
| PdfTables.Document.AddTable | internal/report/pdf/gopdf_document.go:151-171 | Which tables are refused, and that the others are drawn as laid out, up to the first row that fits no page |
| PdfTheorems.LayoutIsWellPlaced | internal/report/pdf/gopdf_document.go:350-414 | Chunks concatenate to the rows in order, each ends within its page, and pages are consecutive |
| PdfTheorems.LayoutStylesTheLast | internal/report/pdf/gopdf_document.go:371-375 | Exactly the last row of the table is styled |
| PdfTheorems.TablesAreDrawnMinimally | internal/report/pdf/gopdf_document.go:151-202 | A started table is drawn if and only if its rows can be placed, on the fewest pages |
| PdfTheorems.StartsWheneverAPageCanHoldIt | internal/report/pdf/gopdf_document.go:427-438 | A start is refused if and only if an empty page cannot hold title, header and first row, moves to a new page only when they do not fit here, and lies below the title and its spacing |
| Formatter.CheckedSumsNeverOverflow | internal/report/presentation/financial.go:277-306 | The checked sums stay within their integer widths, and so does the least exponent derived from the precision |
| Formatter.PreExpansionKeepsTheValue | internal/report/presentation/financial.go:219-262 | Pre-expansion keeps the value and leaves an acceptable shift |
| Formatter.PrecisionSuffices | internal/report/presentation/financial.go:277-290 | The computed precision holds the scale-2 coefficient including any carry |
| FormatterTheorems.HundredthsAreNearest | internal/report/presentation/financial.go:236-253 | Quantization is rounding of the exact value to hundredths, ties away from zero |
| FormatterTheorems.FormatsTheNearestHundredth | internal/report/presentation/financial.go:166-214 | A value formats if and only if its ranges allow it, and its text reads as its nearest hundredth: a minus exactly below zero, units without a superfluous leading zero, a point and two digits |
| FormatterTheorems.TextReadsBack | internal/report/presentation/financial.go:213 | The digits of a printed text, read left to right without the point, are the hundredths it was printed from |
| FormatterTheorems.OnlyACarryAtTheTopIsRefused | internal/report/presentation/financial.go:205-211 | After the first checks only a carry at the largest adjusted exponent is refused |
| FormatterTheorems.TextDeterminesHundredths | internal/report/presentation/financial.go:213 | Different hundredths never print alike |
| ActivityFetch.FetchActivitiesHistory | internal/ghostfolio/client/client.go:205-234 | The loop terminates against every server and is the specified fetch |
| ActivityFetch.Advance | internal/ghostfolio/client/client.go:236-272 | Each further page adds at least one activity and stays below the fixed count |
| ActivityFetch.FetchedHistoryIsComplete | internal/ghostfolio/client/client.go:205-272 | A success is the pages in order, each asked at the number held, all reporting the length of the result |
| ActivityFetch.SuccessIsAWholeHistory | internal/ghostfolio/client/client.go:205-234 | The same from the first request, for any server |
| ActivityFetch.FetchSucceedsExactlyWhen | internal/ghostfolio/client/client.go:205-272 | A fetch succeeds if and only if the server's answers make up a whole history: each asked at the number held, all reporting the length of the whole, none but an only one empty |
| ActivityFetch.ListServersAreFetchedWhole | internal/ghostfolio/client/client.go:205-234 | A server paging a fixed list yields exactly that list |
| ActivityFetch.NegativeCountsAreRefused | internal/ghostfolio/client/client.go:236-272 | A negative first count, the marker for an unknown count included, is refused |

## Left out

- HTTP, JSON, CSV and provider protocols: rate providers and the activity server are arbitrary functions here.
- Parsing of timestamps: a record carries the calendar day its timestamp denotes. The one instant the program takes for an unset time keeps the calendar day of its own offset here.
- The exponent limits of the decimal library in additions and multiplications: only the formatter's limits are modelled.
- The decimal library itself: its quantization is modelled by the result it documents, with its exponent and precision limits.
- Nil receivers, nil contexts, and unsupported method names.
- Error wording, diagnostics, redaction and cause chains: one outcome per failure.
- Text-only checks of report records (currency labels, conversion status, comments, the scope and source identifiers of fragments).
- Selection of one currency context per activity, and resolution of its amounts for validation: a record carries the selected input and the resolved amounts, or the failure to get them.
- HistoryNormalization.Normalize: the hash of a record is an arbitrary function of it; source-scope reliability is not derived.
- RateTheorems.RateSourcesBackTheAudit: the final report check that no same-currency row shares the source identifier of a converted one is not modelled.
- ReportCalculation.CalculateReport: the validation of the finished report and its annex, and the request's output format and timestamp, are not modelled.
- PDF text, fonts, cell measurement and drawing failures: rows come with measured heights, as reals instead of floats; the document is started.
- ReportWriter.WriteReportOutputBundle: other processes create files but do not change or delete them, except that a file of the attempt may vanish just before it is removed; directory resolution and the timestamp are not modelled.
- The key text of the per-report rate memo: the request itself is the key.
- Fetch timestamps, defensive copies, mutexes and concurrency of the session cache.
- Storage, encryption, synchronisation, the terminal interface and the command line.
