/** Splits the rows of a table over pages. */
module Pagination {
  import opened Outcomes

  const PAGE_MARGIN: real := 36.0
  const PAGE_BOTTOM: real := 559.0
  const SECTION_SPACING: real := 24.0
  const TABLE_SPACING: real := 24.0
  const SUBSECTION_ADVANCE: real := 16.0
  const BORDER_ALLOWANCE: real := 12.0
  const DEFAULT_ROW_HEIGHT: real := 24.0

  // -------- how many rows fit --------

  /** The height of the rows from i up to j. */
  function Span(heights: seq<real>, i: nat, j: nat): real
    requires i <= j <= |heights|
    decreases j - i
  {
    if i == j then 0.0 else heights[i] + Span(heights, i + 1, j)
  }

  /** The number of rows from i on that fit, one after the other, into the available height. */
  function RowsThatFit(available: real, heights: seq<real>, i: nat): (n: nat)
    requires i <= |heights|
    ensures i + n <= |heights|
    decreases |heights| - i
  {
    if i == |heights| || heights[i] <= 0.0 || heights[i] > available then 0
    else 1 + RowsThatFit(available - heights[i], heights, i + 1)
  }

  function Available(startY: real, headerHeight: real): real {
    PAGE_BOTTOM - startY - BORDER_ALLOWANCE - headerHeight
  }

  ghost predicate Positive(heights: seq<real>) {
    forall i :: 0 <= i < |heights| ==> heights[i] > 0.0
  }

  lemma {:induction false} SpanSplits(heights: seq<real>, i: nat, k: nat, j: nat)
    requires i <= k <= j <= |heights|
    ensures Span(heights, i, j) == Span(heights, i, k) + Span(heights, k, j)
    decreases k - i
  {
    if i == k {
    } else {
      SpanSplits(heights, i + 1, k, j);
    }
  }

  lemma {:induction false} SpanIsPositive(heights: seq<real>, i: nat, j: nat)
    requires i <= j <= |heights| && Positive(heights)
    ensures Span(heights, i, j) >= 0.0
    decreases j - i
  {
    if i == j {
    } else {
      SpanIsPositive(heights, i + 1, j);
    }
  }

  /** The rows that fit are the longest run that fits. */
  lemma {:induction false} RowsThatFitIsLongest(available: real, heights: seq<real>, i: nat, j: nat)
    requires i < j <= |heights| && Positive(heights)
    ensures Span(heights, i, j) <= available <==> j <= i + RowsThatFit(available, heights, i)
    decreases |heights| - i
  {
    if heights[i] > available {
      SpanIsPositive(heights, i + 1, j);
    } else if j > i + 1 {
      RowsThatFitIsLongest(available - heights[i], heights, i + 1, j);
    } else {
      assert Span(heights, i + 1, j) == 0.0;
    }
  }

  method TableRowCountAt(startY: real, heights: seq<real>, offset: nat, headerHeight: real) returns (count: nat)
    requires offset <= |heights|
    ensures count == RowsThatFit(Available(startY, headerHeight), heights, offset)
  {
    var available := PAGE_BOTTOM - startY - 12.0 - headerHeight;
    var used := 0.0;
    count := 0;
    while offset + count < |heights|
      invariant offset + count <= |heights|
      invariant RowsThatFit(available, heights, offset) == count + RowsThatFit(available - used, heights, offset + count)
    {
      var rowHeight := heights[offset + count];
      if rowHeight <= 0.0 || used + rowHeight > available {
        break;
      }
      used := used + rowHeight;
      count := count + 1;
    }
  }

  // -------- greedy chunks --------

  /** The sizes of the chunks, the first into the height available now and the others into that of a continuation
      page; None when some chunk would be empty. */
  function Chunks(available: real, continued: real, heights: seq<real>, i: nat): Option<seq<nat>>
    requires i <= |heights|
    decreases |heights| - i
  {
    if i == |heights| then Some([])
    else
      var n := RowsThatFit(available, heights, i);
      if n == 0 then None
      else
        match Chunks(continued, continued, heights, i + n)
        case None => None
        case Some(rest) => Some([n] + rest)
  }

  /** The sizes of the chunks as far as greedy pagination gets: it stops where no row fits. */
  function ChunksSoFar(available: real, continued: real, heights: seq<real>, i: nat): seq<nat>
    requires i <= |heights|
    decreases |heights| - i
  {
    if i == |heights| then []
    else
      var n := RowsThatFit(available, heights, i);
      if n == 0 then [] else [n] + ChunksSoFar(continued, continued, heights, i + n)
  }

  lemma {:induction false} ChunksGoThrough(available: real, continued: real, heights: seq<real>, i: nat)
    requires i <= |heights|
    ensures Chunks(available, continued, heights, i).Some? ==>
              Chunks(available, continued, heights, i).value == ChunksSoFar(available, continued, heights, i)
    decreases |heights| - i
  {
    if i == |heights| {
    } else if RowsThatFit(available, heights, i) > 0 {
      ChunksGoThrough(continued, continued, heights, i + RowsThatFit(available, heights, i));
    }
  }

  /** A way to split the rows from i on into runs that fit their pages. */
  ghost predicate Fits(sizes: seq<nat>, available: real, continued: real, heights: seq<real>, i: nat)
    requires i <= |heights|
    decreases |sizes|
  {
    if sizes == [] then i == |heights|
    else
      && 1 <= sizes[0] && i + sizes[0] <= |heights|
      && Span(heights, i, i + sizes[0]) <= available
      && Fits(sizes[1..], continued, continued, heights, i + sizes[0])
  }

  lemma {:induction false} ChunksFit(available: real, continued: real, heights: seq<real>, i: nat)
    requires i <= |heights| && Positive(heights)
    requires Chunks(available, continued, heights, i).Some?
    ensures Fits(Chunks(available, continued, heights, i).value, available, continued, heights, i)
    decreases |heights| - i
  {
    if i == |heights| {
    } else {
      var n := RowsThatFit(available, heights, i);
      RowsThatFitIsLongest(available, heights, i, i + n);
      ChunksFit(continued, continued, heights, i + n);
      assert ([n] + Chunks(continued, continued, heights, i + n).value)[1..] == Chunks(continued, continued, heights, i + n).value;
    }
  }

  /** Starting further on never takes more pages. */
  lemma {:induction false} GreedyStaysAhead(sizes: seq<nat>, continued: real, heights: seq<real>, i: nat, j: nat)
    requires j <= i <= |heights| && Positive(heights)
    requires Fits(sizes, continued, continued, heights, j)
    ensures Chunks(continued, continued, heights, i).Some? && |Chunks(continued, continued, heights, i).value| <= |sizes|
    decreases |sizes|
  {
    if i == |heights| {
    } else {
      var next := j + sizes[0];
      if next <= i {
        GreedyStaysAhead(sizes[1..], continued, heights, i, next);
      } else {
        var n := RowsThatFit(continued, heights, i);
        SpanSplits(heights, j, i, next);
        SpanIsPositive(heights, j, i);
        RowsThatFitIsLongest(continued, heights, i, next);
        GreedyStaysAhead(sizes[1..], continued, heights, i + n, next);
      }
    }
  }

  /** Some way to place all rows exists. */
  ghost predicate CanBePlaced(available: real, continued: real, heights: seq<real>) {
    exists sizes: seq<nat> :: Fits(sizes, available, continued, heights, 0)
  }

  /** Greedy pagination finds a way to place the rows exactly when there is one, and none uses fewer pages. */
  lemma GreedyIsMinimal(available: real, continued: real, heights: seq<real>)
    requires Positive(heights)
    ensures Chunks(available, continued, heights, 0).Some? <==> CanBePlaced(available, continued, heights)
    ensures Chunks(available, continued, heights, 0).Some? ==>
              && Fits(Chunks(available, continued, heights, 0).value, available, continued, heights, 0)
              && forall sizes: seq<nat> :: Fits(sizes, available, continued, heights, 0) ==> |Chunks(available, continued, heights, 0).value| <= |sizes|
  {
    if Chunks(available, continued, heights, 0).Some? {
      ChunksFit(available, continued, heights, 0);
      var greedy := Chunks(available, continued, heights, 0).value;
      assert Fits(greedy, available, continued, heights, 0);
    }
    forall sizes: seq<nat> | Fits(sizes, available, continued, heights, 0)
      ensures Chunks(available, continued, heights, 0).Some? && |Chunks(available, continued, heights, 0).value| <= |sizes|
    {
      if heights != [] {
        RowsThatFitIsLongest(available, heights, 0, sizes[0]);
        GreedyStaysAhead(sizes[1..], continued, heights, RowsThatFit(available, heights, 0), sizes[0]);
      }
    }
  }
}
