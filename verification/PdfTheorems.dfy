/** What the drawn chunks of a table show. */
module PdfTheorems {
  import opened Pagination
  import opened PdfTables

  /** The rows drawn, page after page. */
  ghost function DrawnRows(chunks: seq<Chunk>): seq<Row> {
    if chunks == [] then [] else RowsOf(chunks[0]) + DrawnRows(chunks[1..])
  }

  ghost function RowsOf(chunk: Chunk): (rows: seq<Row>)
    ensures |rows| == |chunk.rows| && forall k :: 0 <= k < |rows| ==> rows[k] == chunk.rows[k].row
  {
    seq(|chunk.rows|, k requires 0 <= k < |chunk.rows| => chunk.rows[k].row)
  }

  /** Header and rows follow each other without gap or overlap, and the table ends above the page bottom with room for
      its border. */
  ghost predicate WellPlaced(chunk: Chunk) {
    && |chunk.rows| > 0 && chunk.top >= PAGE_MARGIN
    && chunk.rows[0].top == chunk.top + chunk.headerHeight
    && (forall k :: 0 <= k < |chunk.rows| ==> chunk.rows[k].height > 0.0)
    && (forall k, next :: 0 <= k && next == k + 1 < |chunk.rows| ==> chunk.rows[next].top == chunk.rows[k].top + chunk.rows[k].height)
    && (var last := chunk.rows[|chunk.rows| - 1]; last.top + last.height + BORDER_ALLOWANCE <= PAGE_BOTTOM)
  }

  /** Only the very last row may be styled. */
  ghost predicate StyledLast(chunks: seq<Chunk>, styledLast: bool) {
    forall c, k :: 0 <= c < |chunks| && 0 <= k < |chunks[c].rows| ==>
      (chunks[c].rows[k].styled <==> styledLast && c == |chunks| - 1 && k == |chunks[c].rows| - 1)
  }

  lemma ChunkIsWellPlaced(page: nat, top: real, headerHeight: real, rows: seq<Row>, heights: seq<real>, i: nat, n: nat, styled: bool)
    requires |rows| == |heights| && 0 < n && i + n <= |rows| && Positive(heights)
    requires top >= PAGE_MARGIN && Span(heights, i, i + n) <= Available(top, headerHeight)
    ensures WellPlaced(ChunkOf(page, top, headerHeight, rows, heights, i, n, styled))
    ensures RowsOf(ChunkOf(page, top, headerHeight, rows, heights, i, n, styled)) == rows[i..i + n]
  {
    hide Span;
    var chunk := ChunkOf(page, top, headerHeight, rows, heights, i, n, styled);
    assert Span(heights, i, i) == 0.0 by { EmptySpan(heights, i); }
    forall k, next | 0 <= k && next == k + 1 < n
      ensures chunk.rows[next].top == chunk.rows[k].top + chunk.rows[k].height
    {
      SpanOneMore(heights, i, i + k);
    }
    SpanOneMore(heights, i, i + n - 1);
  }

  lemma EmptySpan(heights: seq<real>, i: nat)
    requires i <= |heights|
    ensures Span(heights, i, i) == 0.0
  {
  }

  /** Every chunk is well placed on its own page, the first at the given position and the others at the continuation
      position. */
  ghost predicate OnTheirPages(chunks: seq<Chunk>, page: nat, top: real, headerHeight: real) {
    forall c :: 0 <= c < |chunks| ==>
      && WellPlaced(chunks[c]) && chunks[c].page == page + c && chunks[c].headerHeight == headerHeight
      && chunks[c].top == if c == 0 then top else CONTINUATION_Y
  }

  lemma FirstAndOthers(sizes: seq<nat>, page: nat, top: real, headerHeight: real, rows: seq<Row>, heights: seq<real>, i: nat, styledLast: bool)
    requires |rows| == |heights| && i <= |rows| && sizes != [] && i + sizes[0] <= |rows|
    ensures var chunks := Layout(sizes, page, top, headerHeight, rows, heights, i, styledLast);
            && chunks == [chunks[0]] + chunks[1..]
            && chunks[0] == ChunkOf(page, top, headerHeight, rows, heights, i, sizes[0], styledLast && i + sizes[0] == |rows|)
            && chunks[1..] == Layout(sizes[1..], page + 1, CONTINUATION_Y, headerHeight, rows, heights, i + sizes[0], styledLast)
  {
  }

  lemma {:induction false} LayoutIsWellPlaced(sizes: seq<nat>, page: nat, top: real, headerHeight: real, rows: seq<Row>, heights: seq<real>, i: nat,
                                              styledLast: bool)
    requires |rows| == |heights| && i <= |rows| && Positive(heights) && top >= PAGE_MARGIN
    requires Fits(sizes, Available(top, headerHeight), Available(CONTINUATION_Y, headerHeight), heights, i)
    ensures |Layout(sizes, page, top, headerHeight, rows, heights, i, styledLast)| == |sizes|
    ensures DrawnRows(Layout(sizes, page, top, headerHeight, rows, heights, i, styledLast)) == rows[i..]
    ensures OnTheirPages(Layout(sizes, page, top, headerHeight, rows, heights, i, styledLast), page, top, headerHeight)
    decreases |sizes|
  {
    hide WellPlaced, Span, Layout, ChunkOf, RowsOf;
    if sizes == [] {
      assert Layout(sizes, page, top, headerHeight, rows, heights, i, styledLast) == [] by { NoChunks(page, top, headerHeight, rows, heights, i, styledLast); }
    } else {
      var n := sizes[0];
      var chunks := Layout(sizes, page, top, headerHeight, rows, heights, i, styledLast);
      FirstAndOthers(sizes, page, top, headerHeight, rows, heights, i, styledLast);
      ChunkIsWellPlaced(page, top, headerHeight, rows, heights, i, n, styledLast && i + n == |rows|);
      ChunkHeader(page, top, headerHeight, rows, heights, i, n, styledLast && i + n == |rows|);
      LayoutIsWellPlaced(sizes[1..], page + 1, CONTINUATION_Y, headerHeight, rows, heights, i + n, styledLast);
      assert rows[i..] == rows[i..i + n] + rows[i + n..];
      forall c | 0 < c < |chunks|
        ensures chunks[c] == chunks[1..][c - 1]
      {
      }
    }
  }

  lemma NoChunks(page: nat, top: real, headerHeight: real, rows: seq<Row>, heights: seq<real>, i: nat, styledLast: bool)
    requires |rows| == |heights| && i <= |rows|
    ensures Layout([], page, top, headerHeight, rows, heights, i, styledLast) == []
  {
  }

  lemma ChunkHeader(page: nat, top: real, headerHeight: real, rows: seq<Row>, heights: seq<real>, i: nat, n: nat, styled: bool)
    requires |rows| == |heights| && i + n <= |rows|
    ensures var chunk := ChunkOf(page, top, headerHeight, rows, heights, i, n, styled);
            && chunk.page == page && chunk.top == top && chunk.headerHeight == headerHeight
            && forall k :: 0 <= k < n ==> chunk.rows[k].styled == (styled && k == n - 1)
  {
  }

  lemma {:induction false} LayoutStylesTheLast(sizes: seq<nat>, page: nat, top: real, headerHeight: real, rows: seq<Row>, heights: seq<real>, i: nat,
                                               styledLast: bool)
    requires |rows| == |heights| && i <= |rows|
    requires Fits(sizes, Available(top, headerHeight), Available(CONTINUATION_Y, headerHeight), heights, i)
    ensures |Layout(sizes, page, top, headerHeight, rows, heights, i, styledLast)| == |sizes|
    ensures StyledLast(Layout(sizes, page, top, headerHeight, rows, heights, i, styledLast), styledLast)
    decreases |sizes|
  {
    hide Span, Layout, ChunkOf;
    if sizes == [] {
      NoChunks(page, top, headerHeight, rows, heights, i, styledLast);
    } else {
      var n := sizes[0];
      var chunks := Layout(sizes, page, top, headerHeight, rows, heights, i, styledLast);
      FirstAndOthers(sizes, page, top, headerHeight, rows, heights, i, styledLast);
      ChunkHeader(page, top, headerHeight, rows, heights, i, n, styledLast && i + n == |rows|);
      LayoutStylesTheLast(sizes[1..], page + 1, CONTINUATION_Y, headerHeight, rows, heights, i + n, styledLast);
      assert i + n == |rows| <==> sizes[1..] == [];
      forall c, k | 0 <= c < |chunks| && 0 <= k < |chunks[c].rows|
        ensures chunks[c].rows[k].styled <==> styledLast && c == |chunks| - 1 && k == |chunks[c].rows| - 1
      {
        if c > 0 {
          assert chunks[c] == chunks[1..][c - 1];
        }
      }
    }
  }

  /** A table that can be started is drawn exactly when its rows can be placed at all, on as few pages as possible. */
  lemma TablesAreDrawnMinimally(start: Start, table: Table)
    requires table.rows != [] && start.y >= PAGE_MARGIN
    ensures var header, heights := MinimumRowHeight(table), RowHeights(table.rows, MinimumRowHeight(table));
            var here, continued := Available(start.y, header), Available(CONTINUATION_Y, header);
            var sizes := Chunks(here, continued, heights, 0);
            && (sizes.Some? <==> CanBePlaced(here, continued, heights))
            && (sizes.Some? ==>
                  var chunks := Layout(ChunksSoFar(here, continued, heights, 0), start.page, start.y, header, table.rows, heights, 0, table.styledLastRow);
                  && DrawnRows(chunks) == table.rows
                  && OnTheirPages(chunks, start.page, start.y, header)
                  && StyledLast(chunks, table.styledLastRow)
                  && forall other: seq<nat> :: Fits(other, here, continued, heights, 0) ==> |chunks| <= |other|)
  {
    hide Layout, Chunks, ChunksSoFar, WellPlaced, StyledLast, OnTheirPages;
    var header := MinimumRowHeight(table);
    var heights := RowHeights(table.rows, header);
    var here, continued := Available(start.y, header), Available(CONTINUATION_Y, header);
    HeightsArePositive(table.rows, header);
    GreedyIsMinimal(here, continued, heights);
    ChunksGoThrough(here, continued, heights, 0);
    var sizes := Chunks(here, continued, heights, 0);
    if sizes.Some? {
      LayoutIsWellPlaced(sizes.value, start.page, start.y, header, table.rows, heights, 0, table.styledLastRow);
      LayoutStylesTheLast(sizes.value, start.page, start.y, header, table.rows, heights, 0, table.styledLastRow);
      assert table.rows[0..] == table.rows;
    }
  }

  lemma HeightsArePositive(rows: seq<Row>, minimum: real)
    requires minimum > 0.0
    ensures Positive(RowHeights(rows, minimum))
  {
  }

  /** A table is refused at its start exactly when its title, header and first row do not fit an empty page; it moves to
      a new page only when they do not fit here, and wherever it starts they end above the page bottom. */
  lemma StartsWheneverAPageCanHoldIt(page: nat, y: real, titled: bool, headerHeight: real, firstHeight: real)
    requires y >= PAGE_MARGIN
    ensures StartOf(page, y, titled, headerHeight, firstHeight).None?
            <==> PAGE_MARGIN + Required(titled, PAGE_MARGIN, headerHeight, firstHeight) > PAGE_BOTTOM
    ensures StartOf(page, y, titled, headerHeight, firstHeight).Some? ==>
              var start := StartOf(page, y, titled, headerHeight, firstHeight).value;
              && start.y >= PAGE_MARGIN
              && start.y + headerHeight + firstHeight + BORDER_ALLOWANCE <= PAGE_BOTTOM
              && (start.page == page <==> y + Required(titled, y, headerHeight, firstHeight) <= PAGE_BOTTOM)
              && (start.page == page ==> start.y > y)
              && (start.page != page ==> start.page == page + 1)
              && start.y == (if start.page == page then y else 36.0) + 24.0
                            + if !titled then 0.0 else if start.page == page && y > 36.0 then 40.0 else 16.0
  {
  }
}
