/** The drawing of tables on the pages of a document. */
module PdfTables {
  import opened Outcomes
  import opened Sums
  import opened Pagination

  /** A row with the height its cells were measured to need. */
  datatype Row = Row(cells: seq<string>, contentHeight: real)

  datatype Table = Table(columns: nat, titled: bool, rowHeight: real, rows: seq<Row>, styledLastRow: bool)

  datatype PlacedRow = PlacedRow(row: Row, top: real, height: real, styled: bool)

  /** The part of a table on one page: a header and the rows below it. */
  datatype Chunk = Chunk(page: nat, top: real, headerHeight: real, rows: seq<PlacedRow>)

  datatype TableOutcome = Drawn | ColumnsRequired | RowTooTall | StartLost | PageFull | ContinuationFull

  const CONTINUATION_Y: real := PAGE_MARGIN + 16.0 + TABLE_SPACING

  ghost function ChunkOf(page: nat, top: real, headerHeight: real, rows: seq<Row>, heights: seq<real>, i: nat, n: nat, styled: bool): (chunk: Chunk)
    requires |rows| == |heights| && i + n <= |rows|
    ensures |chunk.rows| == n
  {
    Chunk(page, top, headerHeight,
          seq(n, k requires 0 <= k < n =>
            PlacedRow(rows[i + k], top + headerHeight + Span(heights, i, i + k), heights[i + k], styled && k == n - 1)))
  }

  /** The chunks of a table, the first at the given position and each other at the top of its own page. */
  ghost function Layout(sizes: seq<nat>, page: nat, top: real, headerHeight: real, rows: seq<Row>, heights: seq<real>, i: nat, styledLast: bool)
    : seq<Chunk>
    requires |rows| == |heights| && i <= |rows|
    decreases |sizes|
  {
    if sizes == [] || i + sizes[0] > |rows| then []
    else
      [ChunkOf(page, top, headerHeight, rows, heights, i, sizes[0], styledLast && i + sizes[0] == |rows|)]
      + Layout(sizes[1..], page + 1, CONTINUATION_Y, headerHeight, rows, heights, i + sizes[0], styledLast)
  }

  /** The heights rows are drawn with. */
  ghost function RowHeights(rows: seq<Row>, minimum: real): (heights: seq<real>)
    ensures |heights| == |rows| && forall i :: 0 <= i < |rows| ==> heights[i] == Maximum(minimum, rows[i].contentHeight)
  {
    seq(|rows|, i requires 0 <= i < |rows| => Maximum(minimum, rows[i].contentHeight))
  }

  function MinimumRowHeight(table: Table): (height: real)
    ensures height > 0.0 && (table.rowHeight > 0.0 ==> height == table.rowHeight) && (table.rowHeight <= 0.0 ==> height == 24.0)
  {
    if table.rowHeight <= 0.0 then DEFAULT_ROW_HEIGHT else table.rowHeight
  }

  /** Where drawing goes on below a chunk. */
  ghost function EndOf(chunk: Chunk): real
    requires chunk.rows != []
  {
    var last := chunk.rows[|chunk.rows| - 1];
    last.top + last.height + BORDER_ALLOWANCE
  }

  // -------- where a table starts --------

  datatype Start = Start(page: nat, y: real)

  function TitleHeight(titled: bool, y: real): real {
    if !titled then 0.0 else if y > PAGE_MARGIN then SUBSECTION_ADVANCE + SECTION_SPACING else SUBSECTION_ADVANCE
  }

  function Required(titled: bool, y: real, headerHeight: real, firstHeight: real): real {
    TitleHeight(titled, y) + TABLE_SPACING + headerHeight + firstHeight + BORDER_ALLOWANCE
  }

  /** Where the title, header and first row go: here if they fit, else on a new page; None when not even there. */
  function StartOf(page: nat, y: real, titled: bool, headerHeight: real, firstHeight: real): Option<Start> {
    if y + Required(titled, y, headerHeight, firstHeight) <= PAGE_BOTTOM then
      Some(Start(page, y + TitleHeight(titled, y) + TABLE_SPACING))
    else if PAGE_MARGIN + Required(titled, PAGE_MARGIN, headerHeight, firstHeight) <= PAGE_BOTTOM then
      Some(Start(page + 1, PAGE_MARGIN + TitleHeight(titled, PAGE_MARGIN) + TABLE_SPACING))
    else None
  }

  /** At the start chosen the first row fits, so checking again after the title never fails. */
  lemma FirstRowFitsTheStart(page: nat, y: real, titled: bool, headerHeight: real, heights: seq<real>)
    requires heights != [] && heights[0] > 0.0
    ensures StartOf(page, y, titled, headerHeight, heights[0]).Some? ==>
              RowsThatFit(Available(StartOf(page, y, titled, headerHeight, heights[0]).value.y, headerHeight), heights, 0) > 0
  {
  }

  lemma SpanOneMore(heights: seq<real>, i: nat, k: nat)
    requires i <= k < |heights|
    ensures Span(heights, i, k + 1) == Span(heights, i, k) + heights[k]
  {
    SpanSplits(heights, i, k, k + 1);
    assert Span(heights, k + 1, k + 1) == 0.0;
  }

  class Document {
    var y: real
    var page: nat
    var chunks: seq<Chunk>

    constructor ()
      ensures y == PAGE_MARGIN && page == 0 && chunks == []
    {
      y, page, chunks := PAGE_MARGIN, 0, [];
    }

    method AddPage()
      modifies `y, `page
      ensures y == PAGE_MARGIN && page == old(page) + 1
    {
      page := page + 1;
      y := PAGE_MARGIN;
    }

    /** Emits a heading, on a new page when it does not fit here. */
    method AddSubsectionHeading()
      modifies `y, `page
      ensures y == (if page == old(page) then old(y) else 36.0) + if page == old(page) && old(y) > 36.0 then 40.0 else 16.0
      ensures old(y) + TitleHeight(true, old(y)) <= PAGE_BOTTOM ==> y == old(y) + TitleHeight(true, old(y)) && page == old(page)
      ensures old(y) + TitleHeight(true, old(y)) > PAGE_BOTTOM ==> y == PAGE_MARGIN + SUBSECTION_ADVANCE && page == old(page) + 1
    {
      if y > PAGE_MARGIN {
        if y + SUBSECTION_ADVANCE + SECTION_SPACING > PAGE_BOTTOM {
          AddPage();
        } else {
          y := y + SECTION_SPACING;
        }
      }
      EnsureSpace(SUBSECTION_ADVANCE);
      y := y + SUBSECTION_ADVANCE;
    }

    method EnsureSpace(height: real)
      modifies `y, `page
      ensures old(y) + height <= PAGE_BOTTOM ==> y == old(y) && page == old(page)
      ensures old(y) + height > PAGE_BOTTOM ==> y == PAGE_MARGIN && page == old(page) + 1
    {
      if y + height > PAGE_BOTTOM {
        AddPage();
      }
    }

    method AddTableContinuationPage()
      modifies `y, `page
      ensures y == PAGE_MARGIN + 16.0 && page == old(page) + 1
    {
      AddPage();
      y := y + 16.0;
    }

    /** Moves to where the table starts and emits its title there. */
    method PrepareTableStart(titled: bool, headerHeight: real, heights: seq<real>) returns (outcome: TableOutcome)
      requires heights != [] && heights[0] > 0.0 && headerHeight > 0.0
      modifies `y, `page
      ensures match StartOf(old(page), old(y), titled, headerHeight, heights[0])
              case None => outcome == RowTooTall
              case Some(start) => outcome == Drawn && page == start.page && y == start.y
    {
      hide RowsThatFit;
      FirstRowFitsTheStart(page, y, titled, headerHeight, heights);
      if y + Required(titled, y, headerHeight, heights[0]) > PAGE_BOTTOM {
        AddPage();
      }
      if y + Required(titled, y, headerHeight, heights[0]) > PAGE_BOTTOM {
        return RowTooTall;
      }
      if titled {
        AddSubsectionHeading();
      }
      y := y + TABLE_SPACING;
      return Drawn;
    }

    /** Draws one page's share of the rows below a header. */
    method DrawTableChunk(rows: seq<Row>, heights: seq<real>, headerHeight: real, i: nat, n: nat, styled: bool)
      requires |rows| == |heights| && i + n <= |rows|
      modifies `y, `chunks
      ensures chunks == old(chunks) + [ChunkOf(old(page), old(y), headerHeight, rows, heights, i, n, styled)]
      ensures y == old(y) + headerHeight + Span(heights, i, i + n) + BORDER_ALLOWANCE
      ensures n > 0 ==> y == EndOf(chunks[|old(chunks)|])
    {
      var top := y;
      ghost var target := ChunkOf(old(page), old(y), headerHeight, rows, heights, i, n, styled);
      var rowY := top + headerHeight;
      var placed: seq<PlacedRow> := [];
      for k := 0 to n
        invariant rowY == top + headerHeight + Span(heights, i, i + k)
        invariant chunks == old(chunks)
        invariant |placed| == k && forall m :: 0 <= m < k ==> placed[m] == target.rows[m]
      {
        placed := placed + [PlacedRow(rows[i + k], rowY, heights[i + k], styled && k == n - 1)];
        SpanOneMore(heights, i, i + k);
        rowY := rowY + heights[i + k];
      }
      assert Chunk(page, top, headerHeight, placed) == target;
      if n > 0 {
        SpanOneMore(heights, i, i + n - 1);
      }
      chunks := chunks + [Chunk(page, top, headerHeight, placed)];
      y := rowY + BORDER_ALLOWANCE;
    }

    /** Draws the rows chunk by chunk, as far as they fit.  Drawing stops only where no way to place the rows exists; a
        page that was checked before it was started always takes a row. */
    method AddTableRows(rows: seq<Row>, heights: seq<real>, headerHeight: real, styledLast: bool) returns (outcome: TableOutcome)
      requires |rows| == |heights| && Positive(heights)
      modifies this
      ensures var first, continued := Available(old(y), headerHeight), Available(CONTINUATION_Y, headerHeight);
              && (Chunks(first, continued, heights, 0).Some? <==> outcome == Drawn)
              && chunks == old(chunks) + Layout(ChunksSoFar(first, continued, heights, 0), old(page), old(y), headerHeight, rows, heights, 0, styledLast)
      ensures outcome in {Drawn, PageFull, ContinuationFull}
      ensures outcome == PageFull ==> RowsThatFit(Available(old(y), headerHeight), heights, 0) == 0
      ensures chunks == old(chunks) ==> y == old(y) && page == old(page)
      ensures |chunks| > |old(chunks)| ==>
                && page == old(page) + |chunks| - |old(chunks)| - 1
                && chunks[|chunks| - 1].rows != [] && y == EndOf(chunks[|chunks| - 1])
    {
      hide Rest, RowsThatFit, Layout, ChunksSoFar;
      ghost var continued := Available(CONTINUATION_Y, headerHeight);
      ghost var all := Chunks(Available(y, headerHeight), continued, heights, 0);
      ghost var layout := Layout(ChunksSoFar(Available(y, headerHeight), continued, heights, 0), page, y, headerHeight, rows, heights, 0, styledLast);
      var offset := 0;
      EverythingRests(all, layout, chunks, page, y, headerHeight, rows, heights, styledLast);
      while offset < |rows|
        invariant offset <= |rows|
        invariant offset < |rows| ==> Rest(all, layout, old(chunks), chunks, page, y, headerHeight, rows, heights, offset, styledLast)
        invariant offset == |rows| ==> all.Some? && old(chunks) + layout == chunks
        invariant offset == 0 ==> y == old(y) && page == old(page) && chunks == old(chunks)
        invariant offset > 0 ==> |chunks| > |old(chunks)| && chunks[|chunks| - 1].rows != []
        invariant 0 < offset < |rows| ==> y == CONTINUATION_Y && RowsThatFit(continued, heights, offset) > 0
        invariant 0 < offset < |rows| ==> page == old(page) + |chunks| - |old(chunks)|
        invariant 0 < offset == |rows| ==> page == old(page) + |chunks| - |old(chunks)| - 1 && y == EndOf(chunks[|chunks| - 1])
        decreases |rows| - offset
      {
        var capacity := TableRowCountAt(y, heights, offset, headerHeight);
        if capacity == 0 {
          NothingRests(all, layout, old(chunks), chunks, page, y, headerHeight, rows, heights, offset, styledLast);
          return PageFull;
        }
        NextChunk(all, layout, old(chunks), chunks, page, y, headerHeight, rows, heights, offset, styledLast);
        DrawTableChunk(rows, heights, headerHeight, offset, capacity, styledLast && offset + capacity == |rows|);
        offset := offset + capacity;
        if offset < |rows| {
          var continuationCount := TableRowCountAt(CONTINUATION_Y, heights, offset, headerHeight);
          if continuationCount == 0 {
            NothingRests(all, layout, old(chunks), chunks, page + 1, CONTINUATION_Y, headerHeight, rows, heights, offset, styledLast);
            return ContinuationFull;
          }
          AddTableContinuationPage();
          y := y + TABLE_SPACING;
        }
      }
      return Drawn;
    }

    method AddTable(table: Table) returns (outcome: TableOutcome)
      modifies this
      ensures table.columns == 0 <==> outcome == ColumnsRequired
      ensures table.columns == 0 ==> y == old(y) && page == old(page) && chunks == old(chunks)
      ensures table.columns > 0 && table.rows == [] ==> outcome == Drawn && y == old(y) && page == old(page) && chunks == old(chunks)
      ensures table.columns > 0 && table.rows != [] ==>
                var header, heights := MinimumRowHeight(table), RowHeights(table.rows, MinimumRowHeight(table));
                var start := StartOf(old(page), old(y), table.titled, header, heights[0]);
                && (start.None? <==> outcome == RowTooTall)
                && (start.None? ==> chunks == old(chunks))
                && (start.Some? ==>
                      var first, continued := Available(start.value.y, header), Available(CONTINUATION_Y, header);
                      && outcome in {Drawn, ContinuationFull}
                      && (outcome == Drawn <==> Chunks(first, continued, heights, 0).Some?)
                      && chunks == old(chunks) + Layout(ChunksSoFar(first, continued, heights, 0), start.value.page, start.value.y, header,
                                                        table.rows, heights, 0, table.styledLastRow)
                      && |chunks| > |old(chunks)| && page == start.value.page + |chunks| - |old(chunks)| - 1
                      && chunks[|chunks| - 1].rows != [] && y == EndOf(chunks[|chunks| - 1]))
    {
      hide Layout, Chunks, ChunksSoFar, RowsThatFit;
      if table.columns == 0 {
        return ColumnsRequired;
      }
      if |table.rows| == 0 {
        return Drawn;
      }
      var header := MinimumRowHeight(table);
      var heights := TableRowHeights(table.rows, header);
      FirstRowFitsTheStart(page, y, table.titled, header, heights);
      outcome := PrepareTableStart(table.titled, header, heights);
      if outcome != Drawn {
        return;
      }
      SomethingIsDrawn(page, y, header, table.rows, heights, table.styledLastRow);
      outcome := AddTableRows(table.rows, heights, header, table.styledLastRow);
    }
  }

  method TableRowHeights(rows: seq<Row>, minimum: real) returns (heights: seq<real>)
    requires minimum > 0.0
    ensures heights == RowHeights(rows, minimum) && Positive(heights)
  {
    heights := [];
    for i := 0 to |rows|
      invariant |heights| == i && forall k :: 0 <= k < i ==> heights[k] == Maximum(minimum, rows[k].contentHeight)
    {
      var height := rows[i].contentHeight;
      if height < minimum {
        height := minimum;
      }
      heights := heights + [height];
    }
    assert heights == RowHeights(rows, minimum);
  }

  lemma SomethingIsDrawn(page: nat, y: real, headerHeight: real, rows: seq<Row>, heights: seq<real>, styledLast: bool)
    requires |rows| == |heights| && RowsThatFit(Available(y, headerHeight), heights, 0) > 0
    ensures Layout(ChunksSoFar(Available(y, headerHeight), Available(CONTINUATION_Y, headerHeight), heights, 0), page, y, headerHeight, rows, heights, 0,
                   styledLast) != []
  {
  }

  /** What is drawn and what is still to be drawn make up the layout. */
  ghost predicate Rest(all: Option<seq<nat>>, layout: seq<Chunk>, before: seq<Chunk>, chunks: seq<Chunk>, page: nat, y: real, headerHeight: real,
                       rows: seq<Row>, heights: seq<real>, offset: nat, styledLast: bool)
    requires |rows| == |heights| && offset <= |rows|
  {
    var first, continued := Available(y, headerHeight), Available(CONTINUATION_Y, headerHeight);
    && (all.Some? <==> Chunks(first, continued, heights, offset).Some?)
    && before + layout == chunks + Layout(ChunksSoFar(first, continued, heights, offset), page, y, headerHeight, rows, heights, offset, styledLast)
  }

  lemma EverythingRests(all: Option<seq<nat>>, layout: seq<Chunk>, chunks: seq<Chunk>, page: nat, y: real, headerHeight: real,
                        rows: seq<Row>, heights: seq<real>, styledLast: bool)
    requires |rows| == |heights|
    requires all == Chunks(Available(y, headerHeight), Available(CONTINUATION_Y, headerHeight), heights, 0)
    requires layout == Layout(ChunksSoFar(Available(y, headerHeight), Available(CONTINUATION_Y, headerHeight), heights, 0), page, y, headerHeight,
                              rows, heights, 0, styledLast)
    ensures Rest(all, layout, chunks, chunks, page, y, headerHeight, rows, heights, 0, styledLast)
    ensures rows == [] ==> all.Some? && chunks + layout == chunks
  {
  }

  /** Where no further row fits, what is drawn is the layout. */
  lemma NothingRests(all: Option<seq<nat>>, layout: seq<Chunk>, before: seq<Chunk>, chunks: seq<Chunk>, page: nat, y: real, headerHeight: real,
                     rows: seq<Row>, heights: seq<real>, offset: nat, styledLast: bool)
    requires |rows| == |heights| && offset < |rows|
    requires Rest(all, layout, before, chunks, page, y, headerHeight, rows, heights, offset, styledLast)
    requires RowsThatFit(Available(y, headerHeight), heights, offset) == 0
    ensures all.None? && before + layout == chunks
  {
    hide RowsThatFit;
    assert chunks + [] == chunks;
  }

  /** Drawing the next chunk and moving on keeps the rest what it was. */
  lemma NextChunk(all: Option<seq<nat>>, layout: seq<Chunk>, before: seq<Chunk>, chunks: seq<Chunk>, page: nat, y: real, headerHeight: real,
                  rows: seq<Row>, heights: seq<real>, offset: nat, styledLast: bool)
    requires |rows| == |heights| && offset < |rows|
    requires Rest(all, layout, before, chunks, page, y, headerHeight, rows, heights, offset, styledLast)
    requires RowsThatFit(Available(y, headerHeight), heights, offset) > 0
    ensures var n := RowsThatFit(Available(y, headerHeight), heights, offset);
            var drawn := chunks + [ChunkOf(page, y, headerHeight, rows, heights, offset, n, styledLast && offset + n == |rows|)];
            && Rest(all, layout, before, drawn, page + 1, CONTINUATION_Y, headerHeight, rows, heights, offset + n, styledLast)
            && (offset + n == |rows| ==> all.Some? && before + layout == drawn)
  {
    hide RowsThatFit;
    var n := RowsThatFit(Available(y, headerHeight), heights, offset);
    var continued := Available(CONTINUATION_Y, headerHeight);
    var sizes := ChunksSoFar(continued, continued, heights, offset + n);
    assert ([n] + sizes)[1..] == sizes;
    var first := ChunkOf(page, y, headerHeight, rows, heights, offset, n, styledLast && offset + n == |rows|);
    var others := Layout(sizes, page + 1, CONTINUATION_Y, headerHeight, rows, heights, offset + n, styledLast);
    assert chunks + ([first] + others) == (chunks + [first]) + others;
    if offset + n == |rows| {
      assert chunks + [first] + [] == chunks + [first];
    }
  }
}
