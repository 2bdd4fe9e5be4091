/** The PDF report: refused while nothing has been detected, otherwise
    one block per catalogue entry, in catalogue order, laid out top-down
    with a y cursor that starts a new page whenever it has fallen below
    the bottom margin. Heights are in PDF points, measured from the
    bottom of the page. */
module Report {
  import opened Catalogue

  /** The image of a block: the saved crop, or the error line drawn in its
      place when the crop cannot be loaded. */
  datatype Thumbnail = Image(path: string) | LoadError

  /** One entry's block: the page it is drawn on and the cursor height of
      its first text line. */
  datatype Block = Block(name: Label, record: Record, page: nat, top: int, thumbnail: Thumbnail)

  /** What asking for a report does. `pages` counts the title page. */
  datatype ReportOutcome = NothingDetected | Declined | Generated(blocks: seq<Block>, pages: nat)

  /** Distance from the top of a page to the first line drawn on it. */
  const TopMargin: int := 50
  /** Space taken by the title line. */
  const TitleGap: int := 30
  /** Six text lines of 20 points, then 140 points for the thumbnail. The
      closed forms (PerPage, FirstPageCount, BlockTop) write it as the
      literal 260; BlockHeightIs260 ties the two together. */
  const BlockHeight: int := 6 * 20 + 140
  /** A block may start only at or above this height. */
  const PageFloor: int := 150

  /** The cursor at the top of a fresh page. */
  function PageTop(height: int): int {
    height - TopMargin
  }

  function ThumbnailFor(r: Record, readable: set<string>): (t: Thumbnail)
    ensures t.Image? <==> r.imagePath in readable
    ensures t.Image? ==> t.path == r.imagePath
  {
    if r.imagePath in readable then Image(r.imagePath) else LoadError
  }

  /** Where a block goes when the cursor stands at `cursor` after a block
      on `previous`: below the floor it starts the next page at its top,
      otherwise it stays on the page at the cursor. */
  predicate Placed(b: Block, previous: nat, cursor: int, height: int) {
    && (cursor < PageFloor ==> b.page == previous + 1 && b.top == PageTop(height))
    && (cursor >= PageFloor ==> b.page == previous && b.top == cursor)
  }

  /** The page and cursor a block is placed against: the start values for
      the first block, the previous block's page and bottom otherwise. */
  function PreviousPage(blocks: seq<Block>, i: nat, page: nat): nat
    requires i < |blocks|
  {
    if i == 0 then page else blocks[i - 1].page
  }

  function CursorBefore(blocks: seq<Block>, i: nat, y: int): int
    requires i < |blocks|
  {
    if i == 0 then y else blocks[i - 1].top - BlockHeight
  }

  /** Every block is placed by the cursor rule from the one before it. */
  predicate Paginated(blocks: seq<Block>, page: nat, y: int, height: int) {
    forall i {:trigger PreviousPage(blocks, i, page)} | 0 <= i < |blocks| ::
      Placed(blocks[i], PreviousPage(blocks, i, page), CursorBefore(blocks, i, y), height)
  }

  lemma PaginatedCons(b: Block, rest: seq<Block>, page: nat, y: int, height: int)
    requires Placed(b, page, y, height)
    requires Paginated(rest, b.page, b.top - BlockHeight, height)
    ensures Paginated([b] + rest, page, y, height)
  {
    var blocks := [b] + rest;
    forall i | 1 <= i < |blocks|
      ensures Placed(blocks[i], PreviousPage(blocks, i, page), CursorBefore(blocks, i, y), height)
    {
      assert blocks[i] == rest[i - 1];
      assert PreviousPage(blocks, i, page) == PreviousPage(rest, i - 1, b.page);
      assert CursorBefore(blocks, i, y) == CursorBefore(rest, i - 1, b.top - BlockHeight);
    }
  }

  /** Lays out `entries` on pages of `height` points, starting on page
      `page` with the cursor at `y`. Before each block the cursor is
      checked: below the floor it moves to the top of the next page. */
  function Layout(entries: seq<Entry>, height: int, page: nat, y: int, readable: set<string>)
    : (blocks: seq<Block>)
    ensures |blocks| == |entries|
    ensures forall i | 0 <= i < |entries| ::
              && blocks[i].name == entries[i].name
              && blocks[i].record == entries[i].record
              && blocks[i].thumbnail == ThumbnailFor(entries[i].record, readable)
    ensures Paginated(blocks, page, y, height)
    decreases |entries|
  {
    if entries == [] then []
    else
      var page', top := if y < PageFloor then page + 1 else page,
                        if y < PageFloor then PageTop(height) else y;
      var e := entries[0];
      var b := Block(e.name, e.record, page', top, ThumbnailFor(e.record, readable));
      var rest := Layout(entries[1..], height, page', top - BlockHeight, readable);
      PaginatedCons(b, rest, page, y, height);
      [b] + rest
  }

  /** When a fresh page starts at or above the floor (pages at least 200
      points high), no block starts below the floor. */
  lemma AboveFloor(blocks: seq<Block>, page: nat, y: int, height: int)
    requires Paginated(blocks, page, y, height)
    requires PageTop(height) >= PageFloor
    ensures forall i | 0 <= i < |blocks| :: blocks[i].top >= PageFloor
  {
    forall i | 0 <= i < |blocks| ensures blocks[i].top >= PageFloor {
      assert Placed(blocks[i], PreviousPage(blocks, i, page), CursorBefore(blocks, i, y), height);
    }
  }

  /** The report body: the title on page 0, then the blocks, the cursor
      starting `TitleGap` below the title's line. */
  function GenerateReport(entries: seq<Entry>, height: int, readable: set<string>)
    : (blocks: seq<Block>)
    ensures |blocks| == |entries|
    ensures forall i | 0 <= i < |entries| ::
              && blocks[i].name == entries[i].name
              && blocks[i].record == entries[i].record
              && blocks[i].thumbnail == ThumbnailFor(entries[i].record, readable)
    ensures Paginated(blocks, 0, PageTop(height) - TitleGap, height)
  {
    Layout(entries, height, 0, PageTop(height) - TitleGap, readable)
  }

  /** Pages in the saved file: the title's page alone when there are no
      blocks, otherwise every page up to the last block's, counted from 0. */
  function PageCount(blocks: seq<Block>): (r: nat)
    ensures r >= 1
    ensures blocks == [] ==> r == 1
    ensures blocks != [] ==> r == blocks[|blocks| - 1].page + 1
  {
    if blocks == [] then 1 else blocks[|blocks| - 1].page + 1
  }

  /** The report request: a notice when the catalogue is empty, nothing
      when the user declines, otherwise the report of every entry. */
  function AskGenerateReport(s: State, confirmed: bool, height: int, readable: set<string>)
    : (r: ReportOutcome)
    ensures r.NothingDetected? <==> s.entries == []
    ensures r.Declined? <==> s.entries != [] && !confirmed
    ensures r.Generated? ==>
              && Labels(s.entries) == seq(|r.blocks|, i requires 0 <= i < |r.blocks| => r.blocks[i].name)
              && r.pages >= 1
              && (forall i | 0 <= i < |r.blocks| :: r.blocks[i].page < r.pages)
    ensures r.Generated? ==>
              && r.blocks == GenerateReport(s.entries, height, readable)
              && r.pages == PageCount(r.blocks)
  {
    if s.entries == [] then NothingDetected
    else if !confirmed then Declined
    else
      var blocks := GenerateReport(s.entries, height, readable);
      LastPageIsLast(blocks, 0, PageTop(height) - TitleGap, height);
      Generated(blocks, PageCount(blocks))
  }

  /** Pages never go back, so the last block is on the last page. */
  lemma PagesAreMonotone(entries: seq<Entry>, height: int, page: nat, y: int, readable: set<string>)
    ensures var blocks := Layout(entries, height, page, y, readable);
            forall i, j | 0 <= i <= j < |blocks| :: page <= blocks[i].page <= blocks[j].page
  {
    var blocks := Layout(entries, height, page, y, readable);
    forall i, j | 0 <= i <= j < |blocks|
      ensures page <= blocks[i].page <= blocks[j].page
    {
      PaginatedMonotone(blocks, page, y, height, i, j);
    }
  }

  /** No block lies past the page count. */
  lemma LastPageIsLast(blocks: seq<Block>, page: nat, y: int, height: int)
    requires Paginated(blocks, page, y, height)
    ensures forall i | 0 <= i < |blocks| :: blocks[i].page < PageCount(blocks)
  {
    forall i | 0 <= i < |blocks|
      ensures blocks[i].page < PageCount(blocks)
    {
      PaginatedMonotone(blocks, page, y, height, i, |blocks| - 1);
    }
  }

  lemma {:induction false} PaginatedMonotone(blocks: seq<Block>, page: nat, y: int, height: int, i: nat, j: nat)
    requires Paginated(blocks, page, y, height)
    requires i <= j < |blocks|
    ensures page <= blocks[i].page <= blocks[j].page
    decreases j
  {
    assert Placed(blocks[j], PreviousPage(blocks, j, page), CursorBefore(blocks, j, y), height);
    if j > 0 {
      if i == j {
        PaginatedMonotone(blocks, page, y, height, j - 1, j - 1);
      } else {
        PaginatedMonotone(blocks, page, y, height, i, j - 1);
      }
    }
  }

  // Closed form of the layout for pages at least 200 points high. The
  // products are written with the literal 260, the block height, which
  // keeps them linear for the solver.

  /** The literal used by the closed forms is the block height. */
  lemma BlockHeightIs260()
    ensures BlockHeight == 260
  {
  }

  /** Blocks that fit on a fresh page. */
  function PerPage(height: int): int
    requires height >= PageFloor + TopMargin
  {
    (height - PageFloor - TopMargin) / 260 + 1
  }

  /** Blocks that fit under the title on page 0. */
  function FirstPageCount(height: int): int
    requires height >= PageFloor + TopMargin
  {
    if PageTop(height) - TitleGap >= PageFloor then
      (height - TopMargin - TitleGap - PageFloor) / 260 + 1
    else 0
  }

  /** Page and top of block `i` of a report, without running the cursor. */
  function BlockPage(height: int, i: nat): int
    requires height >= PageFloor + TopMargin
  {
    if i < FirstPageCount(height) then 0
    else 1 + (i - FirstPageCount(height)) / PerPage(height)
  }

  function BlockTop(height: int, i: nat): int
    requires height >= PageFloor + TopMargin
  {
    if i < FirstPageCount(height) then PageTop(height) - TitleGap - 260 * i
    else PageTop(height) - 260 * ((i - FirstPageCount(height)) % PerPage(height))
  }

  lemma {:induction false} MulAtLeast(d: int, x: int)
    requires d > 0 && x >= 1
    ensures d * x >= d
    decreases x
  {
    if x > 1 {
      MulAtLeast(d, x - 1);
      assert d * x == d * (x - 1) + d;
    }
  }

  /** Quotient and remainder are determined by `a == d * q + r` with
      `0 <= r < d`. */
  lemma DivModUnique(a: int, d: int, q: int, r: int)
    requires 0 < d && 0 <= r < d && a == d * q + r
    ensures a / d == q && a % d == r
  {
    var q', r' := a / d, a % d;
    assert a == d * q' + r';
    assert d * (q - q') == r' - r by {
      assert d * (q - q') == d * q - d * q';
    }
    if q > q' {
      MulAtLeast(d, q - q');
    } else if q < q' {
      MulAtLeast(d, q' - q);
    }
  }

  lemma PerPageBounds(height: int)
    requires height >= PageFloor + TopMargin
    ensures PerPage(height) >= 1
    ensures 260 * (PerPage(height) - 1) <= height - PageFloor - TopMargin < 260 * PerPage(height)
  {
  }

  lemma FirstPageBounds(height: int)
    requires height >= PageFloor + TopMargin
    ensures var first := FirstPageCount(height);
            && first >= 0
            && (first > 0 ==> PageTop(height) - TitleGap - 260 * (first - 1) >= PageFloor)
            && PageTop(height) - TitleGap - 260 * first < PageFloor
  {
  }

  /** Moving from slot `n - 1` to slot `n` of pages holding `per` blocks:
      the next row of the same page, or row 0 of the next page. */
  lemma SlotStep(n: int, per: int)
    requires n >= 1 && per >= 1
    ensures var q, r := (n - 1) / per, (n - 1) % per;
            && (r + 1 < per ==> n / per == q && n % per == r + 1)
            && (r + 1 == per ==> n / per == q + 1 && n % per == 0)
  {
    var q, r := (n - 1) / per, (n - 1) % per;
    assert n == per * q + r + 1;
    if r + 1 < per {
      DivModUnique(n, per, q, r + 1);
    } else {
      assert n == per * (q + 1);
      DivModUnique(n, per, q + 1, 0);
    }
  }

  /** The closed form obeys the cursor rule: a block placed from the
      bottom of block `i - 1` lands where the closed form puts block `i`. */
  lemma NextPosition(height: int, i: nat, page: nat, top: int)
    requires height >= PageFloor + TopMargin && i > 0
    requires var cursor := BlockTop(height, i - 1) - BlockHeight;
             && (cursor < PageFloor ==> page == BlockPage(height, i - 1) + 1 && top == PageTop(height))
             && (cursor >= PageFloor ==> page == BlockPage(height, i - 1) && top == cursor)
    ensures page == BlockPage(height, i) && top == BlockTop(height, i)
  {
    var first, per := FirstPageCount(height), PerPage(height);
    FirstPageBounds(height);
    PerPageBounds(height);
    if i == first {
      DivModUnique(0, per, 0, 0);
    } else if i > first {
      SlotStep(i - first, per);
    }
  }

  /** Block `i` of a paginated report sits where the closed form says,
      by induction over the blocks before it. */
  lemma {:induction false} PaginatedPositions(blocks: seq<Block>, height: int, i: nat)
    requires height >= PageFloor + TopMargin
    requires Paginated(blocks, 0, PageTop(height) - TitleGap, height)
    requires i < |blocks|
    ensures blocks[i].page == BlockPage(height, i) && blocks[i].top == BlockTop(height, i)
    decreases i
  {
    assert Placed(blocks[i], PreviousPage(blocks, i, 0), CursorBefore(blocks, i, PageTop(height) - TitleGap), height);
    if i == 0 {
      FirstPageBounds(height);
      DivModUnique(0, PerPage(height), 0, 0);
    } else {
      PaginatedPositions(blocks, height, i - 1);
      NextPosition(height, i, blocks[i].page, blocks[i].top);
    }
  }

  /** Where every block of a report lands, in closed form: the first
      `FirstPageCount` blocks under the title on page 0, then `PerPage`
      blocks to each further page from its top. */
  lemma ReportPositions(entries: seq<Entry>, height: int, readable: set<string>)
    requires height >= PageFloor + TopMargin
    ensures var blocks := GenerateReport(entries, height, readable);
            forall i | 0 <= i < |blocks| ::
              blocks[i].page == BlockPage(height, i) && blocks[i].top == BlockTop(height, i)
  {
    var blocks := GenerateReport(entries, height, readable);
    forall i | 0 <= i < |blocks|
      ensures blocks[i].page == BlockPage(height, i) && blocks[i].top == BlockTop(height, i)
    {
      PaginatedPositions(blocks, height, i);
    }
  }

  /** On an A4 page (841.89 points, whose cursor decisions match those of
      841), three blocks fit under the title and three on each later page. */
  lemma A4Example(entries: seq<Entry>, readable: set<string>)
    requires |entries| == 4
    ensures var blocks := GenerateReport(entries, 841, readable);
            && blocks[0].page == 0 && blocks[0].top == 761
            && blocks[1].page == 0 && blocks[1].top == 501
            && blocks[2].page == 0 && blocks[2].top == 241
            && blocks[3].page == 1 && blocks[3].top == 791
            && PageCount(blocks) == 2
  {
    ReportPositions(entries, 841, readable);
    assert FirstPageCount(841) == 3 && PerPage(841) == 3;
  }
}
