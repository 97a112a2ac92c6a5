/**
 * Placement of the session's photos on the PDF pages (addPhotosToPDF):
 * two cells per row, a cell size chosen once from the photo count, and a
 * page break checked after every completed row.
 */
module PhotoLayout {

  /** Width of every cell, in millimetres. */
  const CellWidth: real := 85.0
  /** Cells per row. */
  const PhotosPerRow: nat := 2
  /** The break test keeps this much room at the bottom of a page. */
  const BottomMargin: real := 20.0
  /** Vertical position of the first row on a freshly added page. */
  const TopAfterBreak: real := 20.0
  /** Largest photo count that still gets the large cells. */
  const LargeTierLimit: nat := 4

  /** Cell height and inter-cell spacing chosen by the photo count. */
  datatype Tier = Tier(cellHeight: real, spacing: real)

  function TierFor(count: nat): Tier
  {
    if count <= LargeTierLimit then Tier(110.0, 10.0) else Tier(76.5, 5.0)
  }

  /** Where the layout starts (the left margin and the top of the photo area) and the page height. */
  datatype Geometry = Geometry(startX: real, startY: real, pageHeight: real)

  /** One `addImage` call: the page it lands on (0 is the first page), the rectangle, and the photo's position in the session. */
  datatype Placement = Placement(page: nat, x: real, y: real, width: real, height: real, photo: nat)

  /** The page index and top edge of a row of cells. */
  datatype Cursor = Cursor(page: nat, y: real)

  /** The cursor after a completed row: drop one row, then break the page if the next row would cross the bottom margin. */
  function NextRow(g: Geometry, t: Tier, c: Cursor): (r: Cursor)
    ensures r.page == c.page || r.page == c.page + 1
    ensures r.page == c.page <==> c.y + t.cellHeight + t.spacing + t.cellHeight <= g.pageHeight - BottomMargin
    ensures r.page == c.page ==> r.y == c.y + t.cellHeight + t.spacing
    ensures r.page != c.page ==> r.y == TopAfterBreak
  {
    var y := c.y + t.cellHeight + t.spacing;
    if y + t.cellHeight > g.pageHeight - BottomMargin then Cursor(c.page + 1, TopAfterBreak) else Cursor(c.page, y)
  }

  /** The cursor at the start of row `k`, that is, after `k` completed rows. */
  function RowCursor(g: Geometry, t: Tier, k: nat): (r: Cursor)
    ensures r.page <= k
  {
    if k == 0 then Cursor(0, g.startY) else NextRow(g, t, RowCursor(g, t, k - 1))
  }

  /** Left edge of column `col` (0 or 1). */
  function ColumnX(g: Geometry, t: Tier, col: nat): real
  {
    if col == 0 then g.startX else g.startX + CellWidth + t.spacing
  }

  /**
   * What the layout of `count` photos is: one cell per photo in photo order,
   * every cell 85 wide and 110 high (76.5 for more than four photos), even
   * positions in the left column and odd ones in the right, 10 (or 5) to the
   * right of the first column's cells, each row on the page and at the
   * height its cursor gives; and one added page per page break after a
   * completed row.
   */
  ghost predicate IsLayout(count: nat, g: Geometry, cells: seq<Placement>, pagesAdded: nat)
  {
    var t := TierFor(count);
    var height := if count <= 4 then 110.0 else 76.5;
    var spacing := if count <= 4 then 10.0 else 5.0;
    && |cells| == count
    && (forall i :: 0 <= i < count ==> cells[i].photo == i)
    && (forall i :: 0 <= i < count ==> cells[i].width == 85.0 && cells[i].height == height)
    && (forall i :: 0 <= i < count ==> cells[i].x == (if i % 2 == 0 then g.startX else g.startX + 85.0 + spacing))
    && (forall i :: 0 <= i < count ==> cells[i].page == RowCursor(g, t, i / 2).page)
    && (forall i :: 0 <= i < count ==> cells[i].y == RowCursor(g, t, i / 2).y)
    && pagesAdded == RowCursor(g, t, count / 2).page
  }

  /**
   * The loop of addPhotosToPDF over `count` photos. It returns the image
   * placements in call order and the number of `addPage` calls.
   */
  method AddPhotosToPdf(count: nat, g: Geometry) returns (cells: seq<Placement>, pagesAdded: nat)
    ensures IsLayout(count, g, cells, pagesAdded)
  {
    var t := TierFor(count);
    var x := g.startX;
    var y := g.startY;
    var page: nat := 0;
    var photosInCurrentRow: nat := 0;
    cells := [];
    for i := 0 to count
      invariant |cells| == i
      invariant photosInCurrentRow == i % 2
      invariant x == ColumnX(g, t, photosInCurrentRow)
      invariant Cursor(page, y) == RowCursor(g, t, i / 2)
      invariant forall j :: 0 <= j < i ==> cells[j] == Placement(RowCursor(g, t, j / 2).page, ColumnX(g, t, j % 2), RowCursor(g, t, j / 2).y, CellWidth, t.cellHeight, j)
    {
      cells := cells + [Placement(page, x, y, CellWidth, t.cellHeight, i)];
      photosInCurrentRow := photosInCurrentRow + 1;
      if photosInCurrentRow >= PhotosPerRow {
        x := g.startX;
        y := y + t.cellHeight + t.spacing;
        photosInCurrentRow := 0;
        if y + t.cellHeight > g.pageHeight - BottomMargin {
          page := page + 1;
          y := TopAfterBreak;
        }
      } else {
        x := x + CellWidth + t.spacing;
      }
    }
    pagesAdded := page;
  }

  // ---------------------------------------------------------------------
  // Properties of the row recursion

  /** Zero photos: no cell and no page break. */
  lemma NoPhotosNoLayout(g: Geometry)
    ensures IsLayout(0, g, [], 0)
  {
  }

  /** Rows never move to an earlier page, and row `k` is at most on page `k`. */
  lemma {:induction false} PagesNondecreasing(g: Geometry, t: Tier, j: nat, k: nat)
    requires j <= k
    ensures RowCursor(g, t, j).page <= RowCursor(g, t, k).page <= RowCursor(g, t, j).page + (k - j)
  {
    if j < k {
      PagesNondecreasing(g, t, j, k - 1);
    }
  }

  /** Every row after the first is either the first row of a fresh page or fits above the bottom margin. */
  lemma RowAfterFirstFits(g: Geometry, t: Tier, k: nat)
    requires k >= 1
    ensures RowCursor(g, t, k).y == TopAfterBreak || RowCursor(g, t, k).y + t.cellHeight <= g.pageHeight - BottomMargin
  {
  }

  /** Top edge of row `j` when no page break has happened yet. */
  function UnbrokenY(g: Geometry, t: Tier, j: nat): real
  {
    g.startY + (j as real) * (t.cellHeight + t.spacing)
  }

  /** While rows keep fitting, they all stay on the first page and row `k` sits `k` row heights below the start. */
  lemma {:induction false} FirstPageRows(g: Geometry, t: Tier, k: nat)
    requires forall j :: 1 <= j <= k ==> UnbrokenY(g, t, j) + t.cellHeight <= g.pageHeight - BottomMargin
    ensures RowCursor(g, t, k) == Cursor(0, UnbrokenY(g, t, k))
  {
    if k > 0 {
      FirstPageRows(g, t, k - 1);
      assert UnbrokenY(g, t, k) == UnbrokenY(g, t, k - 1) + t.cellHeight + t.spacing;
    }
  }

  /** After `k` rows from a cursor `c`, as a geometry that starts at `c.y` on page `c.page` sees it. */
  function Continue(g: Geometry, t: Tier, c: Cursor, k: nat): Cursor
  {
    var r := RowCursor(Geometry(g.startX, c.y, g.pageHeight), t, k);
    Cursor(c.page + r.page, r.y)
  }

  /** Laying out `a + b` rows is laying out `a` rows and then `b` more from where they ended: each page starts the same process afresh. */
  lemma {:induction false} RowsCompose(g: Geometry, t: Tier, a: nat, b: nat)
    ensures RowCursor(g, t, a + b) == Continue(g, t, RowCursor(g, t, a), b)
  {
    if b > 0 {
      RowsCompose(g, t, a, b - 1);
      var c := RowCursor(g, t, a);
      var g' := Geometry(g.startX, c.y, g.pageHeight);
      assert RowCursor(g', t, b) == NextRow(g', t, RowCursor(g', t, b - 1));
    }
  }

  /** A trailing page is added exactly when the last completed row demands one. */
  lemma TrailingPage(count: nat, g: Geometry)
    requires count >= 2
    ensures var t := TierFor(count);
            var k := count / 2;
            RowCursor(g, t, k).page == RowCursor(g, t, k - 1).page + 1
            <==> RowCursor(g, t, k - 1).y + t.cellHeight + t.spacing + t.cellHeight > g.pageHeight - BottomMargin
  {
  }

  /** With an even count, a page added after the last row holds none of the photos: it stays empty. */
  lemma TrailingPageEmpty(count: nat, g: Geometry, cells: seq<Placement>, pagesAdded: nat)
    requires count >= 2 && count % 2 == 0
    requires IsLayout(count, g, cells, pagesAdded)
    requires RowCursor(g, TierFor(count), count / 2 - 1).y + TierFor(count).cellHeight + TierFor(count).spacing
             + TierFor(count).cellHeight > g.pageHeight - BottomMargin
    ensures forall i :: 0 <= i < count ==> cells[i].page < pagesAdded
  {
    var t := TierFor(count);
    var k := count / 2;
    forall i | 0 <= i < count
      ensures cells[i].page < pagesAdded
    {
      PagesNondecreasing(g, t, i / 2, k - 1);
    }
  }

  // ---------------------------------------------------------------------
  // The call site: margin 20, photos from y = 90, on an A4 page (297 mm)

  function A4(): Geometry { Geometry(20.0, 90.0, 297.0) }

  function PagesOf(count: nat, g: Geometry): (r: seq<nat>)
    ensures |r| == count
  {
    seq(count, i requires 0 <= i < count => RowCursor(g, TierFor(count), i / 2).page)
  }

  /** Two large photos fill one row; the check after it adds a second, empty page. */
  lemma TwoPhotosAddEmptyPage()
    ensures PagesOf(2, A4()) == [0, 0]
    ensures RowCursor(A4(), TierFor(2), 1) == Cursor(1, 20.0)
  {
  }

  /** Four large photos: one row on each page, with no trailing page. */
  lemma FourPhotosTwoPages()
    ensures PagesOf(4, A4()) == [0, 0, 1, 1]
    ensures RowCursor(A4(), TierFor(4), 1) == Cursor(1, 20.0)
    ensures RowCursor(A4(), TierFor(4), 2) == Cursor(1, 140.0)
  {
  }

  /** Five small photos: two rows on the first page, the fifth alone at the top of the second. */
  lemma FivePhotos()
    ensures PagesOf(5, A4()) == [0, 0, 0, 0, 1]
    ensures RowCursor(A4(), TierFor(5), 1) == Cursor(0, 171.5)
    ensures RowCursor(A4(), TierFor(5), 2) == Cursor(1, 20.0)
  {
  }

  /** Six small photos: two rows on the first page, one on the second. */
  lemma SixPhotos()
    ensures PagesOf(6, A4()) == [0, 0, 0, 0, 1, 1]
    ensures RowCursor(A4(), TierFor(6), 3) == Cursor(1, 101.5)
  {
  }
}
