/** Text cells of a terminal as addresses in the frame buffer. A pixel takes three bytes; a
    cell is addressed by its top left pixel. */
module TextGrid {
  const PIXEL_SIZE := 3

  datatype Grid = Grid(start: nat, width: nat, rows: nat, cols: nat, charWidth: nat, charHeight: nat) {
    ghost predicate Valid() {
      0 < rows && 0 < cols && 0 < charWidth && 0 < charHeight && cols * charWidth <= width
    }

    function Count(): nat { rows * cols }

    function RowPixels(): nat { width * charHeight }

    function RowBytes(): nat { PIXEL_SIZE * RowPixels() }

    // ----- as in VGA_driver.c

    function AdvanceXTextRows(a: int, row: int): int { a + RowBytes() * row }

    function GetTextRow(pix: int): int
      requires Valid()
    {
      RowPixelsPositive();
      (pix - start) / PIXEL_SIZE / RowPixels()
    }

    function GetTextCol(rowStart: int, pix: int): int
      requires Valid()
    {
      (pix - rowStart) / PIXEL_SIZE / charWidth
    }

    /** The cell in row r and column c. */
    function Cell(r: int, c: int): int { AdvanceXTextRows(start, r) + PIXEL_SIZE * (charWidth * c) }

    /** Cells are numbered along the rows; numbers below zero lie on rows that have scrolled
        off. */
    function Address(p: int): int
      requires Valid()
    {
      Cell(p / cols, p % cols)
    }

    lemma RowPixelsPositive()
      requires Valid()
      ensures RowPixels() >= width >= charWidth > 0
    {
      assert cols * charWidth >= charWidth by { MulMono(1, cols, charWidth); }
      MulMono(1, charHeight, width);
    }
  }

  lemma MulMono(a: int, b: int, c: int)
    requires a <= b && 0 <= c
    ensures a * c <= b * c
  {
  }

  lemma DivModIs(d: int, q: int, r: int)
    requires 0 <= r < d
    ensures (d * q + r) / d == q && (d * q + r) % d == r
  {
    var p := d * q + r;
    assert p == d * (p / d) + p % d;
    assert d * (q - p / d) == p % d - r;
    if q > p / d { MulMono(1, q - p / d, d); }
    if q < p / d { MulMono(1, p / d - q, d); }
  }

  /** Row and column recovered by the divisions are those of the cell. */
  lemma CellIsRecovered(g: Grid, r: int, c: int)
    requires g.Valid() && 0 <= c < g.cols
    ensures g.GetTextRow(g.Cell(r, c)) == r
    ensures g.GetTextCol(g.AdvanceXTextRows(g.start, r), g.Cell(r, c)) == c
  {
    hide Grid.RowPixels;
    var w := g.charWidth;
    assert 0 <= w * c < g.RowPixels() by {
      g.RowPixelsPositive();
      MulMono(c, g.cols - 1, w);
      MulMono(0, c, w);
      assert g.cols * w - w == (g.cols - 1) * w;
    }
    assert g.Cell(r, c) - g.start == PIXEL_SIZE * (g.RowPixels() * r + w * c) by {
      assert g.RowBytes() * r == PIXEL_SIZE * (g.RowPixels() * r);
    }
    DivModIs(g.RowPixels(), r, w * c);
    DivModIs(w, c, 0);
  }

  /** The cell to the right, within a row and across its end. */
  lemma NextCell(g: Grid, p: int)
    requires g.Valid()
    ensures p % g.cols != g.cols - 1 ==> g.Address(p + 1) == g.Address(p) + PIXEL_SIZE * g.charWidth
    ensures p % g.cols == g.cols - 1 ==> g.Address(p + 1) == g.Cell(p / g.cols + 1, 0)
  {
    hide Grid.RowPixels, Grid.RowBytes, Grid.AdvanceXTextRows;
    var q, r := p / g.cols, p % g.cols;
    assert p == g.cols * q + r;
    if r != g.cols - 1 {
      DivModIs(g.cols, q, r + 1);
      assert g.charWidth * (r + 1) == g.charWidth * r + g.charWidth;
    } else {
      assert p + 1 == g.cols * (q + 1) + 0;
      DivModIs(g.cols, q + 1, 0);
    }
  }

  /** The same column one row up. */
  lemma RowAbove(g: Grid, p: int)
    requires g.Valid()
    ensures (p - g.cols) / g.cols == p / g.cols - 1 && (p - g.cols) % g.cols == p % g.cols
    ensures g.Address(p - g.cols) == g.Address(p) - g.RowBytes()
  {
    var q, r := p / g.cols, p % g.cols;
    assert p - g.cols == g.cols * (q - 1) + r;
    DivModIs(g.cols, q - 1, r);
    assert g.RowBytes() * (q - 1) == g.RowBytes() * q - g.RowBytes();
  }

  /** Only the first cell of a row has the row's address. */
  lemma RowStart(g: Grid, r: int)
    requires g.Valid()
    ensures g.Address(g.cols * r) == g.Cell(r, 0) == g.AdvanceXTextRows(g.start, r)
  {
    DivModIs(g.cols, r, 0);
  }

  lemma RowIsInside(g: Grid, p: nat)
    requires g.Valid() && p < g.Count()
    ensures 0 <= p / g.cols < g.rows
    ensures p / g.cols == g.rows - 1 && p % g.cols == g.cols - 1 <==> p == g.Count() - 1
  {
    var q, r := p / g.cols, p % g.cols;
    assert p == g.cols * q + r;
    if q >= g.rows { MulMono(g.rows, q, g.cols); }
    assert g.cols * (g.rows - 1) + (g.cols - 1) == g.Count() - 1;
    if p == g.Count() - 1 { DivModIs(g.cols, g.rows - 1, g.cols - 1); }
  }

  lemma FirstCell(g: Grid)
    requires g.Valid()
    ensures g.Address(0) == g.Cell(0, 0) == g.start
  {
    DivModIs(g.cols, 0, 0);
  }

  /** Different rows and different columns have different addresses. */
  lemma RowAddressIs(g: Grid, p: int, r: int)
    requires g.Valid()
    ensures g.AdvanceXTextRows(g.start, p / g.cols) == g.AdvanceXTextRows(g.start, r) <==> p / g.cols == r
    ensures g.Address(p) == g.AdvanceXTextRows(g.start, p / g.cols) <==> p % g.cols == 0
    ensures g.Address(p) == g.start <==> p == 0
  {
    hide Grid.GetTextRow, Grid.GetTextCol, Grid.RowPixels, Grid.RowBytes, Grid.AdvanceXTextRows;
    CellIsRecovered(g, p / g.cols, p % g.cols);
    CellIsRecovered(g, r, 0);
    CellIsRecovered(g, p / g.cols, 0);
    CellIsRecovered(g, 0, 0);
    FirstCell(g);
    assert p == g.cols * (p / g.cols) + p % g.cols;
  }

  /** What the address arithmetic of inc_textCursor finds out about cell p: whether it ends
      its row, whether that is the last row, and where the next cell is. */
  lemma IncArithmetic(g: Grid, p: nat)
    requires g.Valid() && p < g.Count()
    ensures var a := g.Address(p);
            var rowStart := g.AdvanceXTextRows(g.start, g.GetTextRow(a));
            var last := g.AdvanceXTextRows(g.start, g.rows - 1);
            if g.GetTextCol(rowStart, a) == g.cols - 1
            then (rowStart == last <==> p == g.Count() - 1) && g.Address(p + 1) == g.AdvanceXTextRows(rowStart, 1)
            else p != g.Count() - 1 && g.Address(p + 1) == a + PIXEL_SIZE * g.charWidth
  {
    hide Grid.GetTextRow, Grid.GetTextCol, Grid.RowPixels, Grid.RowBytes, Grid.AdvanceXTextRows;
    var q := p / g.cols;
    CellIsRecovered(g, q, p % g.cols);
    NextCell(g, p);
    RowIsInside(g, p);
    RowAddressIs(g, p, g.rows - 1);
    NextRowStart(g, q);
  }

  lemma NextRowStart(g: Grid, r: int)
    requires g.Valid()
    ensures g.AdvanceXTextRows(g.AdvanceXTextRows(g.start, r), 1) == g.Cell(r + 1, 0)
  {
    assert g.RowBytes() * (r + 1) == g.RowBytes() * r + g.RowBytes();
  }

  lemma LastRow(g: Grid)
    requires g.Valid()
    ensures 0 <= g.Count() - g.cols
    ensures g.Address(g.Count() - g.cols) == g.AdvanceXTextRows(g.start, g.rows - 1)
  {
    MulMono(1, g.rows, g.cols);
    assert g.Count() - g.cols == g.cols * (g.rows - 1);
    RowStart(g, g.rows - 1);
  }

  lemma PreviousRowEnd(g: Grid, p: int)
    requires g.Valid() && p % g.cols == 0
    ensures g.Address(p - 1) == g.Cell(p / g.cols - 1, g.cols - 1)
  {
    var q := p / g.cols;
    assert p == g.cols * q;
    assert p - 1 == g.cols * (q - 1) + (g.cols - 1);
    DivModIs(g.cols, q - 1, g.cols - 1);
  }

  lemma SameRowBefore(g: Grid, p: int)
    requires g.Valid() && p % g.cols != 0
    ensures (p - 1) % g.cols == p % g.cols - 1
  {
    DivModIs(g.cols, p / g.cols, p % g.cols - 1);
  }

  /** What dec_textCursor finds out about cell p. */
  lemma DecArithmetic(g: Grid, p: nat)
    requires g.Valid() && p < g.Count()
    ensures var a := g.Address(p);
            var rowStart := g.AdvanceXTextRows(g.start, g.GetTextRow(a));
            && (a == g.start <==> p == 0)
            && (p > 0 ==> g.Address(p - 1)
                          == if a == rowStart
                             then rowStart - g.RowBytes() + PIXEL_SIZE * (g.charWidth * (g.cols - 1))
                             else a - PIXEL_SIZE * g.charWidth)
  {
    hide Grid.GetTextRow, Grid.GetTextCol, Grid.RowPixels, Grid.RowBytes, Grid.AdvanceXTextRows;
    CellIsRecovered(g, p / g.cols, p % g.cols);
    RowAddressIs(g, p, 0);
    if p > 0 {
      if p % g.cols == 0 {
        PreviousRowEnd(g, p);
        RowBefore(g, p / g.cols);
      } else {
        SameRowBefore(g, p);
        NextCell(g, p - 1);
      }
    }
  }

  lemma RowBefore(g: Grid, r: int)
    requires g.Valid()
    ensures g.AdvanceXTextRows(g.start, r - 1) == g.AdvanceXTextRows(g.start, r) - g.RowBytes()
  {
    assert g.RowBytes() * (r - 1) == g.RowBytes() * r - g.RowBytes();
  }

  /** Going to the start of row r. */
  lemma RowArithmetic(g: Grid, p: int, r: nat)
    requires g.Valid() && 0 <= p < g.Count()
    ensures g.GetTextRow(g.Address(p)) == p / g.cols
    ensures g.Address(g.cols * r) == g.AdvanceXTextRows(g.start, r)
    ensures r > g.rows - 1 <==> g.cols * r >= g.Count()
  {
    hide Grid.GetTextRow, Grid.GetTextCol, Grid.RowPixels, Grid.RowBytes, Grid.AdvanceXTextRows;
    CellIsRecovered(g, p / g.cols, p % g.cols);
    RowStart(g, r);
    if r > g.rows - 1 { MulMono(g.rows, r, g.cols); } else { MulMono(r + 1, g.rows, g.cols); }
  }
}
