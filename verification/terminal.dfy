/** The text mode of the video driver: the cursor is an address in the frame buffer, and rows
    and columns are recovered from it. A cell's pixels are kept together, one entry a cell. */
module Terminals {
  import opened CString
  import opened TextGrid
  import opened TextScreen
  import opened Wrappers

  /** The number of cells in k rows. */
  ghost function InRows(k: nat, n: nat): nat {
    MulMono(0, k, n);
    k * n
  }

  lemma NextRowFits(row: nat, rows: nat, n: nat)
    requires row < rows
    ensures InRows(0, n) == 0 && InRows(row + 1, n) == InRows(row, n) + n <= InRows(rows, n)
  {
    MulMono(row + 1, rows, n);
    assert (row + 1) * n == row * n + n;
  }

  lemma GridFits(g: Grid)
    requires g.Valid()
    ensures 0 < g.cols && 0 < g.rows && g.Count() == g.rows * g.cols && g.cols <= g.Count()
    ensures g.Count() % g.cols == 0
  {
    MulMono(1, g.rows, g.cols);
    DivModIs(g.cols, g.rows, 0);
  }

  /** One row of cells copied onto the row above it. */
  ghost function RowCopied(m: seq<Cell>, dest: nat, n: nat): seq<Cell>
    requires dest + 2 * n <= |m|
  {
    m[..dest] + m[dest + n..dest + 2 * n] + m[dest + n..]
  }

  method CopyRowUp(cells: array<Cell>, dest: nat, n: nat)
    requires dest + 2 * n <= cells.Length
    modifies cells
    ensures cells[..] == RowCopied(old(cells[..]), dest, n)
  {
    ghost var was, t := cells[..], RowCopied(cells[..], dest, n);
    var i := 0;
    while i < n
      invariant 0 <= i <= n
      invariant forall j | 0 <= j < cells.Length :: cells[j] == if dest <= j < dest + i then t[j] else was[j]
    {
      assert t[dest + i] == was[dest + n + i];
      cells[dest + i] := cells[dest + n + i];
      i := i + 1;
    }
  }

  /** The rows above `base` have moved up. */
  ghost function Shifted(m: seq<Cell>, base: nat, n: nat): seq<Cell>
    requires base + n <= |m|
  {
    m[n..base + n] + m[base..]
  }

  lemma ShiftStep(m: seq<Cell>, base: nat, n: nat)
    requires base + n + n <= |m|
    ensures |Shifted(m, base, n)| == |m|
    ensures RowCopied(Shifted(m, base, n), base, n) == Shifted(m, base + n, n)
  {
    hide Shifted, RowCopied;
    ShiftedSize(m, base, n);
    var s, t := Shifted(m, base, n), Shifted(m, base + n, n);
    CopiedSize(s, base, n);
    ShiftedSize(m, base + n, n);
    forall i | 0 <= i < |m| ensures RowCopied(s, base, n)[i] == t[i] {
      ShiftedAt(m, base, n, i);
      ShiftedAt(m, base + n, n, i);
      CopiedAt(s, base, n, i);
      if base <= i < base + n { ShiftedAt(m, base, n, i + n); }
    }
  }

  lemma ShiftedSize(m: seq<Cell>, base: nat, n: nat)
    requires base + n <= |m|
    ensures |Shifted(m, base, n)| == |m|
  {
  }

  lemma ShiftedAt(m: seq<Cell>, base: nat, n: nat, i: nat)
    requires base + n <= |m| && i < |m|
    ensures |Shifted(m, base, n)| == |m| && Shifted(m, base, n)[i] == if i < base then m[i + n] else m[i]
  {
  }

  lemma CopiedSize(m: seq<Cell>, dest: nat, n: nat)
    requires dest + 2 * n <= |m|
    ensures |RowCopied(m, dest, n)| == |m|
  {
  }

  lemma CopiedAt(m: seq<Cell>, dest: nat, n: nat, i: nat)
    requires dest + 2 * n <= |m| && i < |m|
    ensures |RowCopied(m, dest, n)| == |m|
    ensures RowCopied(m, dest, n)[i] == if dest <= i < dest + n then m[i + n] else m[i]
  {
  }

  lemma NothingShifted(m: seq<Cell>, n: nat, rows: nat)
    requires 0 < rows && |m| == InRows(rows, n)
    ensures n <= |m| && Shifted(m, 0, n) == m
  {
    NextRowFits(0, rows, n);
    assert m[n..n] + m == m;
  }

  lemma AllShifted(m: seq<Cell>, n: nat, pixels: nat)
    requires n <= |m| && forall i | 0 <= i < |m| :: |m[i]| == pixels
    ensures Shifted(m, |m| - n, n) == m[n..] + m[|m| - n..]
    ensures forall c | c in Shifted(m, |m| - n, n) :: |c| == pixels
  {
  }

  method ShiftRowsUp(cells: array<Cell>, rows: nat, n: nat)
    requires 0 < rows && cells.Length == InRows(rows, n)
    modifies cells
    ensures n <= cells.Length && cells[..] == Shifted(old(cells[..]), cells.Length - n, n)
  {
    hide RowCopied, InRows, Shifted;
    ghost var was := cells[..];
    NothingShifted(was, n, rows);
    var row, base := 0, 0;
    NextRowFits(0, rows, n);
    NextRowFits(rows - 1, rows, n);
    while row < rows - 1
      invariant 0 <= row <= rows - 1 && 0 <= base == InRows(row, n) && base + n <= cells.Length
      invariant cells[..] == Shifted(was, base, n)
    {
      NextRowFits(row, rows, n);
      NextRowFits(row + 1, rows, n);
      ShiftStep(was, base, n);
      CopyRowUp(cells, base, n);
      row, base := row + 1, base + n;
    }
  }

  lemma Recombine(p: nat, cols: nat)
    requires 0 < cols
    ensures p / cols * cols + p % cols == p
  {
  }

  class Terminal {
    const grid: Grid
    const style: Style
    const cells: array<Cell>
    var textCursor: int
    var inputStart: int
    /** The cells that textCursor and inputStart are the addresses of. */
    ghost var at: nat
    ghost var home: int

    ghost predicate Valid()
      reads this, cells
    {
      && grid.Valid() && style.Valid() && cells.Length == grid.Count() && at < grid.Count()
      && (forall i | 0 <= i < cells.Length :: |cells[i]| == style.pixels)
      && textCursor == grid.Address(at) && inputStart == grid.Address(home)
    }

    ghost function View(): (v: View)
      requires Valid()
      reads this, cells
      ensures v.Valid()
    {
      GridFits(grid);
      TextScreen.View(cells[..], grid.cols, at, home)
    }

    function Blank(): Cell
      requires style.Valid()
    {
      Drawn(style, 0, style.paper)
    }

    /** Draw into the cell at the cursor. */
    method PrintChar(ch: Byte, ink: Option<Color>, paper: Option<Color>)
      requires Valid()
      modifies cells
      ensures Valid() && View() == Put(old(View()), Painted(old(cells[at]), style.font[ch], ink, paper))
    {
      hide Grid.Cell, Grid.RowPixels, Grid.RowBytes, Grid.AdvanceXTextRows, Grid.GetTextRow, Grid.GetTextCol;
      CellIsRecovered(grid, at / grid.cols, at % grid.cols);
      var row := grid.GetTextRow(textCursor);
      var col := grid.GetTextCol(grid.AdvanceXTextRows(grid.start, row), textCursor);
      var i := row * grid.cols + col;
      Recombine(at, grid.cols);
      cells[i] := Painted(cells[i], style.font[ch], ink, paper);
    }

    method UnplotTextCursor(ch: Byte)
      requires Valid()
      modifies cells
      ensures Valid() && View() == Put(old(View()), Painted(old(cells[at]), style.font[ch], None, Some(style.paper)))
    {
      PrintChar(ch, None, Some(style.paper));
    }

    method PlotTextCursor(ch: Byte)
      requires Valid()
      modifies cells
      ensures Valid() && View() == Put(old(View()), Painted(old(cells[at]), style.font[ch], None, Some(style.highlight)))
    {
      PrintChar(ch, None, Some(style.highlight));
    }

    /** Copy every row but the first one row up; the last stays as it is. */
    method ShiftTextScreenUpOneRow()
      requires Valid()
      modifies cells
      ensures Valid() && cells.Length >= grid.cols
      ensures cells[..] == old(cells[..])[grid.cols..] + old(cells[..])[cells.Length - grid.cols..]
    {
      hide Grid.Address, Style.Valid, Shifted;
      GridFits(grid);
      ShiftRowsUp(cells, grid.rows, grid.cols);
      AllShifted(old(cells[..]), grid.cols, style.pixels);
      assert forall i | 0 <= i < cells.Length :: cells[i] in cells[..];
    }

    /** Draw a character as text. */
    method PrintGlyph(ch: Byte)
      requires Valid()
      modifies cells
      ensures Valid() && View() == Put(old(View()), Drawn(style, ch, style.paper))
    {
      PrintShows(style, cells[at], ch);
      PrintChar(ch, Some(style.ink), Some(style.paper));
    }

    /** Put the cursor back to where it was. */
    method SetTextCursor(a: int, ghost p: nat)
      requires Valid() && p < grid.Count() && a == grid.Address(p)
      modifies this
      ensures Valid() && View() == old(View()).(at := p)
    {
      textCursor, at := a, p;
    }

    /** One cell to the right; past the last cell the screen scrolls. */
    method IncTextCursor()
      requires Valid()
      modifies this, cells
      ensures Valid() && View() == Inc(old(View()), Blank())
      decreases if at + 1 == grid.Count() then 2 else 0
    {
      hide Grid.Address, Grid.AdvanceXTextRows, Grid.RowBytes, Grid.GetTextRow, Grid.GetTextCol;
      hide Style.Valid, Drawn, Scrolled, ClearX;
      IncArithmetic(grid, at);
      var row := grid.GetTextRow(textCursor);
      var rowStart := grid.AdvanceXTextRows(grid.start, row);
      if grid.GetTextCol(rowStart, textCursor) == grid.cols - 1 {
        var lastRow := grid.AdvanceXTextRows(grid.start, grid.rows - 1);
        if rowStart == lastRow {
          ShiftTextScreenUpOneRow();
          textCursor := lastRow;
          inputStart := inputStart - grid.RowBytes();
          LastRow(grid);
          RowAbove(grid, home);
          at, home := grid.Count() - grid.cols, home - grid.cols;
          ShiftAndClear(old(View()), View(), Blank());
          ClearXCells(grid.cols);
        } else {
          textCursor := grid.AdvanceXTextRows(rowStart, 1);
          at := at + 1;
        }
      } else {
        textCursor := textCursor + PIXEL_SIZE * grid.charWidth;
        at := at + 1;
      }
    }

    /** Blank x cells from the cursor on. Only a clear that runs past the last cell scrolls, and
        the row that scrolling clears never does: so the recursion ends. */
    method ClearXCells(x: nat)
      requires Valid()
      modifies this, cells
      ensures Valid() && View() == ClearX(old(View()), x, Blank())
      decreases if at + x > grid.Count() then 3 else 1
    {
      var saved := textCursor;
      ghost var first := at;
      var i := 0;
      while i < x
        invariant 0 <= i <= x && Valid()
        invariant ClearLoop(View(), x - i, Blank()) == ClearLoop(old(View()), x, Blank())
        invariant first + x <= grid.Count() && i < x ==> at == first + i
      {
        PrintShows(style, cells[at], 0);
        PrintChar(0, Some(style.paper), Some(style.paper));
        if i != x - 1 {
          IncTextCursor();
        }
        i := i + 1;
      }
      textCursor := saved;
      at := first;
    }

    /** One cell to the left; at the top left corner nothing happens. */
    method DecTextCursor() returns (moved: bool)
      requires Valid()
      modifies this
      ensures Valid() && View() == Dec(old(View())) && moved == (old(at) > 0)
    {
      hide Grid.Address, Grid.AdvanceXTextRows, Grid.RowBytes, Grid.GetTextRow, Grid.GetTextCol, Style.Valid;
      DecArithmetic(grid, at);
      if textCursor == grid.start {
        return false;
      }
      var rowStart := grid.AdvanceXTextRows(grid.start, grid.GetTextRow(textCursor));
      if textCursor == rowStart {
        textCursor := rowStart - grid.RowBytes() + PIXEL_SIZE * (grid.charWidth * (grid.cols - 1));
      } else {
        textCursor := textCursor - PIXEL_SIZE * grid.charWidth;
      }
      at := at - 1;
      moved := true;
    }

    method ClearXCellsAt(location: int, x: nat, ghost p: nat)
      requires Valid() && p < grid.Count() && location == grid.Address(p)
      modifies this, cells
      ensures Valid() && View() == ClearX(old(View()).(at := p), x, Blank()).(at := old(at))
    {
      hide Grid.Address, Style.Valid, ClearX, Drawn;
      var saved := textCursor;
      ghost var was := at;
      textCursor, at := location, p;
      ClearXCells(x);
      textCursor, at := saved, was;
    }

    /** print_str. */
    method PrintText(s: seq<Byte>)
      requires Valid()
      modifies this, cells
      ensures Valid() && View() == PrintStr(old(View()), s, style)
    {
      hide Grid.Address, Style.Valid, Drawn, Inc, Painted;
      var i := 0;
      while i < |s|
        invariant 0 <= i <= |s| && Valid()
        invariant PrintStr(View(), s[i..], style) == PrintStr(old(View()), s, style)
      {
        assert s[i..][1..] == s[i + 1..];
        PrintGlyph(s[i]);
        IncTextCursor();
        i := i + 1;
      }
    }

    /** To the start of row r, or of the last row after shifting the screen up. */
    method MoveToRow(r: nat)
      requires Valid()
      modifies this, cells
      ensures Valid() && View() == ToRow(old(View()), r, Blank())
    {
      hide Grid.Address, Grid.AdvanceXTextRows, Style.Valid, Scrolled, ClearX, Drawn;
      RowArithmetic(grid, at, r);
      if r > grid.rows - 1 {
        LastRow(grid);
        ShiftTextScreenUpOneRow();
        textCursor := grid.AdvanceXTextRows(grid.start, grid.rows - 1);
        at := grid.Count() - grid.cols;
        ShiftAndClear(old(View()), View(), Blank());
        ClearXCells(grid.cols);
      } else {
        textCursor := grid.AdvanceXTextRows(grid.start, r);
        at := grid.cols * r;
      }
    }

    /** The input line begins at the cursor. */
    method StartInput()
      requires Valid()
      modifies this
      ensures Valid() && View() == old(View()).(home := old(at))
    {
      inputStart, home := textCursor, at;
    }
  }
}
