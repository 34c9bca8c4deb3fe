/** The terminal's screen as a sequence of cells with a cursor: printing, clearing, moving and
    scrolling in terms of cell numbers. */
module TextScreen {
  import opened CString
  import opened Wrappers

  type Color = nat

  /** The pixels of one cell, row by row. */
  type Cell = seq<Color>

  datatype Style = Style(font: seq<seq<bool>>, pixels: nat, ink: Color, paper: Color, highlight: Color) {
    /** One glyph per character; that of NUL is blank. */
    ghost predicate Valid() {
      && |font| == 256 && (forall i | 0 <= i < 256 :: |font[i]| == pixels)
      && forall j | 0 <= j < pixels :: !font[0][j]
    }
  }

  /** print_char on one cell: None leaves the glyph's pixels, or those around it, alone. */
  function Painted(cell: Cell, glyph: seq<bool>, ink: Option<Color>, paper: Option<Color>): (r: Cell)
    ensures |r| == |glyph|
  {
    seq(|glyph|, i requires 0 <= i < |glyph| =>
      var c := if glyph[i] then ink else paper;
      if c.Some? then c.value else if i < |cell| then cell[i] else 0)
  }

  /** A cell that shows a character on some background. */
  function Drawn(st: Style, ch: Byte, paper: Color): (r: Cell)
    requires st.Valid()
    ensures |r| == st.pixels
  {
    seq(st.pixels, i requires 0 <= i < st.pixels => if st.font[ch][i] then st.ink else paper)
  }

  /** Printing replaces the cell whatever it held; clearing makes it show NUL. */
  lemma PrintShows(st: Style, cell: Cell, ch: Byte)
    requires st.Valid() && |cell| == st.pixels
    ensures Painted(cell, st.font[ch], Some(st.ink), Some(st.paper)) == Drawn(st, ch, st.paper)
    ensures Painted(cell, st.font[0], Some(st.paper), Some(st.paper)) == Drawn(st, 0, st.paper)
  {
    assert forall i | 0 <= i < st.pixels :: !st.font[0][i];
  }

  /** Plotting and unplotting the cursor change only the background of the character they are
      told of; told NUL, they erase the cell. */
  lemma PlotShows(st: Style, cell: Cell, ch: Byte, from: Color, to: Color)
    requires st.Valid() && |cell| == st.pixels
    ensures Painted(Drawn(st, ch, from), st.font[ch], None, Some(to)) == Drawn(st, ch, to)
    ensures Painted(cell, st.font[0], None, Some(to)) == Drawn(st, 0, to)
  {
    assert forall i | 0 <= i < st.pixels :: !st.font[0][i];
  }

  /** Told another character, unplotting restores the cell iff the two look the same. */
  lemma UnplotAnotherIff(st: Style, shown: Byte, told: Byte, from: Color, to: Color)
    requires st.Valid() && from != to && from != st.ink && to != st.ink
    ensures Painted(Drawn(st, shown, from), st.font[told], None, Some(to)) == Drawn(st, shown, to)
            <==> forall i | 0 <= i < st.pixels :: st.font[told][i] == st.font[shown][i]
  {
    var r, d := Painted(Drawn(st, shown, from), st.font[told], None, Some(to)), Drawn(st, shown, to);
    if r == d {
      forall i | 0 <= i < st.pixels ensures st.font[told][i] == st.font[shown][i] { assert r[i] == d[i]; }
    } else {
      assert exists i | 0 <= i < st.pixels :: r[i] != d[i];
    }
  }

  // ----- the screen

  /** `home` is the first cell of the input line; it is negative once that has scrolled off. */
  datatype View = View(cells: seq<Cell>, cols: nat, at: nat, home: int) {
    ghost predicate Valid() { 0 < cols <= |cells| && |cells| % cols == 0 && at < |cells| }
  }

  function Put(v: View, c: Cell): View
    requires v.Valid()
  {
    v.(cells := v.cells[v.at := c])
  }

  function Row(cols: nat, c: Cell): seq<Cell> { seq(cols, _ => c) }

  /** Every row moves up by one, the last becomes blank, the cursor goes to its start, and the
      input line moves along with the text. */
  function Scrolled(v: View, blank: Cell): (r: View)
    requires v.Valid()
    ensures r.Valid() && |r.cells| == |v.cells| && r.home == v.home - v.cols
  {
    View(v.cells[v.cols..] + Row(v.cols, blank), v.cols, |v.cells| - v.cols, v.home - v.cols)
  }

  /** In a scroll every cell shows what the cell below it showed, the last row is blank, and
      the input line's start moves along. */
  lemma ScrollMovesRows(v: View, blank: Cell)
    requires v.Valid()
    ensures var w := Scrolled(v, blank);
            && (forall p | 0 <= p < |v.cells| - v.cols :: w.cells[p] == v.cells[p + v.cols])
            && (forall p | |v.cells| - v.cols <= p < |v.cells| :: w.cells[p] == blank)
            && w.home == v.home - v.cols
  {
  }

  function Inc(v: View, blank: Cell): (r: View)
    requires v.Valid()
    ensures r.Valid() && |r.cells| == |v.cells|
  {
    if v.at + 1 < |v.cells| then v.(at := v.at + 1) else Scrolled(v, blank)
  }

  function Dec(v: View): (r: View)
    requires v.Valid()
    ensures r.Valid()
  {
    if v.at == 0 then v else v.(at := v.at - 1)
  }

  /** Away from the corners, moving left undoes moving right. */
  lemma DecUndoesIncIff(v: View, blank: Cell)
    requires v.Valid()
    ensures Dec(Inc(v, blank)) == v <==> v.at + 1 < |v.cells|
    ensures Inc(Dec(v), blank) == v <==> 0 < v.at
  {
    if v.at + 1 == |v.cells| {
      assert Inc(v, blank).home != v.home;
    }
    if v.at == 0 {
      assert Inc(v, blank).home != v.home || Inc(v, blank).at != v.at;
    }
  }

  /** The loop of clear_x_cells: it does not step past the last cell it clears. */
  function ClearLoop(v: View, x: nat, blank: Cell): (r: View)
    requires v.Valid()
    ensures r.Valid() && |r.cells| == |v.cells|
    decreases x
  {
    if x == 0 then v
    else if x == 1 then Put(v, blank)
    else ClearLoop(Inc(Put(v, blank), blank), x - 1, blank)
  }

  function ClearX(v: View, x: nat, blank: Cell): (r: View)
    requires v.Valid()
    ensures r.Valid() && |r.cells| == |v.cells|
  {
    ClearLoop(v, x, blank).(at := v.at)
  }

  /** Up to the end of the screen clearing blanks exactly the x cells from the cursor on and
      does not scroll. */
  lemma {:induction false} ClearLoopBlanks(v: View, x: nat, blank: Cell)
    requires v.Valid() && v.at + x <= |v.cells|
    ensures var r := ClearLoop(v, x, blank);
            && r.cells == v.cells[..v.at] + Row(x, blank) + v.cells[v.at + x..]
            && r.home == v.home && r.cols == v.cols
    decreases x
  {
    if x > 1 {
      ClearLoopBlanks(Inc(Put(v, blank), blank), x - 1, blank);
    }
  }

  /** Shifting the rows up and clearing the last one is the scroll. */
  lemma ShiftAndClear(v: View, w: View, blank: Cell)
    requires v.Valid() && w.Valid() && w.cols == v.cols
    requires w.cells == v.cells[v.cols..] + v.cells[|v.cells| - v.cols..]
    requires w.at == |v.cells| - v.cols
    ensures ClearX(w, w.cols, blank) == Scrolled(v, blank).(home := w.home)
  {
    ClearLoopBlanks(w, w.cols, blank);
    assert w.cells[..w.at] == v.cells[v.cols..];
  }

  function PrintStr(v: View, s: seq<Byte>, st: Style): (r: View)
    requires v.Valid() && st.Valid()
    ensures r.Valid() && |r.cells| == |v.cells|
    decreases |s|
  {
    if s == [] then v
    else PrintStr(Inc(Put(v, Drawn(st, s[0], st.paper)), Drawn(st, 0, st.paper)), s[1..], st)
  }

  /** The start of row r, or of a blank last row that the screen makes room for. */
  function ToRow(v: View, r: nat, blank: Cell): (w: View)
    requires v.Valid()
    ensures w.Valid() && |w.cells| == |v.cells|
  {
    if v.cols * r < |v.cells| then AtRow(v, r)
    else Scrolled(v, blank).(home := v.home)
  }

  function AtRow(v: View, r: nat): (w: View)
    requires v.Valid() && v.cols * r < |v.cells|
    ensures w.Valid()
  {
    RowNumberIsNat(v.cols, r);
    v.(at := v.cols * r)
  }

  lemma RowNumberIsNat(cols: nat, r: nat)
    ensures cols * r >= 0
  {
  }
}
