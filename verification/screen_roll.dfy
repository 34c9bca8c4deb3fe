/** The screen as a window on a roll of cells that only grows: what a key leaves of all that was
    printed before, and what Enter adds. */
module ScreenRoll {
  import opened CString
  import opened LineEditor
  import opened LineScreen
  import opened LineRuns
  import opened TextScreen
  import TextGrid

  // ----- what is above the line

  /** From v to w the cells before the line's start moved along with it, and nothing else
      happened to them. */
  ghost predicate AboveKept(v: View, w: View) {
    && w.cols == v.cols && |w.cells| == |v.cells| && w.home <= v.home <= |v.cells|
    && forall p | 0 <= p < w.home :: w.cells[p] == v.cells[p + (v.home - w.home)]
  }

  lemma AboveKeptTwice(v: View, u: View, w: View)
    requires AboveKept(v, u) && AboveKept(u, w)
    ensures AboveKept(v, w)
  {
    forall p | 0 <= p < w.home ensures w.cells[p] == v.cells[p + (v.home - w.home)] {
      var q := p + (u.home - w.home);
      assert u.cells[q] == v.cells[q + (v.home - u.home)];
    }
  }

  lemma PutKeepsAbove(v: View, c: Cell)
    requires v.Valid() && v.home <= v.at
    ensures AboveKept(v, Put(v, c))
  {
  }

  lemma IncKeepsAbove(v: View, blank: Cell)
    requires v.Valid() && v.home <= v.at
    ensures AboveKept(v, Inc(v, blank)) && Inc(v, blank).home <= Inc(v, blank).at
  {
  }

  lemma {:induction false} PrintStrKeepsAbove(v: View, s: seq<Byte>, st: Style)
    requires v.Valid() && st.Valid() && v.home <= v.at
    ensures AboveKept(v, PrintStr(v, s, st)) && PrintStr(v, s, st).home <= PrintStr(v, s, st).at
    decreases |s|
  {
    hide Style.Valid, Drawn, AboveKept, Inc, Put;
    if s == [] {
      NothingMoved(v);
    } else {
      var u := Put(v, Drawn(st, s[0], st.paper));
      PutStays(v, Drawn(st, s[0], st.paper));
      var w := Inc(u, Drawn(st, 0, st.paper));
      PutKeepsAbove(v, Drawn(st, s[0], st.paper));
      IncKeepsAbove(u, Drawn(st, 0, st.paper));
      AboveKeptTwice(v, u, w);
      PrintStrKeepsAbove(w, s[1..], st);
      AboveKeptTwice(v, w, PrintStr(v, s, st));
    }
  }

  lemma NothingMoved(v: View)
    requires v.home <= |v.cells|
    ensures AboveKept(v, v)
  {
  }

  lemma PutStays(v: View, c: Cell)
    requires v.Valid()
    ensures Put(v, c).Valid() && Put(v, c).at == v.at && Put(v, c).home == v.home
  {
  }

  lemma ClearXKeepsAbove(v: View, x: nat, blank: Cell)
    requires v.Valid() && v.home <= v.at && v.at + x <= |v.cells|
    ensures AboveKept(v, ClearX(v, x, blank)) && ClearX(v, x, blank).home == v.home
  {
    ClearLoopBlanks(v, x, blank);
  }

  /** A cursor drawn or taken away somewhere behind the line's start. */
  lemma DrawKeepsAbove(v: View, ch: Byte, st: Style)
    requires v.Valid() && st.Valid() && v.home <= v.at
    ensures AboveKept(v, Plot(v, ch, st)) && AboveKept(v, Unplot(v, ch, st)) && AboveKept(v, Print(v, ch, st))
  {
    hide Style.Valid, Drawn, Painted;
  }

  /** Where the cursor is does not matter. */
  lemma CursorMoves(v: View, w: View, at: nat)
    requires AboveKept(v, w)
    ensures AboveKept(v, w.(at := at)) && AboveKept(w, w.(at := at))
  {
  }

  lemma LineIsOnScreen(v: View, l: Line, st: Style)
    requires Agrees(v, l, st)
    ensures ViewOk(v, st) && v.Valid() && st.Valid()
    ensures v.at == v.home + |l.before| && v.at + |l.after| < |v.cells| && v.home <= v.at
  {
  }

  lemma InsertKeepsAbove(v: View, l: Line, ch: Byte, st: Style)
    requires Agrees(v, l, st)
    ensures AboveKept(v, InsertView(v, l, ch, st))
  {
    hide Agrees, Style.Valid, Drawn, Painted, AboveKept, PrintStr;
    LineIsOnScreen(v, l, st);
    var blank, u := Blank(st), Unplot(v, CharAt(l.after, 0), st);
    DrawKeepsAbove(v, CharAt(l.after, 0), st);
    var w := u;
    if l.after != [] {
      var i := Inc(u, blank);
      IncKeepsAbove(u, blank);
      AboveKeptTwice(v, u, i);
      PrintStrKeepsAbove(i, l.after, st);
      AboveKeptTwice(v, i, PrintStr(i, l.after, st));
      HomesDescend(i, PrintStr(i, l.after, st));
      CursorMoves(v, PrintStr(i, l.after, st), u.at);
      w := PrintStr(i, l.after, st).(at := u.at);
    }
    DrawKeepsAbove(w, ch, st);
    AboveKeptTwice(v, w, Print(w, ch, st));
    IncKeepsAbove(Print(w, ch, st), blank);
    var n := Inc(Print(w, ch, st), blank);
    AboveKeptTwice(v, Print(w, ch, st), n);
    DrawKeepsAbove(n, CharAt(l.after, 0), st);
    AboveKeptTwice(v, n, Plot(n, CharAt(l.after, 0), st));
  }

  lemma HomesDescend(v: View, w: View)
    requires AboveKept(v, w)
    ensures w.home <= v.home && |w.cells| == |v.cells|
  {
  }

  lemma DeleteKeepsAbove(v: View, l: Line, st: Style)
    requires Agrees(v, l, st)
    ensures AboveKept(v, DeleteView(v, l, st))
  {
    hide Agrees, Style.Valid, Drawn, Painted, AboveKept, PrintStr, ClearX;
    LineIsOnScreen(v, l, st);
    if l.before == [] {
      NothingMoved(v);
    } else if l.after == [] {
      DrawKeepsAbove(v, 0, st);
      var u := Unplot(v, 0, st);
      CursorMoves(v, u, Dec(u).at);
      DrawKeepsAbove(Dec(u), 0, st);
      AboveKeptTwice(v, Dec(u), Plot(Dec(u), 0, st));
    } else {
      var u, blank := Unplot(v, l.after[0], st), Blank(st);
      DrawKeepsAbove(v, l.after[0], st);
      ClearXKeepsAbove(u, |l.after|, blank);
      ClearXStays(u, |l.after|, blank);
      var x := ClearX(u, |l.after|, blank);
      AboveKeptTwice(v, u, x);
      CursorMoves(v, x, Dec(x).at);
      var p := PrintStr(Dec(x), l.after, st);
      PrintStrKeepsAbove(Dec(x), l.after, st);
      AboveKeptTwice(v, Dec(x), p);
      HomesDescend(Dec(x), p);
      CursorMoves(v, p, Dec(x).at);
      DrawKeepsAbove(p.(at := Dec(x).at), l.after[0], st);
      AboveKeptTwice(v, p.(at := Dec(x).at), Plot(p.(at := Dec(x).at), l.after[0], st));
    }
  }

  lemma ClearXStays(v: View, x: nat, blank: Cell)
    requires v.Valid() && v.at + x <= |v.cells|
    ensures ClearX(v, x, blank).at == v.at && ClearX(v, x, blank).home == v.home
  {
    ClearLoopBlanks(v, x, blank);
  }

  lemma MoveKeepsAbove(v: View, l: Line, st: Style)
    requires Agrees(v, l, st)
    ensures AboveKept(v, LeftView(v, l, st)) && AboveKept(v, RightView(v, l, st))
  {
    hide Agrees, Style.Valid, Drawn, Painted, AboveKept;
    LineIsOnScreen(v, l, st);
    NothingMoved(v);
    if l.before != [] {
      var u := Unplot(v, CharAt(l.after, 0), st);
      DrawKeepsAbove(v, CharAt(l.after, 0), st);
      CursorMoves(v, u, Dec(u).at);
      DrawKeepsAbove(Dec(u), l.before[|l.before| - 1], st);
      AboveKeptTwice(v, Dec(u), Plot(Dec(u), l.before[|l.before| - 1], st));
    }
    if l.after != [] {
      var u := Unplot(v, l.after[0], st);
      DrawKeepsAbove(v, l.after[0], st);
      IncKeepsAbove(u, Blank(st));
      AboveKeptTwice(v, u, Inc(u, Blank(st)));
      DrawKeepsAbove(Inc(u, Blank(st)), CharAt(l.after, 1), st);
      AboveKeptTwice(v, Inc(u, Blank(st)), Plot(Inc(u, Blank(st)), CharAt(l.after, 1), st));
    }
  }

  lemma ReplaceKeepsAbove(v: View, l: Line, told: Byte, s: seq<Byte>, st: Style)
    requires Agrees(v, l, st) && 0 <= v.home
    ensures AboveKept(v, ReplaceView(v, l, told, s, st))
  {
    hide Agrees, Style.Valid, Drawn, Painted, AboveKept, PrintStr, ClearX;
    LineIsOnScreen(v, l, st);
    DrawKeepsAbove(v, told, st);
    CursorMoves(v, Unplot(v, told, st), v.home);
    var u := Unplot(v, told, st).(at := v.home);
    ClearXKeepsAbove(u, |l.Text()|, Blank(st));
    ClearXStays(u, |l.Text()|, Blank(st));
    var x := ClearX(u, |l.Text()|, Blank(st));
    AboveKeptTwice(v, u, x);
    PrintStrKeepsAbove(x, s, st);
    AboveKeptTwice(v, x, PrintStr(x, s, st));
    DrawKeepsAbove(PrintStr(x, s, st), 0, st);
    AboveKeptTwice(v, PrintStr(x, s, st), Plot(PrintStr(x, s, st), 0, st));
  }

  /** No key but Enter changes anything above the line: prompt and earlier output stay, and move
      up exactly when the line does. With the line itself this is the whole screen. */
  lemma KeyKeepsAbove(v: View, e: Edit, k: Key, isBreak: bool, out: seq<Byte>, st: Style)
    requires EditOk(e) && Agrees(v, e.line, st) && KeyFits(v, e, k, isBreak) && ViewOk(v, st)
    requires k != Enter || isBreak
    ensures AboveKept(v, KeyView(v, e, k, isBreak, out, st))
  {
    hide Agrees, ViewOk, EditOk, InsertView, DeleteView, LeftView, RightView, ReplaceView, EnterView, AboveKept;
    var l := e.line;
    LineIsOnScreen(v, l, st);
    NothingMoved(v);
    match k
    case Printable(ch) => InsertKeepsAbove(v, l, ch, st);
    case Backspace => DeleteKeepsAbove(v, l, st);
    case Enter =>
    case Left => MoveKeepsAbove(v, l, st);
    case Right => MoveKeepsAbove(v, l, st);
    case Up =>
      if e.curr < |e.history| && e.curr < HISTORY_MAX {
        ReplaceKeepsAbove(v, l, CharAt(l.after, 0), e.history[e.curr], st);
      }
    case Down =>
      if 0 < e.curr <= |e.history| {
        if e.curr == 1 { ReplaceKeepsAbove(v, l, CharAt(e.saved, |l.before|), e.saved, st); }
        else { ReplaceKeepsAbove(v, l, CharAt(l.after, 0), e.history[e.curr - 2], st); }
      }
  }

  // ----- what Enter adds

  /** v shows the roll F from its cell C on, and blanks behind its end. */
  ghost predicate Window(v: View, F: seq<Cell>, C: nat, blank: Cell) {
    && v.Valid() && C % v.cols == 0
    && forall p | 0 <= p < |v.cells| :: v.cells[p] == if p + C < |F| then F[p + C] else blank
  }

  /** The cursor is at the roll's end, and the screen has scrolled no further than it had to. */
  ghost predicate AtEndOf(v: View, F: seq<Cell>, C: nat) {
    v.at + C == |F| && (C == 0 || |v.cells| <= v.at + v.cols)
  }

  function Cells(s: seq<Byte>, st: Style): (r: seq<Cell>)
    requires st.Valid()
    ensures |r| == |s|
  {
    seq(|s|, i requires 0 <= i < |s| => Drawn(st, s[i], st.paper))
  }

  lemma RollPut(v: View, F: seq<Cell>, C: nat, c: Cell, blank: Cell)
    requires Window(v, F, C, blank) && AtEndOf(v, F, C)
    ensures Window(Put(v, c), F + [c], C, blank)
  {
  }

  /** A step of the cursor, with a scroll if need be. */
  lemma RollInc(v: View, F: seq<Cell>, C: nat, c: Cell, blank: Cell) returns (C': nat)
    requires Window(v, F + [c], C, blank) && AtEndOf(v, F, C)
    ensures var w := Inc(v, blank);
            && Window(w, F + [c], C', blank) && AtEndOf(w, F + [c], C') && w.cols == v.cols && |w.cells| == |v.cells|
  {
    var w := Inc(v, blank);
    if v.at + 1 < |v.cells| {
      C' := C;
    } else {
      C' := C + v.cols;
      ScrollWindow(v, F + [c], C, blank);
    }
  }

  lemma ScrollWindow(v: View, F: seq<Cell>, C: nat, blank: Cell)
    requires Window(v, F, C, blank) && |F| <= C + |v.cells|
    ensures Window(Scrolled(v, blank), F, C + v.cols, blank)
  {
    ModAdds(C, v.cols);
    var w := Scrolled(v, blank);
    forall p | 0 <= p < |w.cells|
      ensures w.cells[p] == if p + C + v.cols < |F| then F[p + C + v.cols] else blank
    {
      if p + v.cols < |v.cells| { assert w.cells[p] == v.cells[p + v.cols]; }
    }
  }

  lemma ModAdds(C: nat, c: nat)
    requires 0 < c && C % c == 0
    ensures (C + c) % c == 0
  {
    assert C + c == c * (C / c + 1) + 0;
    TextGrid.DivModIs(c, C / c + 1, 0);
  }

  /** Printing appends to the roll. */
  lemma {:induction false} RollPrint(v: View, F: seq<Cell>, C: nat, s: seq<Byte>, st: Style) returns (C': nat)
    requires st.Valid() && Window(v, F, C, Blank(st)) && AtEndOf(v, F, C)
    ensures var w := PrintStr(v, s, st);
            && Window(w, F + Cells(s, st), C', Blank(st)) && AtEndOf(w, F + Cells(s, st), C')
            && w.cols == v.cols && |w.cells| == |v.cells|
    decreases |s|
  {
    hide Style.Valid, Drawn, Window, Inc, AtEndOf;
    WindowIsValid(v, F, C, Blank(st));
    if s == [] {
      C' := C;
      assert F + Cells(s, st) == F;
    } else {
      var c := Drawn(st, s[0], st.paper);
      RollPut(v, F, C, c, Blank(st));
      PutStays(v, c);
      AtEndStays(v, Put(v, c), F, C);
      var C1 := RollInc(Put(v, c), F, C, c, Blank(st));
      C' := RollPrint(Inc(Put(v, c), Blank(st)), F + [c], C1, s[1..], st);
      assert F + [c] + Cells(s[1..], st) == F + Cells(s, st);
    }
  }

  lemma WindowIsValid(v: View, F: seq<Cell>, C: nat, blank: Cell)
    requires Window(v, F, C, blank)
    ensures v.Valid()
  {
  }

  lemma AtEndStays(v: View, w: View, F: seq<Cell>, C: nat)
    requires AtEndOf(v, F, C) && w.at == v.at && w.cols == v.cols && |w.cells| == |v.cells|
    ensures AtEndOf(w, F, C)
  {
  }

  /** The roll with blanks up to cell n. */
  function PaddedTo(F: seq<Cell>, n: int, blank: Cell): seq<Cell>
    requires |F| <= n
  {
    F + Row(n - |F|, blank)
  }

  /** Going to a row on the screen, or to the one behind it, pads the roll up to there. */
  lemma RollToRow(v: View, F: seq<Cell>, C: nat, r: nat, blank: Cell) returns (C': nat)
    requires Window(v, F, C, blank) && |F| <= v.cols * r + C && v.cols * r <= |v.cells|
    requires C == 0 || |v.cells| <= v.cols * r + v.cols
    ensures var w, G := ToRow(v, r, blank), PaddedTo(F, v.cols * r + C, blank);
            Window(w, G, C', blank) && AtEndOf(w, G, C') && w.cols == v.cols && |w.cells| == |v.cells|
  {
    var G := PaddedTo(F, v.cols * r + C, blank);
    assert Window(v, G, C, blank);
    if v.cols * r < |v.cells| {
      C' := C;
    } else {
      C' := C + v.cols;
      ScrollWindow(v, G, C, blank);
    }
  }

  /** The roll with blanks up to the start of the row behind its end, and the prompt. */
  function PromptAfter(G: seq<Cell>, cols: nat, st: Style): seq<Cell>
    requires 0 < cols && st.Valid()
  {
    NextRowIsBehind(|G|, cols);
    PaddedTo(G, cols * (|G| / cols + 1), Blank(st)) + Cells(PROMPT, st)
  }

  /** What Enter leaves of a roll that ends with the line: the shell's output from the first row
      behind it on, and on the row behind that the prompt. */
  function EnterRoll(F: seq<Cell>, cols: nat, out: seq<Byte>, st: Style): seq<Cell>
    requires 0 < cols && st.Valid()
  {
    PromptAfter(PaddedTo(F, cols * FirstRowBehind(|F|, cols), Blank(st)) + Cells(out, st), cols, st)
  }

  /** The line with its cursor taken away is the end of a roll that the screen shows whole. */
  lemma LineEndsRoll(v: View, l: Line, st: Style)
    requires Agrees(v, l, st) && 0 <= v.home
    ensures ViewOk(v, st)
    ensures var u := Unplot(v, CharAt(l.after, 0), st);
            && v.home + |l.Text()| < |u.cells| == |v.cells| && u.cols == v.cols && u.home == v.home
            && Window(u, u.cells[..v.home + |l.Text()|], 0, Blank(st))
  {
    hide Drawn, Style.Valid, Painted;
    UnplotCleans(v, l, CharAt(l.after, 0), st);
  }

  lemma RowsOnScreen(end: nat, cols: nat, count: nat)
    requires 0 < cols && count % cols == 0 && end < count
    ensures 0 <= cols * FirstRowBehind(end, cols) <= count
  {
    hide FirstRowBehind;
    var r, q := FirstRowBehind(end, cols), count / cols;
    Divides(count, cols);
    if r > q { TextGrid.MulMono(q, r - 1, cols); }
    TextGrid.MulMono(0, r, cols);
  }

  /** The first step of Enter: behind the line. */
  lemma RollBehind(v: View, l: Line, st: Style) returns (C: nat)
    requires Agrees(v, l, st) && 0 <= v.home && |PROMPT| < v.cols
    requires (|l.Text()| + |PROMPT| + (v.cols - 1)) / v.cols < 256
    ensures ViewOk(v, st) && v.home + |l.Text()| < |v.cells|
    ensures var F := Unplot(v, CharAt(l.after, 0), st).cells[..v.home + |l.Text()|];
            var w, G := BehindLine(v, l, st), PaddedTo(F, v.cols * FirstRowBehind(|F|, v.cols), Blank(st));
            Window(w, G, C, Blank(st)) && AtEndOf(w, G, C) && w.cols == v.cols && |w.cells| == |v.cells|
  {
    hide Drawn, Style.Valid, Painted, ToRow, RowsNeeded, FirstRowBehind, Window, AtEndOf;
    LineEndsRoll(v, l, st);
    LineAligned(v, l, st);
    var u, end := Unplot(v, CharAt(l.after, 0), st), v.home + |l.Text()|;
    RowsNeededIs(v.home, |l.Text()|, v.cols);
    RowsOnScreen(end, v.cols, |v.cells|);
    C := RollToRow(u, u.cells[..end], 0, RowBehind(u, |l.Text()|), Blank(st));
  }

  lemma LineAligned(v: View, l: Line, st: Style)
    requires Agrees(v, l, st)
    ensures 0 < v.cols && |v.cells| % v.cols == 0 && v.home % v.cols == |PROMPT| % v.cols
    ensures v.home + |l.Text()| < |v.cells|
  {
  }

  /** The row behind the cursor's, on a screen that shows the roll's end. */
  lemma RollNextRow(v: View, F: seq<Cell>, C: nat, st: Style) returns (C': nat)
    requires st.Valid() && Window(v, F, C, Blank(st)) && AtEndOf(v, F, C)
    ensures |F| <= v.cols * (|F| / v.cols + 1)
    ensures var w, G := ToRow(v, v.at / v.cols + 1, Blank(st)), PaddedTo(F, v.cols * (|F| / v.cols + 1), Blank(st));
            Window(w, G, C', Blank(st)) && AtEndOf(w, G, C') && w.cols == v.cols && |w.cells| == |v.cells|
  {
    hide Drawn, Style.Valid, ToRow, PaddedTo;
    NextRowIsBehind(|F|, v.cols);
    RowInRoll(v.at, C, v.cols, |v.cells|);
    C' := RollToRow(v, F, C, v.at / v.cols + 1, Blank(st));
  }

  lemma RowInRoll(at: nat, C: nat, cols: nat, count: nat)
    requires 0 < cols && C % cols == 0 && count % cols == 0 && at < count
    ensures cols * (at / cols + 1) + C == cols * ((at + C) / cols + 1)
    ensures at < cols * (at / cols + 1) <= count
  {
    NextRowIsBehind(at, cols);
    Divides(C, cols);
    Divides(at, cols);
    Divides(count, cols);
    RowMovesAlong(at / cols, C / cols, at % cols, cols, at + C);
    RowFits(at / cols, count / cols, cols, at);
  }

  lemma RowMovesAlong(q: nat, c: nat, r: nat, cols: nat, n: nat)
    requires r < cols && n == cols * q + r + cols * c
    ensures cols * (q + 1) + cols * c == cols * (n / cols + 1)
  {
    assert n == cols * (q + c) + r;
    TextGrid.DivModIs(cols, q + c, r);
  }

  lemma RowFits(q: nat, rows: nat, cols: nat, at: nat)
    requires cols * q <= at < cols * rows
    ensures cols * (q + 1) <= cols * rows
  {
    if q >= rows { TextGrid.MulMono(rows, q, cols); } else { TextGrid.MulMono(q + 1, rows, cols); }
  }

  /** The cursor's cell shows NUL; without it this is the window on the roll, with the new line at
      the roll's end. */
  ghost predicate Shows(w: View, F: seq<Cell>, C: nat, st: Style) {
    && st.Valid() && w.at < |w.cells| && w.home == w.at
    && w.cells[w.at] == Drawn(st, 0, st.highlight)
    && Window(w.(cells := w.cells[w.at := Blank(st)]), F, C, Blank(st)) && AtEndOf(w, F, C)
  }

  lemma PlotShowsRoll(v: View, F: seq<Cell>, C: nat, st: Style)
    requires ViewOk(v, st) && Window(v, F, C, Blank(st)) && AtEndOf(v, F, C)
    ensures Shows(Plot(v.(home := v.at), 0, st), F, C, st)
  {
    hide Drawn, Style.Valid, Painted;
    PlotShows(st, v.cells[v.at], 0, st.paper, st.highlight);
    var w := Plot(v.(home := v.at), 0, st);
    assert w.cells[w.at := Blank(st)] == v.cells;
  }

  lemma RollPrompt(v: View, F: seq<Cell>, C: nat, st: Style) returns (C': nat)
    requires st.Valid() && Window(v, F, C, Blank(st)) && AtEndOf(v, F, C)
    ensures var w := PrintStr(ToRow(v, v.at / v.cols + 1, Blank(st)), PROMPT, st);
            Window(w, PromptAfter(F, v.cols, st), C', Blank(st)) && AtEndOf(w, PromptAfter(F, v.cols, st), C')
  {
    hide Drawn, Style.Valid, ToRow, PrintStr, Window, AtEndOf, Cells, PaddedTo;
    WindowIsValid(v, F, C, Blank(st));
    var C1 := RollNextRow(v, F, C, st);
    C' := RollPrint(ToRow(v, v.at / v.cols + 1, Blank(st)), PaddedTo(F, v.cols * (|F| / v.cols + 1), Blank(st)), C1,
                    PROMPT, st);
  }

  /** After Enter the screen is the window on what was there before, the shell's output behind the
      line and a prompt behind that, and has scrolled no further than it had to. */
  lemma EnterShowsRoll(v: View, l: Line, out: seq<Byte>, st: Style) returns (C: nat)
    requires Agrees(v, l, st) && 0 <= v.home && |PROMPT| < v.cols
    requires (|l.Text()| + |PROMPT| + (v.cols - 1)) / v.cols < 256
    ensures ViewOk(v, st) && v.home + |l.Text()| < |v.cells|
    ensures var F := Unplot(v, CharAt(l.after, 0), st).cells[..v.home + |l.Text()|];
            Shows(EnterView(v, l, out, st), EnterRoll(F, v.cols, out, st), C, st)
  {
    hide Drawn, Style.Valid, Painted, ToRow, PrintStr, BehindLine, Window, AtEndOf, FirstRowBehind, Cells, Plot,
         PaddedTo, PromptAfter, Agrees;
    var C1 := RollBehind(v, l, st);
    var F := Unplot(v, CharAt(l.after, 0), st).cells[..v.home + |l.Text()|];
    var b, F1 := BehindLine(v, l, st), PaddedTo(F, v.cols * FirstRowBehind(|F|, v.cols), Blank(st));
    var C2 := RollPrint(b, F1, C1, out, st);
    var a, F2 := PrintStr(b, out, st), F1 + Cells(out, st);
    C := RollPrompt(a, F2, C2, st);
    PromptIsOk(v, l, out, st);
    PlotShowsRoll(PrintStr(ToRow(a, a.at / a.cols + 1, Blank(st)), PROMPT, st), PromptAfter(F2, v.cols, st), C, st);
  }

  lemma PromptIsOk(v: View, l: Line, out: seq<Byte>, st: Style)
    requires Agrees(v, l, st) && 0 <= v.home
    requires (|l.Text()| + |PROMPT| + (v.cols - 1)) / v.cols < 256
    ensures ViewOk(v, st)
    ensures var a := PrintStr(BehindLine(v, l, st), out, st);
            ViewOk(PrintStr(ToRow(a, a.at / a.cols + 1, Blank(st)), PROMPT, st), st)
  {
    hide Drawn, Style.Valid, PrintStr, ToRow, BehindLine;
    BehindLineHasTail(v, l, st);
    var b := BehindLine(v, l, st);
    PrintKeepsTail(b, out, st);
    var a := PrintStr(b, out, st);
    NextRowIsBehind(a.at, a.cols);
    ToRowHasTail(a, a.at / a.cols + 1, a.at, st);
    PrintKeepsTail(ToRow(a, a.at / a.cols + 1, Blank(st)), PROMPT, st);
  }
}
