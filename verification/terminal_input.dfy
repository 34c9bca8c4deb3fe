/** The keys of the terminal: each edits the command buffer in memory and repaints the screen
    as far as needed. */
module TerminalInput {
  import opened CString
  import opened LineEditor
  import opened LineRows
  import opened LineRuns
  import opened LineScreen
  import opened Terminals
  import opened TextGrid
  import opened TextScreen
  import opened Wrappers

  class InputLine {
    const mem: array<Byte>
    const term: Terminal
    var endIdx: nat
    var cursorPosIdx: nat
    var currCommandIdx: nat
    ghost var edit: Edit

    /** The buffer holds the line, its history and the saved line. */
    ghost predicate BufferOk()
      reads this, mem
    {
      && EditOk(edit) && Holds(mem[..], edit)
      && endIdx == |edit.line.Text()| && cursorPosIdx == |edit.line.before| && currCommandIdx == edit.curr
    }

    ghost predicate Valid()
      reads this, mem, term, term.cells
    {
      BufferOk() && term.Valid() && mem as object != term.cells
    }

    /** init_terminal_subsystem, on a blank screen and zeroed memory. */
    constructor (mem: array<Byte>, term: Terminal)
      requires mem.Length == MEM_SIZE && forall i | 0 <= i < mem.Length :: mem[i] == 0
      requires term.Valid() && mem as object != term.cells && term.at == 0
      requires forall p | 0 <= p < term.cells.Length :: term.cells[p] == term.Blank()
      modifies term, term.cells
      ensures Valid() && this.mem == mem && this.term == term
      ensures edit == Edit(Line([], []), [], [], 0) && Agrees(term.View(), edit.line, term.style)
    {
      hide Padded, RowOf, Agrees, Drawn, Painted, PrintStr, Style.Valid, Grid.Address;
      this.mem, this.term := mem, term;
      endIdx, cursorPosIdx, currCommandIdx := 0, 0, 0;
      edit := Edit(Line([], []), [], [], 0);
      new;
      EmptyIsHeld(mem[..]);
      StartAgrees(term.View(), term.style);
      term.PrintText(PROMPT);
      term.StartInput();
      term.PlotTextCursor(mem[cursorPosIdx]);
    }

    /** Put a character into the buffer; the text behind the cursor makes room. */
    method InsertInBuffer(ch: Byte)
      requires BufferOk() && endIdx < LINE_MAX && ch != 0
      modifies this, mem
      ensures BufferOk() && edit == old(edit).(line := Insert(old(edit).line, ch))
    {
      hide Padded, RowOf, Moved;
      ghost var e := edit;
      InsertInRow(mem[..], e.line.before, e.line.after, ch);
      InsertOk(e.line, ch);
      if cursorPosIdx != endIdx {
        Memmove(mem, cursorPosIdx + 1, cursorPosIdx, endIdx - cursorPosIdx);
      } else {
        MovedNothing(mem[..], cursorPosIdx + 1, cursorPosIdx);
      }
      mem[cursorPosIdx] := ch;
      cursorPosIdx := cursorPosIdx + 1;
      endIdx := endIdx + 1;
      edit := e.(line := Insert(e.line, ch));
      LineStored(old(mem[..]), mem[..], e, Insert(e.line, ch));
    }

    /** The screen after an insertion: the shifted text first, then the character. */
    method ShowInsertion(ghost l: Line, ch: Byte)
      requires Valid() && edit.line == Line(l.before + [ch], l.after) && term.at + 1 <= term.cells.Length
      modifies term, term.cells
      ensures Valid() && term.View() == InsertView(old(term.View()), l, ch, term.style)
    {
      hide Padded, RowOf, Drawn, Painted, PrintStr, Inc, Style.Valid, Grid.Address, Grid.Valid, EditOk, Holds;
      AtCursor();
      term.UnplotTextCursor(mem[cursorPosIdx]);
      if cursorPosIdx != endIdx {
        var saved := term.textCursor;
        ghost var p := term.at;
        term.IncTextCursor();
        var n := Strlen(mem, cursorPosIdx);
        RestOfLine(n);
        term.PrintText(mem[cursorPosIdx..cursorPosIdx + n]);
        term.SetTextCursor(saved, p);
      }
      term.PrintGlyph(ch);
      term.IncTextCursor();
      term.PlotTextCursor(mem[cursorPosIdx]);
    }

    /** What the buffer holds at the cursor. */
    lemma AtCursor()
      requires BufferOk()
      ensures |edit.line.Text()| <= LINE_MAX && mem.Length == MEM_SIZE
      ensures mem[cursorPosIdx] == CharAt(edit.line.after, 0)
      ensures exists i :: cursorPosIdx <= i < mem.Length && mem[i] == 0
    {
      CharInRow(mem[..], edit, cursorPosIdx);
      CharInRow(mem[..], edit, endIdx);
      assert mem[endIdx] == 0;
    }

    /** strlen at the cursor finds the text behind it. */
    lemma RestOfLine(n: nat)
      requires BufferOk() && cursorPosIdx + n < mem.Length && mem[cursorPosIdx + n] == 0
      requires forall i | cursorPosIdx <= i < cursorPosIdx + n :: mem[i] != 0
      ensures n == |edit.line.after| && mem[cursorPosIdx..cursorPosIdx + n] == edit.line.after
    {
      var t, c := edit.line.Text(), cursorPosIdx;
      forall i | 0 <= i < c ensures mem[i] != 0 { CharInRow(mem[..], edit, i); }
      StringOf(mem[..], 0, t, c + n);
      assert mem[..][0..c + n] == t && t[c..] == edit.line.after;
    }

    /** A printable key. */
    method PlaceCharAtCursorPos(ch: Byte) returns (placed: bool)
      requires Valid() && ch != 0
      modifies this, mem, term, term.cells
      ensures Valid() && edit == old(edit).(line := Insert(old(edit).line, ch))
      ensures placed == (|old(edit).line.Text()| < LINE_MAX)
      ensures term.View() == if placed then InsertView(old(term.View()), old(edit).line, ch, term.style)
                             else old(term.View())
    {
      hide Padded, RowOf, Drawn, Painted, InsertView, Style.Valid, Grid.Address, Grid.Valid, Holds;
      if endIdx == ROW_SIZE - 1 {
        return false;
      }
      InsertInBuffer(ch);
      ShowInsertion(old(edit).line, ch);
      placed := true;
    }

    /** The right arrow. */
    method IncCursors()
      requires Valid()
      modifies this, term, term.cells
      ensures Valid() && edit == old(edit).(line := MovedRight(old(edit).line))
      ensures term.View() == RightView(old(term.View()), old(edit).line, term.style)
    {
      hide Padded, RowOf, Drawn, Painted, Inc, Style.Valid, Grid.Address, Grid.Valid;
      if cursorPosIdx < endIdx {
        AtCursor();
        term.UnplotTextCursor(mem[cursorPosIdx]);
        cursorPosIdx := cursorPosIdx + 1;
        assert MovedRight(edit.line).Text() == edit.line.Text();
        edit := edit.(line := MovedRight(edit.line));
        term.IncTextCursor();
        AtCursor();
        term.PlotTextCursor(mem[cursorPosIdx]);
      }
    }

    /** The left arrow. */
    method DecCursors()
      requires Valid()
      modifies this, term, term.cells
      ensures Valid() && edit == old(edit).(line := MovedLeft(old(edit).line))
      ensures term.View() == LeftView(old(term.View()), old(edit).line, term.style)
    {
      hide Padded, RowOf, Drawn, Painted, Dec, Style.Valid, Grid.Address, Grid.Valid;
      if cursorPosIdx > 0 {
        AtCursor();
        term.UnplotTextCursor(mem[cursorPosIdx]);
        cursorPosIdx := cursorPosIdx - 1;
        assert MovedLeft(edit.line).Text() == edit.line.Text();
        edit := edit.(line := MovedLeft(edit.line));
        var _ := term.DecTextCursor();
        AtCursor();
        term.PlotTextCursor(mem[cursorPosIdx]);
      }
    }

    /** Take the character before the cursor out of the buffer. */
    method DeleteInBuffer()
      requires BufferOk() && 0 < cursorPosIdx
      modifies this, mem
      ensures BufferOk() && edit == old(edit).(line := Deleted(old(edit).line))
    {
      hide Padded, RowOf, CopiedForward;
      ghost var e := edit;
      DeletedOk(e.line);
      if cursorPosIdx == endIdx {
        assert e.line.Text() == e.line.before && Deleted(e.line).Text() == e.line.before[..cursorPosIdx - 1];
        EraseInRow(mem[..], e.line.before);
        mem[cursorPosIdx - 1] := 0;
      } else {
        DeleteInRow(mem[..], e.line.before, e.line.after);
        Memcpy(mem, cursorPosIdx - 1, cursorPosIdx, endIdx - cursorPosIdx + 1);
      }
      cursorPosIdx := cursorPosIdx - 1;
      endIdx := endIdx - 1;
      LineStored(old(mem[..]), mem[..], e, Deleted(e.line));
      edit := e.(line := Deleted(e.line));
    }

    method Backspace()
      requires Valid()
      modifies this, mem, term, term.cells
      ensures Valid() && edit == old(edit).(line := Deleted(old(edit).line))
      ensures term.View() == DeleteView(old(term.View()), old(edit).line, term.style)
    {
      hide Padded, RowOf, Drawn, Painted, DeleteView, Style.Valid, Grid.Address, Grid.Valid, EditOk, Holds;
      if cursorPosIdx != 0 {
        if cursorPosIdx == endIdx {
          BackspaceAtEnd();
        } else {
          BackspaceWithin();
        }
      } else {
        NothingDeleted(term.View(), edit.line, term.style);
      }
    }

    lemma NothingDeleted(v: View, l: Line, st: Style)
      requires ViewOk(v, st) && l.before == []
      ensures DeleteView(v, l, st) == v && Deleted(l) == l
    {
    }

    /** The character before the end of the line. */
    method BackspaceAtEnd()
      requires Valid() && 0 < cursorPosIdx == endIdx
      modifies this, mem, term, term.cells
      ensures Valid() && edit == old(edit).(line := Deleted(old(edit).line))
      ensures term.View() == DeleteView(old(term.View()), old(edit).line, term.style)
    {
      hide Padded, RowOf, Drawn, Painted, Dec, ClearX, PrintStr, Style.Valid, Grid.Address, Grid.Valid, EditOk, Holds;
      AtCursor();
      term.UnplotTextCursor(mem[cursorPosIdx]);
      DeleteInBuffer();
      var _ := term.DecTextCursor();
      AtCursor();
      term.PlotTextCursor(mem[cursorPosIdx]);
    }

    /** A character within it: the rest is blanked and printed again. */
    method BackspaceWithin()
      requires Valid() && 0 < cursorPosIdx < endIdx
      modifies this, mem, term, term.cells
      ensures Valid() && edit == old(edit).(line := Deleted(old(edit).line))
      ensures term.View() == DeleteView(old(term.View()), old(edit).line, term.style)
    {
      hide Padded, RowOf, Drawn, Painted, Dec, ClearX, PrintStr, Style.Valid, Grid.Address, Grid.Valid, EditOk, Holds;
      AtCursor();
      term.UnplotTextCursor(mem[cursorPosIdx]);
      DeleteInBuffer();
      term.ClearXCells(endIdx - cursorPosIdx);
      var _ := term.DecTextCursor();
      PrintRest();
      AtCursor();
      term.PlotTextCursor(mem[cursorPosIdx]);
    }

    /** Print the text behind the cursor, which stays where it is. */
    method PrintRest()
      requires Valid()
      modifies term, term.cells
      ensures Valid()
      ensures term.View() == PrintStr(old(term.View()), edit.line.after, term.style).(at := old(term.at))
    {
      hide Padded, RowOf, Drawn, Painted, PrintStr, Style.Valid, Grid.Address, Grid.Valid, EditOk, Holds;
      var saved := term.textCursor;
      ghost var p := term.at;
      AtCursor();
      var n := Strlen(mem, cursorPosIdx);
      RestOfLine(n);
      term.PrintText(mem[cursorPosIdx..cursorPosIdx + n]);
      term.SetTextCursor(saved, p);
    }

    /** Row 0 is a string of its own again: find its end and put the cursor there. */
    method InitInputBuffCursor(ghost s: seq<Byte>)
      requires mem.Length == MEM_SIZE && TextOk(s) && RowOf(mem[..], 0) == Padded(s)
      modifies this`endIdx, this`cursorPosIdx
      ensures endIdx == cursorPosIdx == |s| && mem[..endIdx] == s && mem[endIdx] == 0
    {
      assert mem[|s|] == RowOf(mem[..], 0)[|s|] == 0;
      var idx := 0;
      while mem[idx] != 0
        invariant 0 <= idx <= |s| && forall i | 0 <= i < idx :: mem[i] != 0
        decreases |s| - idx
      {
        idx := idx + 1;
      }
      StringOf(mem[..], 0, s, idx);
      endIdx, cursorPosIdx := idx, idx;
    }

    /** Unplot the cursor and blank the line. */
    method EraseLine(ghost home: nat)
      requires term.Valid() && mem as object != term.cells && mem.Length == MEM_SIZE && cursorPosIdx < mem.Length
      requires home == term.home && home + endIdx < term.grid.Count()
      modifies term, term.cells
      ensures term.Valid() && term.home == home && ViewOk(old(term.View()), term.style)
      ensures term.View().(at := home)
              == ClearX(Unplot(old(term.View()), mem[cursorPosIdx], term.style).(at := home), endIdx, Blank(term.style))
    {
      hide Drawn, Painted, ClearLoop, Style.Valid, Grid.Address, Grid.Valid;
      term.UnplotTextCursor(mem[cursorPosIdx]);
      ClearLoopBlanks(term.View().(at := home), endIdx, Blank(term.style));
      term.ClearXCellsAt(term.inputStart, endIdx, home);
    }

    /** Print row 0 from the start of the line on, and the cursor behind it. */
    method ShowLine(ghost home: nat, ghost s: seq<Byte>)
      requires term.Valid() && mem as object != term.cells && mem.Length == MEM_SIZE
      requires home == term.home && home < term.grid.Count()
      requires endIdx == cursorPosIdx == |s| < mem.Length && mem[..endIdx] == s && mem[endIdx] == 0 && TextOk(s)
      modifies term, term.cells
      ensures term.Valid()
      ensures term.View() == Plot(PrintStr(old(term.View()).(at := home), s, term.style), 0, term.style)
    {
      hide Drawn, Painted, PrintStr, Style.Valid, Grid.Address, Grid.Valid;
      term.SetTextCursor(term.inputStart, home);
      assert forall i | 0 <= i < |s| :: mem[i] == s[i];
      var n := Strlen(mem, 0);
      assert n == |s| && mem[0..n] == s;
      term.PrintText(mem[0..n]);
      term.PlotTextCursor(mem[cursorPosIdx]);
    }

    /** Show row r instead of the line on the screen, and copy it to row 0. */
    method ReplaceCurrCmdWithDiffCmd(r: nat, ghost l: Line, ghost s: seq<Byte>)
      requires mem.Length == MEM_SIZE && term.Valid() && mem as object != term.cells
      requires r < ROWS && TextOk(s) && RowOf(mem[..], r) == Padded(s)
      requires endIdx == |l.Text()| && cursorPosIdx == |l.before| && endIdx <= LINE_MAX
      requires 0 <= term.home && term.home + endIdx < term.grid.Count()
      modifies this`endIdx, this`cursorPosIdx, mem, term, term.cells
      ensures term.Valid() && endIdx == cursorPosIdx == |s|
      ensures OnlyRow(old(mem[..]), mem[..], 0) && RowOf(mem[..], 0) == Padded(s)
      ensures ViewOk(old(term.View()), term.style)
      ensures term.View() == ReplaceView(old(term.View()), l, old(mem[cursorPosIdx]), s, term.style)
    {
      hide Padded, RowOf, Drawn, Painted, ClearX, PrintStr, Style.Valid, Grid.Address, Grid.Valid, CopiedForward;
      ghost var home: nat := term.home;
      EraseLine(home);
      RowCopy(mem[..], 0, r);
      Memcpy(mem, 0, ROW_SIZE * r, ROW_SIZE);
      InitInputBuffCursor(s);
      ShowLine(home, s);
    }

    /** The arrow up. */
    method UpArrow()
      requires Valid()
      requires edit.curr < |edit.history| ==> 0 <= term.home && term.home + endIdx < term.grid.Count()
      modifies this, mem, term, term.cells
      ensures Valid() && edit == MovedUp(old(edit))
      ensures ViewOk(old(term.View()), term.style)
      ensures old(edit).curr >= |old(edit).history| ==> term.View() == old(term.View())
      ensures old(edit).curr < |old(edit).history| ==>
                term.View() == ReplaceView(old(term.View()), old(edit).line, CharAt(old(edit).line.after, 0),
                                           old(edit).history[old(edit).curr], term.style)
    {
      hide Padded, RowOf, ReplaceView, Drawn, Style.Valid, Grid.Address, Grid.Valid, CopiedForward, Holds;
      TermIsOk();
      AtCursor();
      ghost var e, m := edit, mem[..];
      if currCommandIdx < HISTORY_MAX {
        EntryExistsIff(m, e, currCommandIdx + 1);
        if mem[ROW_SIZE * (currCommandIdx + 1)] != 0 {
          RowCopy(m, SAVED_ROW, 0);
          HeldRow(m, e, currCommandIdx + 1);
          if currCommandIdx == 0 {
            Memcpy(mem, ROW_SIZE * SAVED_ROW, 0, ROW_SIZE);
            SavedApart(m, mem[..], cursorPosIdx);
          }
          ghost var n := mem[..];
          currCommandIdx := currCommandIdx + 1;
          ReplaceCurrCmdWithDiffCmd(currCommandIdx, e.line, e.history[e.curr]);
          UpStored(m, n, mem[..], e);
          edit := MovedUp(e);
        }
      }
    }

    /** The arrow down. Back at no entry, row 0 already holds the saved line when the cursor is
        unplotted. */
    method DownArrow()
      requires Valid()
      requires 0 < edit.curr ==> 0 <= term.home && term.home + endIdx < term.grid.Count()
      modifies this, mem, term, term.cells
      ensures Valid() && edit == MovedDown(old(edit))
      ensures ViewOk(old(term.View()), term.style)
      ensures old(edit).curr == 0 ==> term.View() == old(term.View())
      ensures old(edit).curr == 1 ==>
                term.View() == ReplaceView(old(term.View()), old(edit).line,
                                           CharAt(old(edit).saved, |old(edit).line.before|), old(edit).saved, term.style)
      ensures 1 < old(edit).curr ==>
                term.View() == ReplaceView(old(term.View()), old(edit).line, CharAt(old(edit).line.after, 0),
                                           old(edit).history[old(edit).curr - 2], term.style)
    {
      hide RowOf, ReplaceView, Drawn, Style.Valid, Grid.Address, Grid.Valid, CopiedForward, Holds, Padded;
      TermIsOk();
      AtCursor();
      ghost var e, m := edit, mem[..];
      if currCommandIdx > 0 {
        RowCopy(m, 0, SAVED_ROW);
        SavedHeld(m, e);
        currCommandIdx := currCommandIdx - 1;
        if currCommandIdx == 0 {
          Memcpy(mem, 0, ROW_SIZE * SAVED_ROW, ROW_SIZE);
          PaddedAt(mem[..], e.saved, cursorPosIdx);
        } else {
          HeldRow(m, e, currCommandIdx);
        }
        ghost var n := mem[..];
        ghost var s := if e.curr == 1 then e.saved else e.history[e.curr - 2];
        ReplaceCurrCmdWithDiffCmd(currCommandIdx, e.line, s);
        DownStored(m, n, mem[..], e);
        edit := MovedDown(e);
      }
    }

    /** Move every row one down, empty the first, and forget the saved line. */
    method LogAndResetInputBuffers()
      requires BufferOk() && mem.Length == MEM_SIZE
      modifies mem
      ensures EditOk(Entered(edit)) && Holds(mem[..], Entered(edit)) && RowOf(mem[..], 0) == Padded([])
    {
      hide RowOf, CopiedForward, Padded, Holds;
      ghost var e, m := edit, mem[..];
      CharInRow(m, e, 0);
      EmptyRow(m, e);
      if mem[0] != 0 {
        var idx := ROWS - 1;
        while idx > 0
          invariant 0 <= idx < ROWS
          invariant forall r | idx < r < ROWS :: RowOf(mem[..], r) == RowOf(m, r - 1)
          invariant forall r: nat | r <= idx || r == SAVED_ROW :: RowOf(mem[..], r) == RowOf(m, r)
        {
          RowCopy(mem[..], idx, idx - 1);
          Memcpy(mem, ROW_SIZE * idx, ROW_SIZE * (idx - 1), ROW_SIZE);
          idx := idx - 1;
        }
        ClearRow(0);
      }
      ClearRow(SAVED_ROW);
      EnterStored(m, mem[..], e);
    }

    method ClearRow(r: nat)
      requires mem.Length == MEM_SIZE && r <= ROWS
      modifies mem
      ensures OnlyRow(old(mem[..]), mem[..], r) && RowOf(mem[..], r) == Padded([])
    {
      Memset(mem, ROW_SIZE * r, 0, ROW_SIZE);
      WithinRow(old(mem[..]), mem[..], r);
    }

    /** Unplot the cursor and leave the line. */
    method LeaveLine()
      requires Valid() && 0 <= term.home < term.grid.Count()
      modifies term, term.cells
      ensures term.Valid() && ViewOk(old(term.View()), term.style) && mem.Length == MEM_SIZE
      ensures term.View() == BehindLine(old(term.View()), edit.line, term.style)
    {
      hide RowOf, Drawn, Painted, ToRow, RowsNeeded, Style.Valid, Grid.Address, Grid.Valid, Holds, EditOk;
      TermIsOk();
      AtCursor();
      term.UnplotTextCursor(mem[cursorPosIdx]);
      MoveTextCursorToNewLineStart();
    }

    /** print_prompt, with an empty line behind it. */
    method ShowPrompt()
      requires term.Valid() && mem as object != term.cells && cursorPosIdx < mem.Length && mem[cursorPosIdx] == 0
      modifies term, term.cells
      ensures term.Valid() && term.View() == Prompted(old(term.View()), term.style)
    {
      hide Drawn, Painted, PrintStr, Style.Valid, Grid.Address, Grid.Valid;
      term.PrintText(PROMPT);
      term.StartInput();
      term.PlotTextCursor(mem[cursorPosIdx]);
    }

    /** Enter; `out` is what the shell prints. */
    method ReturnEnter(out: seq<Byte>)
      requires Valid() && 0 <= term.home < term.grid.Count()
      modifies this, mem, term, term.cells
      ensures Valid() && edit == Entered(old(edit))
      ensures ViewOk(old(term.View()), term.style)
      ensures term.View() == EnterView(old(term.View()), old(edit).line, out, term.style)
    {
      hide RowOf, PrintStr, ToRow, BehindLine, Prompted, Drawn, Style.Valid, Grid.Address, Grid.Valid, Padded,
           Holds, EditOk;
      LeaveLine();
      term.PrintText(out);
      MoveTextCursorToNewLineStartFromTextCursor();
      LogAndResetInputBuffers();
      edit := Entered(edit);
      InitInputBuffCursor([]);
      ShowPrompt();
      currCommandIdx := 0;
    }

    method MoveTextCursorToNewLineStart()
      requires term.Valid() && 0 <= term.home < term.grid.Count()
      modifies term, term.cells
      ensures term.Valid()
      ensures term.View() == ToRow(old(term.View()), RowBehind(old(term.View()), endIdx), Blank(term.style))
    {
      hide ToRow, Drawn, Style.Valid, Grid.Address;
      RowArithmetic(term.grid, term.home, 0);
      term.MoveToRow(term.grid.GetTextRow(term.inputStart) + RowsNeeded(endIdx, term.grid.cols));
    }

    method MoveTextCursorToNewLineStartFromTextCursor()
      requires term.Valid()
      modifies term, term.cells
      ensures term.Valid()
      ensures var u := old(term.View()); term.View() == ToRow(u, u.at / u.cols + 1, Blank(term.style))
    {
      hide ToRow, Drawn, Style.Valid, Grid.Address;
      RowArithmetic(term.grid, term.at, 0);
      term.MoveToRow(term.grid.GetTextRow(term.textCursor) + 1);
    }

    /** Every key that fits edits the line as the value model says and leaves the screen showing
        it. */
    method HandleKeycode(k: Key, isBreak: bool, out: seq<Byte>)
      requires Valid() && Agrees(term.View(), edit.line, term.style) && (k.Printable? ==> k.ch != 0)
      requires KeyFits(term.View(), edit, k, isBreak)
      modifies this, mem, term, term.cells
      ensures Valid() && edit == Step(old(edit), k, isBreak)
      ensures ViewOk(old(term.View()), term.style)
      ensures term.View() == KeyView(old(term.View()), old(edit), k, isBreak, out, term.style)
      ensures Agrees(term.View(), edit.line, term.style)
    {
      hide Agrees, ViewOk, InsertView, DeleteView, LeftView, RightView, ReplaceView, EnterView, BufferOk,
           Terminal.Valid;
      ghost var v, e, st := term.View(), edit, term.style;
      LineFits();
      KeyKeepsAgreement(v, e, k, isBreak, out, st);
      match k
      case Left => DecCursors();
      case Right => IncCursors();
      case Up => UpArrow();
      case Down => DownArrow();
      case Backspace => if !isBreak { Backspace(); }
      case Enter => if !isBreak { ReturnEnter(out); }
      case Printable(ch) => if !isBreak { var _ := PlaceCharAtCursorPos(ch); }
    }

    lemma LineFits()
      requires Valid() && Agrees(term.View(), edit.line, term.style)
      ensures EditOk(edit) && ViewOk(term.View(), term.style) && term.home + endIdx < term.grid.Count()
      ensures term.home == term.View().home && endIdx >= 0
    {
    }

    lemma TermIsOk()
      requires term.Valid()
      ensures ViewOk(term.View(), term.style)
    {
    }
  }

  lemma HeldRow(m: seq<Byte>, e: Edit, r: nat)
    requires EditOk(e) && Holds(m, e) && 0 < r <= |e.history|
    ensures RowOf(m, r) == Padded(e.history[r - 1])
  {
  }

  lemma SavedHeld(m: seq<Byte>, e: Edit)
    requires EditOk(e) && Holds(m, e)
    ensures |m| == MEM_SIZE && RowOf(m, SAVED_ROW) == Padded(e.saved)
  {
  }

  lemma PaddedAt(m: seq<Byte>, s: seq<Byte>, i: nat)
    requires |m| == MEM_SIZE && |s| < ROW_SIZE && RowOf(m, 0) == Padded(s) && i < ROW_SIZE
    ensures m[i] == CharAt(s, i)
  {
    assert m[i] == RowOf(m, 0)[i];
  }

  /** With an empty line, nothing has to move. */
  lemma EmptyRow(m: seq<Byte>, e: Edit)
    requires EditOk(e) && Holds(m, e)
    ensures |m| == MEM_SIZE && (e.line.Text() == [] ==> RowOf(m, 0) == Padded([]))
    ensures e.line.Text() != [] ==> e.line.Text()[0] != 0
  {
  }

  lemma SavedApart(m: seq<Byte>, m': seq<Byte>, i: nat)
    requires |m| == MEM_SIZE && OnlyRow(m, m', SAVED_ROW) && i < ROW_SIZE
    ensures m'[i] == m[i]
  {
    assert RowOf(m', 0)[i] == RowOf(m, 0)[i];
  }

  lemma EmptyIsHeld(m: seq<Byte>)
    requires |m| == MEM_SIZE && forall i | 0 <= i < |m| :: m[i] == 0
    ensures EditOk(Edit(Line([], []), [], [], 0)) && Holds(m, Edit(Line([], []), [], [], 0))
  {
    assert forall r: nat | r <= ROWS :: RowOf(m, r) == Padded([]);
  }

  lemma MovedNothing(m: seq<Byte>, dest: nat, src: nat)
    requires dest <= |m| && src <= |m|
    ensures Moved(m, dest, src, 0) == m
  {
  }
}
