/** The command buffer in memory: 25 rows of 256 bytes, the line being edited in the first and
    the history behind it, and one more row for the line put aside. */
module LineRows {
  import opened CString
  import opened LineEditor

  const ROW_SIZE := 256
  const ROWS := 25
  const SAVED_ROW := 25
  const MEM_SIZE := ROW_SIZE * (ROWS + 1)

  /** A row holding a string: NULs from its end on. */
  function Padded(s: seq<Byte>): (r: seq<Byte>)
    requires |s| < ROW_SIZE
    ensures |r| == ROW_SIZE
  {
    s + seq(ROW_SIZE - |s|, _ => 0)
  }

  function RowOf(m: seq<Byte>, r: nat): seq<Byte>
    requires |m| == MEM_SIZE && r <= ROWS
  {
    m[ROW_SIZE * r..ROW_SIZE * (r + 1)]
  }

  function Entry(history: seq<seq<Byte>>, r: nat): seq<Byte>
    requires 0 < r
  {
    if r - 1 < |history| then history[r - 1] else []
  }

  /** Memory holds the line, the history and the saved line. */
  ghost predicate Holds(m: seq<Byte>, e: Edit)
    requires EditOk(e)
  {
    && |m| == MEM_SIZE && RowOf(m, 0) == Padded(e.line.Text()) && RowOf(m, SAVED_ROW) == Padded(e.saved)
    && forall r | 0 < r < ROWS :: RowOf(m, r) == Padded(Entry(e.history, r))
  }

  /** m' differs from m in row d only. */
  ghost predicate OnlyRow(m: seq<Byte>, m': seq<Byte>, d: nat)
    requires |m| == MEM_SIZE
  {
    |m'| == MEM_SIZE && forall r: nat | r <= ROWS && r != d :: RowOf(m', r) == RowOf(m, r)
  }

  lemma WithinRow(m: seq<Byte>, m': seq<Byte>, d: nat)
    requires |m| == MEM_SIZE == |m'| && d <= ROWS
    requires forall i | 0 <= i < |m| && !(ROW_SIZE * d <= i < ROW_SIZE * (d + 1)) :: m'[i] == m[i]
    ensures OnlyRow(m, m', d)
  {
  }

  /** Copying whole rows. */
  lemma RowCopy(m: seq<Byte>, d: nat, s: nat)
    requires |m| == MEM_SIZE && d <= ROWS && s <= ROWS
    ensures var m' := CopiedForward(m, ROW_SIZE * d, ROW_SIZE * s, ROW_SIZE);
            OnlyRow(m, m', d) && RowOf(m', d) == RowOf(m, s)
  {
    hide CopiedForward;
    ForwardIsMoveIff(m, ROW_SIZE * d, ROW_SIZE * s, ROW_SIZE);
    RowMoved(m, d, s);
  }

  lemma RowMoved(m: seq<Byte>, d: nat, s: nat)
    requires |m| == MEM_SIZE && d <= ROWS && s <= ROWS
    ensures var m' := Moved(m, ROW_SIZE * d, ROW_SIZE * s, ROW_SIZE);
            OnlyRow(m, m', d) && RowOf(m', d) == RowOf(m, s)
  {
    WithinRow(m, Moved(m, ROW_SIZE * d, ROW_SIZE * s, ROW_SIZE), d);
  }

  /** The string of a row is found by its length: the first NUL ends it. */
  lemma StringOf(m: seq<Byte>, r: nat, s: seq<Byte>, n: nat)
    requires |m| == MEM_SIZE && r <= ROWS && TextOk(s) && RowOf(m, r) == Padded(s)
    requires ROW_SIZE * r + n < |m| && m[ROW_SIZE * r + n] == 0
    requires forall i | ROW_SIZE * r <= i < ROW_SIZE * r + n :: m[i] != 0
    ensures n == |s| && m[ROW_SIZE * r..ROW_SIZE * r + n] == s
  {
    var row := RowOf(m, r);
    assert row[|s|] == 0 == m[ROW_SIZE * r + |s|];
    assert forall i | 0 <= i < |s| :: row[i] == s[i] && row[i] != 0;
    assert forall i | 0 <= i < ROW_SIZE :: m[ROW_SIZE * r + i] == row[i];
    assert row[..|s|] == s;
  }

  /** memmove makes room, then the character goes in. */
  lemma InsertInRow(m: seq<Byte>, before: seq<Byte>, after: seq<Byte>, ch: Byte)
    requires |m| == MEM_SIZE && |before + after| < LINE_MAX && RowOf(m, 0) == Padded(before + after)
    ensures var c := |before|;
            var m' := Moved(m, c + 1, c, |after|)[c := ch];
            OnlyRow(m, m', 0) && RowOf(m', 0) == Padded(before + [ch] + after)
  {
    hide Padded;
    WithinRow(m, Moved(m, |before| + 1, |before|, |after|)[|before| := ch], 0);
    InsertedInRow(m, before, after, ch);
  }

  lemma InsertedInRow(m: seq<Byte>, before: seq<Byte>, after: seq<Byte>, ch: Byte)
    requires |m| == MEM_SIZE && |before + after| < LINE_MAX && RowOf(m, 0) == Padded(before + after)
    ensures RowOf(Moved(m, |before| + 1, |before|, |after|)[|before| := ch], 0) == Padded(before + [ch] + after)
  {
    var c, p := |before|, Padded(before + after);
    var m', p' := Moved(m, c + 1, c, |after|)[c := ch], Padded(before + [ch] + after);
    assert m[..ROW_SIZE] == p;
    forall i | 0 <= i < ROW_SIZE ensures m'[i] == p'[i] {
      if c < i < c + 1 + |after| {
        assert m'[i] == m[i - 1] == p[i - 1];
      } else if i != c {
        assert m'[i] == m[i] == p[i];
      }
    }
  }

  lemma MovedLeftInRow(m: seq<Byte>, before: seq<Byte>, after: seq<Byte>)
    requires |m| == MEM_SIZE && |before + after| <= LINE_MAX && RowOf(m, 0) == Padded(before + after)
    requires before != []
    ensures RowOf(Moved(m, |before| - 1, |before|, |after| + 1), 0) == Padded(before[..|before| - 1] + after)
  {
    var c, p := |before|, Padded(before + after);
    var m', p' := Moved(m, c - 1, c, |after| + 1), Padded(before[..c - 1] + after);
    assert m[..ROW_SIZE] == p;
    forall i | 0 <= i < ROW_SIZE ensures m'[i] == p'[i] {
      if c - 1 <= i < c + |after| {
        assert m'[i] == m[i + 1] == p[i + 1];
      } else {
        assert m'[i] == m[i] == p[i];
      }
    }
  }

  /** memcpy moves what is behind the cursor, NUL included, one to the left. */
  lemma DeleteInRow(m: seq<Byte>, before: seq<Byte>, after: seq<Byte>)
    requires |m| == MEM_SIZE && |before + after| <= LINE_MAX && RowOf(m, 0) == Padded(before + after)
    requires before != []
    ensures var c := |before|;
            var m' := CopiedForward(m, c - 1, c, |after| + 1);
            OnlyRow(m, m', 0) && RowOf(m', 0) == Padded(before[..c - 1] + after)
  {
    hide CopiedForward, Padded, RowOf;
    var c := |before|;
    ForwardIsMoveIff(m, c - 1, c, |after| + 1);
    WithinRow(m, Moved(m, c - 1, c, |after| + 1), 0);
    MovedLeftInRow(m, before, after);
  }

  /** Reading the first row. */
  lemma CharInRow(m: seq<Byte>, e: Edit, i: nat)
    requires EditOk(e) && Holds(m, e) && i < ROW_SIZE
    ensures m[i] == if i < |e.line.Text()| then e.line.Text()[i] else 0
  {
    assert m[i] == RowOf(m, 0)[i];
  }

  /** Only the line changes with the first row. */
  lemma LineStored(m: seq<Byte>, m': seq<Byte>, e: Edit, l: Line)
    requires EditOk(e) && Holds(m, e) && OnlyRow(m, m', 0)
    requires TextOk(l.Text()) && RowOf(m', 0) == Padded(l.Text())
    ensures EditOk(e.(line := l)) && Holds(m', e.(line := l))
  {
  }

  /** Backspace at the end of the line writes one NUL. */
  lemma EraseInRow(m: seq<Byte>, s: seq<Byte>)
    requires |m| == MEM_SIZE && 0 < |s| <= LINE_MAX && RowOf(m, 0) == Padded(s)
    ensures var m' := m[|s| - 1 := 0];
            OnlyRow(m, m', 0) && RowOf(m', 0) == Padded(s[..|s| - 1])
  {
    var m' := m[|s| - 1 := 0];
    WithinRow(m, m', 0);
    assert RowOf(m', 0) == RowOf(m, 0)[|s| - 1 := 0];
  }

  // ----- the history

  /** A history row is not empty iff there is an entry for it. */
  lemma EntryExistsIff(m: seq<Byte>, e: Edit, r: nat)
    requires EditOk(e) && Holds(m, e) && 0 < r < ROWS
    ensures m[ROW_SIZE * r] != 0 <==> r <= |e.history|
  {
    assert m[ROW_SIZE * r] == RowOf(m, r)[0];
    if r <= |e.history| { assert e.history[r - 1][0] != 0; }
  }

  lemma UpStored(m: seq<Byte>, n: seq<Byte>, m': seq<Byte>, e: Edit)
    requires EditOk(e) && Holds(m, e) && e.curr < |e.history|
    requires if e.curr == 0 then OnlyRow(m, n, SAVED_ROW) && RowOf(n, SAVED_ROW) == RowOf(m, 0) else n == m
    requires |n| == MEM_SIZE && OnlyRow(n, m', 0) && RowOf(m', 0) == Padded(e.history[e.curr])
    ensures EditOk(MovedUp(e)) && Holds(m', MovedUp(e))
  {
    hide Padded, RowOf;
    assert AtEnd(e.history[e.curr]).Text() == e.history[e.curr];
  }

  lemma DownStored(m: seq<Byte>, n: seq<Byte>, m': seq<Byte>, e: Edit)
    requires EditOk(e) && Holds(m, e) && 0 < e.curr && |n| == MEM_SIZE
    requires OnlyRow(m, n, 0) && OnlyRow(n, m', 0)
    requires RowOf(m', 0) == Padded(if e.curr == 1 then e.saved else e.history[e.curr - 2])
    ensures EditOk(MovedDown(e)) && Holds(m', MovedDown(e))
  {
    hide Padded, RowOf;
    var s := if e.curr == 1 then e.saved else e.history[e.curr - 2];
    assert AtEnd(s).Text() == s;
  }

  lemma RecordedEntry(history: seq<seq<Byte>>, s: seq<Byte>, r: nat)
    requires |history| <= HISTORY_MAX && 0 < r < ROWS
    ensures Entry(Recorded(history, s), r)
            == if s == [] then Entry(history, r) else if r == 1 then s else Entry(history, r - 1)
  {
  }

  lemma EnteredOk(e: Edit)
    requires EditOk(e)
    ensures EditOk(Entered(e))
  {
    var t, h := e.line.Text(), Entered(e).history;
    assert forall i | 0 <= i < |h| :: h[i] == t || h[i] in e.history;
  }

  /** Rows moved up by one, and emptied first and last rows. */
  lemma EnterStored(m: seq<Byte>, m': seq<Byte>, e: Edit)
    requires EditOk(e) && Holds(m, e) && |m'| == MEM_SIZE
    requires RowOf(m', 0) == Padded([]) && RowOf(m', SAVED_ROW) == Padded([])
    requires forall r | 0 < r < ROWS :: RowOf(m', r) == RowOf(m, if e.line.Text() == [] then r else r - 1)
    ensures EditOk(Entered(e)) && Holds(m', Entered(e))
  {
    hide Padded, RowOf, Recorded;
    EnteredOk(e);
    forall r | 0 < r < ROWS ensures RowOf(m', r) == Padded(Entry(Entered(e).history, r)) {
      RecordedEntry(e.history, e.line.Text(), r);
    }
  }
}
