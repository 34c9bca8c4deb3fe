/** What every key does to the screen, and that the screen keeps showing the input line. */
module LineScreen {
  import opened CString
  import opened LineEditor
  import TextGrid
  import opened TextScreen
  import opened Wrappers

  /** "maybeOS > " */
  const PROMPT: seq<Byte> := [109, 97, 121, 98, 101, 79, 83, 32, 62, 32]

  function CharAt(text: seq<Byte>, i: int): Byte {
    if 0 <= i < |text| then text[i] else 0
  }

  ghost predicate ViewOk(v: View, st: Style) {
    && v.Valid() && st.Valid()
    && (forall p | 0 <= p < |v.cells| :: |v.cells[p]| == st.pixels)
  }

  /** The line begins right behind a prompt at the start of a row. */
  ghost predicate Aligned(v: View) {
    v.Valid() && v.home % v.cols == |PROMPT| % v.cols
  }

  /** From its first cell on the screen shows the line in plain, with the cursor's cell
      highlighted and only blank cells behind the end. */
  ghost predicate Agrees(v: View, l: Line, st: Style) {
    && ViewOk(v, st) && Aligned(v) && v.at == v.home + |l.before| && v.home + |l.Text()| < |v.cells|
    && forall p | 0 <= p < |v.cells| && v.home <= p ::
         v.cells[p] == Drawn(st, CharAt(l.Text(), p - v.home), if p == v.at then st.highlight else st.paper)
  }

  /** The same without a cursor, and with one cell that may hold anything. */
  ghost predicate Clean(v: View, text: seq<Byte>, hole: int, st: Style) {
    && ViewOk(v, st)
    && forall p | 0 <= p < |v.cells| && v.home <= p && p - v.home != hole ::
         v.cells[p] == Drawn(st, CharAt(text, p - v.home), st.paper)
  }

  const NO_HOLE := -1

  // ----- drawing at the cursor

  function Unplot(v: View, ch: Byte, st: Style): View
    requires v.Valid() && st.Valid()
  {
    Put(v, Painted(v.cells[v.at], st.font[ch], None, Some(st.paper)))
  }

  function Plot(v: View, ch: Byte, st: Style): View
    requires v.Valid() && st.Valid()
  {
    Put(v, Painted(v.cells[v.at], st.font[ch], None, Some(st.highlight)))
  }

  function Print(v: View, ch: Byte, st: Style): View
    requires v.Valid() && st.Valid()
  {
    Put(v, Drawn(st, ch, st.paper))
  }

  function Blank(st: Style): Cell
    requires st.Valid()
  {
    Drawn(st, 0, st.paper)
  }

  lemma GlyphSize(st: Style, ch: Byte)
    requires st.Valid()
    ensures |st.font[ch]| == st.pixels
  {
  }

  /** Told the right character, unplotting leaves the line in plain; told another one, all but
      the cursor's cell. */
  lemma UnplotCleans(v: View, l: Line, told: Byte, st: Style)
    requires Agrees(v, l, st)
    ensures Clean(Unplot(v, told, st), l.Text(), |l.before|, st)
    ensures told == CharAt(l.Text(), |l.before|) || (told == 0 && l.after == []) ==>
              Clean(Unplot(v, told, st), l.Text(), NO_HOLE, st)
  {
    hide Drawn, Painted, Style.Valid;
    GlyphSize(st, told);
    PlotShows(st, v.cells[v.at], CharAt(l.Text(), |l.before|), st.highlight, st.paper);
  }

  lemma PlotAgrees(v: View, l: Line, st: Style)
    requires Clean(v, l.Text(), NO_HOLE, st) && Aligned(v)
    requires v.at == v.home + |l.before| && v.home + |l.Text()| < |v.cells|
    ensures Agrees(Plot(v, CharAt(l.Text(), |l.before|), st), l, st)
  {
    hide Drawn, Painted, Style.Valid;
    PlotShows(st, v.cells[v.at], CharAt(l.Text(), |l.before|), st.paper, st.highlight);
  }

  /** Plotting NUL on the last character erases it. */
  lemma PlotNulErases(v: View, text: seq<Byte>, st: Style)
    requires Clean(v, text, NO_HOLE, st) && Aligned(v) && text != []
    requires v.at == v.home + |text| - 1 && v.home + |text| < |v.cells|
    ensures Agrees(Plot(v, 0, st), AtEnd(text[..|text| - 1]), st)
  {
    hide Drawn, Painted, Style.Valid;
    PlotShows(st, v.cells[v.at], 0, st.paper, st.highlight);
  }

  // ----- printing, scrolling and clearing

  lemma ModStays(h: int, c: nat)
    requires 0 < c
    ensures (h - c) % c == h % c
  {
    assert h - c == c * (h / c - 1) + h % c;
    TextGrid.DivModIs(c, h / c - 1, h % c);
  }

  /** Moving on keeps the line on screen where it is relative to its start, scroll or not. */
  lemma IncKeepsClean(v: View, text: seq<Byte>, hole: int, st: Style)
    requires Clean(v, text, hole, st) && v.home + |text| <= |v.cells|
    requires v.at + 1 == |v.cells| ==> hole < |v.cells| - v.home
    ensures var w := Inc(v, Blank(st));
            && Clean(w, text, hole, st) && |w.cells| == |v.cells| && w.cols == v.cols
            && w.at - w.home == v.at - v.home + 1
            && w.home == (if v.at + 1 < |v.cells| then v.home else v.home - v.cols)
            && w.home % w.cols == v.home % v.cols
  {
    hide Drawn, Style.Valid;
    if v.at + 1 == |v.cells| {
      ModStays(v.home, v.cols);
      var w := Inc(v, Blank(st));
      forall p | 0 <= p < |w.cells|
        ensures w.cells[p] == if p + v.cols < |v.cells| then v.cells[p + v.cols] else Blank(st)
      {
      }
    }
  }

  /** Text with the characters from position j on replaced. */
  function Over(text: seq<Byte>, j: nat, s: seq<Byte>): (r: seq<Byte>)
    requires j <= |text|
    ensures |r| == if j + |s| < |text| then |text| else j + |s|
  {
    text[..j] + s + if j + |s| < |text| then text[j + |s|..] else []
  }

  lemma PrintKeepsClean(v: View, text: seq<Byte>, hole: int, ch: Byte, j: nat, st: Style)
    requires Clean(v, text, hole, st) && v.at == v.home + j && j <= |text|
    ensures Clean(Print(v, ch, st), Over(text, j, [ch]), if hole == j then NO_HOLE else hole, st)
  {
    hide Drawn, Style.Valid;
  }

  lemma OverSteps(text: seq<Byte>, j: nat, s: seq<Byte>)
    requires j <= |text| && s != []
    ensures Over(Over(text, j, [s[0]]), j + 1, s[1..]) == Over(text, j, s)
  {
    var t := Over(text, j, [s[0]]);
    assert t[..j + 1] == text[..j] + [s[0]];
    assert text[..j] + [s[0]] + s[1..] == text[..j] + s;
    if j + |s| < |text| { assert t[j + |s|..] == text[j + |s|..]; }
  }

  /** Printing a string over the line from position j on, across scrolls if there are any. */
  lemma {:induction false} PrintStrKeepsClean(v: View, text: seq<Byte>, hole: int, s: seq<Byte>, j: nat, st: Style)
    requires Clean(v, text, hole, st) && v.at == v.home + j && j <= |text|
    requires v.home + |text| <= |v.cells| && hole < |v.cells| - v.home
    ensures var w := PrintStr(v, s, st);
            && Clean(w, Over(text, j, s), if j <= hole < j + |s| then NO_HOLE else hole, st)
            && |w.cells| == |v.cells| && w.cols == v.cols && w.at == w.home + j + |s|
            && (if v.at + |s| < |v.cells| then w.home == v.home else w.home < v.home)
            && w.home % w.cols == v.home % v.cols
    decreases |s|
  {
    hide Drawn, Style.Valid, Clean, Inc;
    if s == [] {
      assert Over(text, j, s) == text;
      AtIsOnScreen(v, text, hole, st);
    } else {
      AtIsOnScreen(v, text, hole, st);
      var t, h := Over(text, j, [s[0]]), if hole == j then NO_HOLE else hole;
      PrintKeepsClean(v, text, hole, s[0], j, st);
      IncKeepsClean(Print(v, s[0], st), t, h, st);
      var w := Inc(Print(v, s[0], st), Blank(st));
      PrintStrKeepsClean(w, t, h, s[1..], j + 1, st);
      OverSteps(text, j, s);
    }
  }

  lemma AtIsOnScreen(v: View, text: seq<Byte>, hole: int, st: Style)
    requires Clean(v, text, hole, st)
    ensures v.Valid() && st.Valid()
  {
  }

  /** Clearing from position j to the end of the line. */
  lemma ClearTruncates(v: View, text: seq<Byte>, hole: int, j: nat, st: Style)
    requires Clean(v, text, hole, st) && v.at == v.home + j && j <= |text| && v.home + |text| <= |v.cells|
    ensures Clean(ClearX(v, |text| - j, Blank(st)), text[..j], if j <= hole < |text| then NO_HOLE else hole, st)
  {
    hide Drawn, Style.Valid, ClearLoop;
    ClearLoopBlanks(v, |text| - j, Blank(st));
    var w := ClearX(v, |text| - j, Blank(st));
    forall p | 0 <= p < |w.cells| && v.home <= p
      ensures w.cells[p] == if v.at <= p < v.home + |text| then Blank(st) else v.cells[p]
    {
    }
  }

  // ----- keys

  /** place_char_at_cursor_pos: what is behind the cursor is printed one cell on first. */
  function InsertView(v: View, l: Line, ch: Byte, st: Style): (r: View)
    requires ViewOk(v, st)
  {
    var u := Unplot(v, CharAt(l.after, 0), st);
    var w := if l.after == [] then u else PrintStr(Inc(u, Blank(st)), l.after, st).(at := u.at);
    Plot(Inc(Print(w, ch, st), Blank(st)), CharAt(l.after, 0), st)
  }

  /** handle_special_keycode on backspace, at the end of the line and within it. */
  function DeleteView(v: View, l: Line, st: Style): View
    requires ViewOk(v, st)
  {
    if l.before == [] then v
    else if l.after == [] then Plot(Dec(Unplot(v, 0, st)), 0, st)
    else
      var u := Dec(ClearX(Unplot(v, l.after[0], st), |l.after|, Blank(st)));
      Plot(PrintStr(u, l.after, st).(at := u.at), l.after[0], st)
  }

  function LeftView(v: View, l: Line, st: Style): View
    requires ViewOk(v, st)
  {
    if l.before == [] then v
    else Plot(Dec(Unplot(v, CharAt(l.after, 0), st)), l.before[|l.before| - 1], st)
  }

  function RightView(v: View, l: Line, st: Style): View
    requires ViewOk(v, st)
  {
    if l.after == [] then v
    else Plot(Inc(Unplot(v, l.after[0], st), Blank(st)), CharAt(l.after, 1), st)
  }

  /** replace_curr_cmd_with_diff_cmd; `told` is what the buffer holds at the cursor when the
      old line's cursor is unplotted. */
  function ReplaceView(v: View, l: Line, told: Byte, s: seq<Byte>, st: Style): View
    requires ViewOk(v, st) && 0 <= v.home < |v.cells|
  {
    var u := Unplot(v, told, st).(at := v.home);
    Plot(PrintStr(ClearX(u, |l.Text()|, Blank(st)), s, st), 0, st)
  }

  // ----- the screen keeps up

  /** Typing at the end keeps screen and line together, across a scroll too. */
  lemma InsertAtEndAgrees(v: View, l: Line, ch: Byte, st: Style)
    requires Agrees(v, l, st) && l.after == [] && |l.Text()| < LINE_MAX
    ensures Agrees(InsertView(v, l, ch, st), Insert(l, ch), st)
  {
    hide Drawn, Style.Valid, Inc, Painted;
    var j := |l.before|;
    UnplotCleans(v, l, 0, st);
    var u := Unplot(v, 0, st);
    assert l.Text() == l.before;
    PrintKeepsClean(u, l.before, NO_HOLE, ch, j, st);
    assert Over(l.before, j, [ch]) == l.before + [ch] == Insert(l, ch).Text();
    IncKeepsClean(Print(u, ch, st), l.before + [ch], NO_HOLE, st);
    PlotAgrees(Inc(Print(u, ch, st), Blank(st)), Insert(l, ch), st);
  }

  /** What is behind the cursor, printed one cell on: the character under the cursor shows
      twice. */
  lemma BehindIsPrinted(v: View, l: Line, st: Style)
    requires Agrees(v, l, st) && l.after != []
    ensures var w := PrintStr(Inc(Unplot(v, l.after[0], st), Blank(st)), l.after, st);
            && Clean(w, l.before + [l.after[0]] + l.after, NO_HOLE, st)
            && |w.cells| == |v.cells| && w.cols == v.cols && w.home % w.cols == v.home % v.cols
            && if v.home + |l.Text()| + 1 < |v.cells| then w.home == v.home else w.home < v.home
  {
    hide Drawn, Style.Valid, Inc, Painted, PrintStr;
    var j := |l.before|;
    UnplotCleans(v, l, l.after[0], st);
    var u := Unplot(v, l.after[0], st);
    IncKeepsClean(u, l.Text(), NO_HOLE, st);
    PrintStrKeepsClean(Inc(u, Blank(st)), l.Text(), NO_HOLE, l.after, j + 1, st);
    assert l.Text()[..j + 1] == l.before + [l.after[0]];
    assert Over(l.Text(), j + 1, l.after) == l.before + [l.after[0]] + l.after;
  }

  /** Typing within the line keeps them together iff the line still fits on the screen. If it
      does not, the screen scrolls and the cursor is put back where it was before. */
  lemma InsertWithinAgreesIff(v: View, l: Line, ch: Byte, st: Style)
    requires Agrees(v, l, st) && l.after != [] && |l.Text()| < LINE_MAX
    ensures Agrees(InsertView(v, l, ch, st), Insert(l, ch), st) <==> v.home + |l.Text()| + 1 < |v.cells|
  {
    hide Drawn, Style.Valid, Inc, Painted, PrintStr;
    var j := |l.before|;
    BehindIsPrinted(v, l, st);
    var u := Unplot(v, l.after[0], st);
    var w := PrintStr(Inc(u, Blank(st)), l.after, st).(at := u.at);
    var t := l.before + [l.after[0]] + l.after;
    if v.home + |l.Text()| + 1 < |v.cells| {
      PrintKeepsClean(w, t, NO_HOLE, ch, j, st);
      assert Over(t, j, [ch]) == Insert(l, ch).Text();
      IncKeepsClean(Print(w, ch, st), Insert(l, ch).Text(), NO_HOLE, st);
      PlotAgrees(Inc(Print(w, ch, st), Blank(st)), Insert(l, ch), st);
    } else {
      IncAt(Print(w, ch, st), Blank(st));
    }
  }

  lemma IncAt(v: View, blank: Cell)
    requires v.Valid() && v.at + 1 < |v.cells|
    ensures Inc(v, blank) == v.(at := v.at + 1)
  {
  }

  /** Deleting keeps them together iff the cursor is not held at the top left corner. */
  lemma DeleteAgreesIff(v: View, l: Line, st: Style)
    requires Agrees(v, l, st)
    ensures Agrees(DeleteView(v, l, st), Deleted(l), st) <==> l.before == [] || v.at > 0
  {
    hide Drawn, Style.Valid, Painted;
    if l.before != [] {
      if l.after != [] {
        DeleteWithinAgreesIff(v, l, st);
      } else {
        UnplotCleans(v, l, 0, st);
        assert l.Text() == l.before;
        if v.at > 0 { PlotNulErases(Dec(Unplot(v, 0, st)), l.before, st); }
      }
    }
  }

  lemma DeleteWithinAgreesIff(v: View, l: Line, st: Style)
    requires Agrees(v, l, st) && l.before != [] && l.after != []
    ensures Agrees(DeleteView(v, l, st), Deleted(l), st) <==> v.at > 0
  {
    hide Drawn, Style.Valid, Painted, ClearLoop, PrintStr;
    var j := |l.before|;
    UnplotCleans(v, l, l.after[0], st);
    var u := Unplot(v, l.after[0], st);
    ClearTruncates(u, l.Text(), NO_HOLE, j, st);
    ClearLoopBlanks(u, |l.after|, Blank(st));
    assert l.Text()[..j] == l.before;
    var w := Dec(ClearX(u, |l.after|, Blank(st)));
    if v.at > 0 {
      PrintStrKeepsClean(w, l.before, NO_HOLE, l.after, j - 1, st);
      assert Over(l.before, j - 1, l.after) == Deleted(l).Text();
      PlotAgrees(PrintStr(w, l.after, st).(at := w.at), Deleted(l), st);
    } else {
      PrintStrKeepsClean(w, l.before, NO_HOLE, l.after, j, st);
    }
  }

  /** Moving left keeps them together iff the cursor is not held at the top left corner. */
  lemma LeftAgreesIff(v: View, l: Line, st: Style)
    requires Agrees(v, l, st)
    ensures Agrees(LeftView(v, l, st), MovedLeft(l), st) <==> l.before == [] || v.at > 0
  {
    hide Drawn, Style.Valid, Painted;
    if l.before != [] {
      UnplotCleans(v, l, CharAt(l.after, 0), st);
      var u := Unplot(v, CharAt(l.after, 0), st);
      assert MovedLeft(l).Text() == l.Text();
      if v.at > 0 { PlotAgrees(Dec(u), MovedLeft(l), st); }
    }
  }

  /** Moving right always does. */
  lemma RightAgrees(v: View, l: Line, st: Style)
    requires Agrees(v, l, st)
    ensures Agrees(RightView(v, l, st), MovedRight(l), st)
  {
    hide Drawn, Style.Valid, Painted;
    if l.after != [] {
      UnplotCleans(v, l, l.after[0], st);
      var u := Unplot(v, l.after[0], st);
      assert MovedRight(l).Text() == l.Text();
      PlotAgrees(Inc(u, Blank(st)), MovedRight(l), st);
    }
  }

  /** The line blanked from its start; of the cursor's cell nothing is known if it was unplotted
      with another character and lies behind the line. */
  lemma EraseCleans(v: View, l: Line, told: Byte, st: Style) returns (hole: int)
    requires Agrees(v, l, st) && 0 <= v.home
    ensures var c := ClearX(Unplot(v, told, st).(at := v.home), |l.Text()|, Blank(st));
            && Clean(c, [], hole, st) && c.home == v.home == c.at && c.cols == v.cols && |c.cells| == |v.cells|
    ensures hole == NO_HOLE || (hole == |l.before| && told != CharAt(l.Text(), |l.before|) && told != 0)
  {
    hide Drawn, Style.Valid, Painted, ClearLoop;
    var j, t := |l.before|, l.Text();
    UnplotCleans(v, l, told, st);
    hole := if told == CharAt(t, j) || (told == 0 && l.after == []) then NO_HOLE else j;
    var u := Unplot(v, told, st).(at := v.home);
    ClearTruncates(u, t, hole, 0, st);
    ClearLoopBlanks(u, |t|, Blank(st));
    hole := if 0 <= hole < |t| then NO_HOLE else hole;
    assert t[..0] == [];
  }

  /** Replacing the line keeps them together, whether the cursor is unplotted with the old
      line's character or already with the new one's; the new line may scroll the screen. */
  lemma ReplaceAgrees(v: View, l: Line, told: Byte, s: seq<Byte>, st: Style)
    requires Agrees(v, l, st) && 0 <= v.home && |s| <= LINE_MAX
    requires told == CharAt(l.Text(), |l.before|) || told == CharAt(s, |l.before|)
    ensures Agrees(ReplaceView(v, l, told, s, st), AtEnd(s), st)
  {
    hide Drawn, Style.Valid, Painted, ClearLoop, PrintStr;
    var hole := EraseCleans(v, l, told, st);
    var c := ClearX(Unplot(v, told, st).(at := v.home), |l.Text()|, Blank(st));
    PrintStrKeepsClean(c, [], hole, s, 0, st);
    assert Over([], 0, s) == s == AtEnd(s).Text();
    PlotAgrees(PrintStr(c, s, st), AtEnd(s), st);
  }
}
