/** A screen with room for two rows more than the longest prompt and line: there the line's
    start never scrolls off, and one kind of key apart every key may be pressed at any time. */
module RoomyScreen {
  import opened CString
  import opened LineEditor
  import opened LineScreen
  import opened LineRuns
  import opened TextScreen

  predicate Roomy(v: View) {
    v.cols >= 2 && |v.cells| >= LINE_MAX + 1 + v.cols
  }

  /** A character typed within a line that fills the screen to its last cell. */
  predicate Overflows(v: View, e: Edit, k: Key, isBreak: bool) {
    k.Printable? && !isBreak && e.line.after != [] && |e.line.Text()| < LINE_MAX
    && v.home + |e.line.Text()| + 1 >= |v.cells|
  }

  /** Every other key meets its condition. */
  lemma RoomyKeyFitsIff(v: View, e: Edit, k: Key, isBreak: bool, st: Style)
    requires EditOk(e) && Agrees(v, e.line, st) && Roomy(v) && 0 <= v.home
    ensures KeyFits(v, e, k, isBreak) <==> !Overflows(v, e, k, isBreak)
  {
    hide Drawn, Style.Valid;
    FewRows(|e.line.Text()|, v.cols);
  }

  lemma FewRows(length: nat, cols: nat)
    requires length <= LINE_MAX && 2 <= cols
    ensures (length + |PROMPT| + (cols - 1)) / cols < 256
  {
    var n := length + |PROMPT| + (cols - 1);
    assert n == cols * (n / cols) + n % cols;
    if n / cols >= 256 { AtLeastDouble(n / cols, cols); }
  }

  lemma AtLeastDouble(q: nat, cols: nat)
    requires 2 <= cols && 256 <= q
    ensures cols * q >= LINE_MAX + |PROMPT| + cols
  {
    assert cols * q == cols * 256 + cols * (q - 256);
    assert cols * (q - 256) >= 0;
  }

  lemma AgreesIsOk(v: View, l: Line, st: Style)
    requires Agrees(v, l, st)
    ensures ViewOk(v, st)
  {
  }

  // ----- where the line's start is afterwards

  /** The screen did not scroll, or the cursor is in its last row. */
  ghost predicate StaysOrBottom(v: View, w: View) {
    w.cols == v.cols && |w.cells| == |v.cells| && (w.home == v.home || w.at + v.cols >= |v.cells|)
  }

  lemma {:induction false} PrintStrStays(v: View, s: seq<Byte>, st: Style)
    requires v.Valid() && st.Valid()
    ensures StaysOrBottom(v, PrintStr(v, s, st))
    ensures PrintStr(v, s, st).home == v.home ==> PrintStr(v, s, st).at == v.at + |s|
    ensures PrintStr(v, s, st).home <= v.home
    ensures v.at + |s| < |v.cells| ==> PrintStr(v, s, st).home == v.home
    decreases |s|
  {
    hide Style.Valid, Drawn;
    if s != [] {
      PrintStrStays(Inc(Put(v, Drawn(st, s[0], st.paper)), Drawn(st, 0, st.paper)), s[1..], st);
    }
  }

  lemma InsertStays(v: View, l: Line, ch: Byte, st: Style)
    requires Agrees(v, l, st) && |l.Text()| < LINE_MAX
    requires l.after == [] || v.home + |l.Text()| + 1 < |v.cells|
    ensures StaysOrBottom(v, InsertView(v, l, ch, st))
  {
    hide Style.Valid, Drawn, PrintStr, Painted;
    if l.after != [] {
      PrintStrStays(Inc(Unplot(v, l.after[0], st), Blank(st)), l.after, st);
    }
  }

  lemma DeleteStays(v: View, l: Line, st: Style)
    requires Agrees(v, l, st)
    ensures StaysOrBottom(v, DeleteView(v, l, st))
  {
    hide Style.Valid, Drawn, PrintStr, Painted, ClearLoop;
    if l.before != [] && l.after != [] {
      var u := Unplot(v, l.after[0], st);
      ClearLoopBlanks(u, |l.after|, Blank(st));
      if v.at > 0 { PrintStrStays(Dec(ClearX(u, |l.after|, Blank(st))), l.after, st); }
      else { PrintStrStays(ClearX(u, |l.after|, Blank(st)), l.after, st); }
    }
  }

  lemma ReplaceStays(v: View, l: Line, told: Byte, s: seq<Byte>, st: Style)
    requires Agrees(v, l, st) && 0 <= v.home
    ensures StaysOrBottom(v, ReplaceView(v, l, told, s, st))
  {
    hide Style.Valid, Drawn, PrintStr, Painted, ClearLoop;
    var u := Unplot(v, told, st).(at := v.home);
    ClearLoopBlanks(u, |l.Text()|, Blank(st));
    PrintStrStays(ClearX(u, |l.Text()|, Blank(st)), s, st);
  }

  lemma {:induction false} PrintStrKeepsSize(v: View, s: seq<Byte>, st: Style)
    requires v.Valid() && st.Valid()
    ensures PrintStr(v, s, st).cols == v.cols && |PrintStr(v, s, st).cells| == |v.cells|
  {
    PrintStrStays(v, s, st);
  }

  /** Behind Enter the line starts where the new prompt ends. */
  lemma EnterStarts(v: View, l: Line, out: seq<Byte>, st: Style)
    requires Agrees(v, l, st) && 0 <= v.home
    ensures var w := EnterView(v, l, out, st); 0 <= w.home && w.cols == v.cols && |w.cells| == |v.cells|
  {
    hide Style.Valid, Drawn, PrintStr, Painted, RowBehind;
    var b := BehindLine(v, l, st);
    PrintStrKeepsSize(b, out, st);
    var a := PrintStr(b, out, st);
    PrintStrKeepsSize(ToRow(a, a.at / a.cols + 1, Blank(st)), PROMPT, st);
  }

  /** A key that meets its condition keeps the screen showing the line, and the line's start on
      the screen. */
  lemma RoomyKeyKeeps(v: View, e: Edit, k: Key, isBreak: bool, out: seq<Byte>, st: Style)
    requires EditOk(e) && Agrees(v, e.line, st) && Roomy(v) && 0 <= v.home
    requires (k.Printable? ==> k.ch != 0) && KeyFits(v, e, k, isBreak)
    ensures var w := KeyView(v, e, k, isBreak, out, st);
            Agrees(w, Step(e, k, isBreak).line, st) && Roomy(w) && 0 <= w.home
  {
    hide Agrees, EditOk, ViewOk, InsertView, DeleteView, LeftView, RightView, ReplaceView, EnterView, Step;
    AgreesIsOk(v, e.line, st);
    var w, e' := KeyView(v, e, k, isBreak, out, st), Step(e, k, isBreak);
    KeyKeepsAgreement(v, e, k, isBreak, out, st);
    StepKeepsOk(e, k, isBreak);
    if k == Enter && !isBreak {
      EnterStarts(v, e.line, out, st);
    } else {
      KeyStays(v, e, k, isBreak, out, st);
      StartIsOnScreen(v, w, e', st);
    }
  }

  lemma KeyStays(v: View, e: Edit, k: Key, isBreak: bool, out: seq<Byte>, st: Style)
    requires EditOk(e) && Agrees(v, e.line, st) && 0 <= v.home && KeyFits(v, e, k, isBreak)
    requires k != Enter || isBreak
    ensures StaysOrBottom(v, KeyView(v, e, k, isBreak, out, st))
  {
    hide Agrees, EditOk, InsertView, DeleteView, LeftView, RightView, ReplaceView, EnterView;
    var l := e.line;
    match k
    case Printable(ch) =>
      if !isBreak && |l.Text()| != LINE_MAX {
        TextIsShort(e);
        InsertStays(v, l, ch, st);
      }
    case Backspace => DeleteStays(v, l, st);
    case Enter =>
    case Left => LeftStays(v, l, st);
    case Right => RightStays(v, l, st);
    case Up =>
      if e.curr < |e.history| && e.curr < HISTORY_MAX { ReplaceStays(v, l, CharAt(l.after, 0), e.history[e.curr], st); }
    case Down =>
      if 0 < e.curr <= |e.history| {
        if e.curr == 1 { ReplaceStays(v, l, CharAt(e.saved, |l.before|), e.saved, st); }
        else { ReplaceStays(v, l, CharAt(l.after, 0), e.history[e.curr - 2], st); }
      }
  }

  lemma TextIsShort(e: Edit)
    requires EditOk(e)
    ensures |e.line.Text()| <= LINE_MAX
  {
  }

  lemma LeftStays(v: View, l: Line, st: Style)
    requires Agrees(v, l, st)
    ensures StaysOrBottom(v, LeftView(v, l, st))
  {
    hide Style.Valid, Drawn, Painted;
  }

  lemma RightStays(v: View, l: Line, st: Style)
    requires Agrees(v, l, st)
    ensures StaysOrBottom(v, RightView(v, l, st))
  {
    hide Style.Valid, Drawn, Painted;
  }

  /** In the last row the cursor is further from the top than any line is long. */
  lemma StartIsOnScreen(v: View, w: View, e: Edit, st: Style)
    requires Roomy(v) && 0 <= v.home && StaysOrBottom(v, w) && EditOk(e) && Agrees(w, e.line, st)
    ensures Roomy(w) && 0 <= w.home
  {
    hide Style.Valid, Drawn;
  }

  // ----- runs

  /** No key of the run is NUL or types a character within a line that fills the screen. */
  ghost predicate NoOverflow(v: View, e: Edit, ins: seq<Input>, st: Style)
    decreases |ins|
  {
    ins == [] || (var i := ins[0];
      && (i.key.Printable? ==> i.key.ch != 0) && !Overflows(v, e, i.key, i.isBreak)
      && (ViewOk(v, st) && KeyFits(v, e, i.key, i.isBreak) ==>
            NoOverflow(KeyView(v, e, i.key, i.isBreak, i.out, st), Step(e, i.key, i.isBreak), ins[1..], st)))
  }

  /** On a roomy screen the conditions of a run come down to that one, and throughout the run
      the screen shows the line from its first character on. */
  lemma {:induction false} RoomyRun(v: View, e: Edit, ins: seq<Input>, st: Style)
    requires EditOk(e) && Agrees(v, e.line, st) && Roomy(v) && 0 <= v.home
    ensures RunFits(v, e, ins, st) <==> NoOverflow(v, e, ins, st)
    ensures RunFits(v, e, ins, st) ==>
              var (v', e') := RunBoth(v, e, ins, st); EditOk(e') && Agrees(v', e'.line, st) && 0 <= v'.home
    decreases |ins|
  {
    hide Agrees, KeyView, Step, EditOk, KeyFits, Overflows, Roomy;
    if ins != [] {
      var i := ins[0];
      RoomyKeyFitsIff(v, e, i.key, i.isBreak, st);
      AgreesIsOk(v, e.line, st);
      if (i.key.Printable? ==> i.key.ch != 0) && KeyFits(v, e, i.key, i.isBreak) {
        RoomyKeyKeeps(v, e, i.key, i.isBreak, i.out, st);
        StepKeepsOk(e, i.key, i.isBreak);
        RoomyRun(KeyView(v, e, i.key, i.isBreak, i.out, st), Step(e, i.key, i.isBreak), ins[1..], st);
      }
    }
  }
}
