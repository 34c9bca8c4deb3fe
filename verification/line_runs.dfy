/** Enter on the screen, and whole runs of keys. */
module LineRuns {
  import opened CString
  import opened LineEditor
  import opened LineScreen
  import TextGrid
  import opened TextScreen
  import opened Wrappers

  /** Rows that prompt and line take up, as an unsigned char. */
  function RowsNeeded(length: nat, cols: nat): nat
    requires 0 < cols
  {
    (length + |PROMPT| + (cols - 1)) / cols % 256
  }

  /** The row behind an input line of that length. */
  function RowBehind(v: View, length: nat): (r: nat)
    requires v.Valid() && 0 <= v.home
  {
    v.home / v.cols + RowsNeeded(length, v.cols)
  }

  /** The cursor unplotted, and moved to the row behind the input line. */
  function BehindLine(v: View, l: Line, st: Style): (w: View)
    requires ViewOk(v, st) && 0 <= v.home
    ensures w.Valid()
  {
    var u := Unplot(v, CharAt(l.after, 0), st);
    ToRow(u, RowBehind(u, |l.Text()|), Blank(st))
  }

  /** The shell's output and, on the row behind that, a new prompt. */
  function OutputAndPrompt(v: View, out: seq<Byte>, st: Style): View
    requires v.Valid() && st.Valid()
  {
    var a := PrintStr(v, out, st);
    Prompted(ToRow(a, a.at / a.cols + 1, Blank(st)), st)
  }

  function EnterView(v: View, l: Line, out: seq<Byte>, st: Style): View
    requires ViewOk(v, st) && 0 <= v.home
  {
    OutputAndPrompt(BehindLine(v, l, st), out, st)
  }

  /** The prompt, and an empty line behind it. */
  function Prompted(v: View, st: Style): View
    requires v.Valid() && st.Valid()
  {
    var b := PrintStr(v, PROMPT, st);
    Plot(b.(home := b.at), 0, st)
  }

  /** All cells from the cursor on are blank. */
  ghost predicate Tail(v: View, st: Style) {
    Clean(v.(home := v.at), [], NO_HOLE, st)
  }

  /** Printing does not depend on where the input line is. */
  lemma {:induction false} HomeMovesAlong(v: View, h: int, s: seq<Byte>, st: Style)
    requires v.Valid() && st.Valid()
    ensures var w := PrintStr(v, s, st);
            PrintStr(v.(home := h), s, st) == w.(home := h + (w.home - v.home))
    decreases |s|
  {
    hide Style.Valid, Drawn;
    if s != [] {
      var c, blank := Drawn(st, s[0], st.paper), Drawn(st, 0, st.paper);
      var w := Inc(Put(v, c), blank);
      assert Inc(Put(v.(home := h), c), blank) == w.(home := h + (w.home - v.home));
      HomeMovesAlong(w, h + (w.home - v.home), s[1..], st);
    }
  }

  /** Printing from a cursor with only blanks behind it leaves such a cursor. */
  lemma PrintKeepsTail(v: View, s: seq<Byte>, st: Style)
    requires ViewOk(v, st) && Tail(v, st)
    ensures ViewOk(PrintStr(v, s, st), st) && Tail(PrintStr(v, s, st), st)
    ensures |PrintStr(v, s, st).cells| == |v.cells| && PrintStr(v, s, st).cols == v.cols
    ensures PrintStr(v, s, st).at % v.cols == (v.at % v.cols + |s|) % v.cols
  {
    hide Drawn, Style.Valid, PrintStr;
    var c := v.(home := v.at);
    PrintStrKeepsClean(c, [], NO_HOLE, s, 0, st);
    HomeMovesAlong(v, v.at, s, st);
    var w := PrintStr(c, s, st);
    assert Over([], 0, s) == s;
    ModOfSum(w.home, v.at, |s|, v.cols);
  }

  lemma ModOfSum(h: int, a: int, n: nat, c: nat)
    requires 0 < c && h % c == a % c
    ensures (h + n) % c == (a % c + n) % c
  {
    var q, r := h / c, (a % c + n) / c;
    assert h + n == c * q + (a % c + n) == c * (q + r) + (a % c + n) % c;
    TextGrid.DivModIs(c, q + r, (a % c + n) % c);
  }

  /** The start of a row behind everything on the screen, or of the row that a scroll blanks. */
  lemma ToRowHasTail(v: View, r: nat, from: nat, st: Style)
    requires ViewOk(v, st) && Clean(v.(home := from), [], NO_HOLE, st) && from <= v.cols * r
    ensures var w := ToRow(v, r, Blank(st));
            && ViewOk(w, st) && Tail(w, st) && w.at % w.cols == 0
            && |w.cells| == |v.cells| && w.cols == v.cols
  {
    hide Drawn, Style.Valid;
    if v.cols * r < |v.cells| {
      TextGrid.DivModIs(v.cols, r, 0);
    } else {
      ModStays(|v.cells|, v.cols);
    }
  }

  lemma NextRowIsBehind(at: nat, cols: nat)
    requires 0 < cols
    ensures at < cols * (at / cols + 1)
  {
    assert at == cols * (at / cols) + at % cols;
    assert cols * (at / cols + 1) == cols * (at / cols) + cols;
  }

  lemma RowsNeededReach(home: nat, length: nat, cols: nat)
    requires 0 < cols && home % cols == |PROMPT| % cols
    requires (length + |PROMPT| + (cols - 1)) / cols < 256
    ensures home + length <= cols * (home / cols + RowsNeeded(length, cols))
  {
    var n := length + |PROMPT| + (cols - 1);
    assert n == cols * (n / cols) + n % cols;
    assert cols * (home / cols + n / cols) == cols * (home / cols) + cols * (n / cols);
    assert home == cols * (home / cols) + home % cols;
    assert |PROMPT| == cols * (|PROMPT| / cols) + |PROMPT| % cols;
    TextGrid.MulMono(0, |PROMPT| / cols, cols);
  }

  /** The first row that lies wholly behind `end` cells. */
  function FirstRowBehind(end: nat, cols: nat): (r: nat)
    requires 0 < cols
    ensures cols * (r - 1) < end <= cols * r
  {
    RoundsUp(end, cols);
    (end + (cols - 1)) / cols
  }

  lemma RoundsUp(end: nat, cols: nat)
    requires 0 < cols
    ensures var r := (end + (cols - 1)) / cols; 0 <= r && cols * (r - 1) < end <= cols * r
  {
    var n := end + (cols - 1);
    assert n == cols * (n / cols) + n % cols;
    assert cols * (n / cols - 1) == cols * (n / cols) - cols;
  }

  /** The row that is computed is the first one wholly behind the line, and as many rows further
      as the prompt fills: for a prompt shorter than a row exactly that first one. */
  lemma RowsNeededIs(home: nat, length: nat, cols: nat)
    requires 0 < cols && home % cols == |PROMPT| % cols
    requires (length + |PROMPT| + (cols - 1)) / cols < 256
    ensures home / cols + RowsNeeded(length, cols) == FirstRowBehind(home + length, cols) + |PROMPT| / cols
    ensures home / cols + RowsNeeded(length, cols) == FirstRowBehind(home + length, cols) <==> |PROMPT| < cols
  {
    hide FirstRowBehind, RowsNeeded;
    var x := |PROMPT| % cols + length;
    RowsUpTo(length, cols);
    Divides(home, cols);
    Divides(|PROMPT|, cols);
    RowsLater(home + length, home / cols, x, cols);
    RowsLater(length + |PROMPT|, |PROMPT| / cols, x, cols);
    PromptRows(cols);
  }

  lemma RowsUpTo(length: nat, cols: nat)
    requires 0 < cols && (length + |PROMPT| + (cols - 1)) / cols < 256
    ensures RowsNeeded(length, cols) == FirstRowBehind(length + |PROMPT|, cols)
  {
  }

  lemma Divides(n: nat, d: nat)
    requires 0 < d
    ensures n == d * (n / d) + n % d && 0 <= n / d
  {
  }

  lemma RowsLater(end: nat, a: nat, x: nat, cols: nat)
    requires 0 < cols && end == cols * a + x
    ensures FirstRowBehind(end, cols) == a + FirstRowBehind(x, cols)
  {
    var n := x + (cols - 1);
    assert end + (cols - 1) == cols * (a + n / cols) + n % cols;
    TextGrid.DivModIs(cols, a + n / cols, n % cols);
  }

  lemma PromptRows(cols: nat)
    requires 0 < cols
    ensures |PROMPT| / cols == 0 <==> |PROMPT| < cols
  {
    assert |PROMPT| == cols * (|PROMPT| / cols) + |PROMPT| % cols;
    if |PROMPT| < cols { TextGrid.DivModIs(cols, 0, |PROMPT|); }
  }

  /** A prompt at the start of a row with only blanks behind it. */
  lemma PromptedAgrees(v: View, st: Style)
    requires ViewOk(v, st) && Tail(v, st) && v.at % v.cols == 0
    ensures Agrees(Prompted(v, st), Line([], []), st)
  {
    hide Drawn, Style.Valid, Painted, PrintStr;
    PrintKeepsTail(v, PROMPT, st);
    var b := PrintStr(v, PROMPT, st);
    PlotAgrees(b.(home := b.at), Line([], []), st);
  }

  /** A blank screen gets its first prompt at the top left corner. */
  lemma StartAgrees(v: View, st: Style)
    requires ViewOk(v, st) && v.at == 0 && forall p | 0 <= p < |v.cells| :: v.cells[p] == Blank(st)
    ensures Agrees(Prompted(v, st), Line([], []), st)
  {
    PromptedAgrees(v, st);
  }

  lemma BehindLineHasTail(v: View, l: Line, st: Style)
    requires Agrees(v, l, st) && 0 <= v.home
    requires (|l.Text()| + |PROMPT| + (v.cols - 1)) / v.cols < 256
    ensures ViewOk(BehindLine(v, l, st), st) && Tail(BehindLine(v, l, st), st)
  {
    hide Drawn, Style.Valid, Painted, ToRow, RowsNeeded;
    UnplotCleans(v, l, CharAt(l.after, 0), st);
    var u := Unplot(v, CharAt(l.after, 0), st);
    RowsNeededReach(v.home, |l.Text()|, v.cols);
    EndHasTail(u, l.Text(), st);
    ToRowHasTail(u, RowBehind(u, |l.Text()|), v.home + |l.Text()|, st);
  }

  lemma OutputAndPromptAgrees(v: View, out: seq<Byte>, st: Style)
    requires ViewOk(v, st) && Tail(v, st)
    ensures Agrees(OutputAndPrompt(v, out, st), Line([], []), st)
  {
    hide Drawn, Style.Valid, PrintStr, ToRow, Prompted, Agrees;
    PrintKeepsTail(v, out, st);
    var a := PrintStr(v, out, st);
    NextRowIsBehind(a.at, a.cols);
    ToRowHasTail(a, a.at / a.cols + 1, a.at, st);
    PromptedAgrees(ToRow(a, a.at / a.cols + 1, Blank(st)), st);
  }

  /** After Enter and whatever the shell prints, the screen shows an empty line behind a new
      prompt. */
  lemma EnterAgrees(v: View, l: Line, out: seq<Byte>, st: Style)
    requires Agrees(v, l, st) && 0 <= v.home
    requires (|l.Text()| + |PROMPT| + (v.cols - 1)) / v.cols < 256
    ensures Agrees(EnterView(v, l, out, st), Line([], []), st)
  {
    hide BehindLine, OutputAndPrompt;
    BehindLineHasTail(v, l, st);
    OutputAndPromptAgrees(BehindLine(v, l, st), out, st);
  }

  lemma EndHasTail(v: View, text: seq<Byte>, st: Style)
    requires Clean(v, text, NO_HOLE, st)
    ensures Clean(v.(home := v.home + |text|), [], NO_HOLE, st)
  {
    hide Drawn, Style.Valid;
  }

  // ----- runs of keys

  /** What a key does to the screen; `out` is what the shell prints if it is Enter. */
  function KeyView(v: View, e: Edit, k: Key, isBreak: bool, out: seq<Byte>, st: Style): View
    requires ViewOk(v, st) && KeyFits(v, e, k, isBreak)
  {
    var l := e.line;
    match k
    case Printable(ch) => if isBreak || |l.Text()| == LINE_MAX then v else InsertView(v, l, ch, st)
    case Backspace => if isBreak then v else DeleteView(v, l, st)
    case Enter => if isBreak then v else EnterView(v, l, out, st)
    case Left => LeftView(v, l, st)
    case Right => RightView(v, l, st)
    case Up =>
      if e.curr < |e.history| && e.curr < HISTORY_MAX
      then ReplaceView(v, l, CharAt(l.after, 0), e.history[e.curr], st) else v
    case Down =>
      if e.curr == 0 || e.curr > |e.history| then v
      else if e.curr == 1 then ReplaceView(v, l, CharAt(e.saved, |l.before|), e.saved, st)
      else ReplaceView(v, l, CharAt(l.after, 0), e.history[e.curr - 2], st)
  }

  /** The conditions under which a key leaves screen and line together: an insertion within the
      line does not overflow the screen, the cursor does not move left off the screen, and a
      line that is replaced or entered begins on the screen. */
  predicate KeyFits(v: View, e: Edit, k: Key, isBreak: bool) {
    match k
    case Printable(ch) =>
      isBreak || e.line.after == [] || |e.line.Text()| == LINE_MAX || v.home + |e.line.Text()| + 1 < |v.cells|
    case Backspace => isBreak || e.line.before == [] || v.at > 0
    case Left => e.line.before == [] || v.at > 0
    case Right => true
    case Up => e.curr >= |e.history| || 0 <= v.home < |v.cells|
    case Down => e.curr == 0 || 0 <= v.home < |v.cells|
    case Enter =>
      isBreak || (0 <= v.home && 0 < v.cols && (|e.line.Text()| + |PROMPT| + (v.cols - 1)) / v.cols < 256)
  }

  /** While the line with one more character fits on the screen, every key but Enter fits. */
  lemma EditingFits(v: View, e: Edit, k: Key, isBreak: bool, st: Style)
    requires Agrees(v, e.line, st) && 0 <= v.home && v.home + |e.line.Text()| + 1 < |v.cells|
    requires k != Enter
    ensures KeyFits(v, e, k, isBreak)
  {
    hide Drawn, Style.Valid;
  }

  lemma KeyKeepsAgreement(v: View, e: Edit, k: Key, isBreak: bool, out: seq<Byte>, st: Style)
    requires EditOk(e) && Agrees(v, e.line, st) && KeyFits(v, e, k, isBreak)
    ensures Agrees(KeyView(v, e, k, isBreak, out, st), Step(e, k, isBreak).line, st)
  {
    hide Agrees, ViewOk, InsertView, DeleteView, LeftView, RightView, ReplaceView, EnterView;
    var l := e.line;
    match k
    case Printable(ch) =>
      if !isBreak && |l.Text()| < LINE_MAX {
        if l.after == [] { InsertAtEndAgrees(v, l, ch, st); } else { InsertWithinAgreesIff(v, l, ch, st); }
      }
    case Backspace => DeleteAgreesIff(v, l, st);
    case Enter => if !isBreak { EnterAgrees(v, l, out, st); }
    case Left => LeftAgreesIff(v, l, st);
    case Right => RightAgrees(v, l, st);
    case Up => if e.curr < |e.history| { ReplaceAgrees(v, l, CharAt(l.after, 0), e.history[e.curr], st); }
    case Down =>
      if e.curr == 1 {
        ReplaceAgrees(v, l, CharAt(e.saved, |l.before|), e.saved, st);
      } else if e.curr > 1 {
        ReplaceAgrees(v, l, CharAt(l.after, 0), e.history[e.curr - 2], st);
      }
  }

  datatype Input = Input(key: Key, isBreak: bool, out: seq<Byte>)

  /** Every key of a run is a character other than NUL or a special key, and fits. */
  ghost predicate RunFits(v: View, e: Edit, ins: seq<Input>, st: Style)
    decreases |ins|
  {
    ins == [] || (var i := ins[0];
      && (i.key.Printable? ==> i.key.ch != 0) && ViewOk(v, st) && KeyFits(v, e, i.key, i.isBreak)
      && RunFits(KeyView(v, e, i.key, i.isBreak, i.out, st), Step(e, i.key, i.isBreak), ins[1..], st))
  }

  ghost function RunBoth(v: View, e: Edit, ins: seq<Input>, st: Style): (View, Edit)
    requires RunFits(v, e, ins, st)
    decreases |ins|
  {
    if ins == [] then (v, e)
    else
      var i := ins[0];
      RunBoth(KeyView(v, e, i.key, i.isBreak, i.out, st), Step(e, i.key, i.isBreak), ins[1..], st)
  }

  /** Over every such run the screen, updated key by key, goes on showing the line. */
  lemma {:induction false} RunKeepsAgreement(v: View, e: Edit, ins: seq<Input>, st: Style)
    requires EditOk(e) && Agrees(v, e.line, st) && RunFits(v, e, ins, st)
    ensures var (v', e') := RunBoth(v, e, ins, st); EditOk(e') && Agrees(v', e'.line, st)
    decreases |ins|
  {
    hide Agrees, KeyView, Step, EditOk, KeyFits, ViewOk;
    if ins != [] {
      var i := ins[0];
      KeyKeepsAgreement(v, e, i.key, i.isBreak, i.out, st);
      StepKeepsOk(e, i.key, i.isBreak);
      RunKeepsAgreement(KeyView(v, e, i.key, i.isBreak, i.out, st), Step(e, i.key, i.isBreak), ins[1..], st);
    }
  }
}
