/** The input line and its history as values: a line is the text before and after the cursor,
    the history the commands entered before, latest first. */
module LineEditor {
  import opened CString

  const LINE_MAX := 255
  const HISTORY_MAX := 24

  datatype Line = Line(before: seq<Byte>, after: seq<Byte>) {
    function Text(): seq<Byte> { before + after }
  }

  /** `saved` is the line put aside when leaving it for the history, `curr` the history entry
      that is shown, 0 for none. */
  datatype Edit = Edit(line: Line, history: seq<seq<Byte>>, saved: seq<Byte>, curr: nat)

  datatype Key = Printable(ch: Byte) | Left | Right | Up | Down | Backspace | Enter

  ghost predicate TextOk(s: seq<Byte>) {
    |s| <= LINE_MAX && forall i | 0 <= i < |s| :: s[i] != 0
  }

  ghost predicate EditOk(e: Edit) {
    && TextOk(e.line.Text()) && TextOk(e.saved)
    && |e.history| <= HISTORY_MAX && e.curr <= |e.history|
    && forall i | 0 <= i < |e.history| :: TextOk(e.history[i]) && e.history[i] != []
  }

  // ----- single keys

  function Insert(l: Line, ch: Byte): Line {
    if |l.Text()| == LINE_MAX then l else Line(l.before + [ch], l.after)
  }

  function Deleted(l: Line): Line {
    if l.before == [] then l else Line(l.before[..|l.before| - 1], l.after)
  }

  function MovedLeft(l: Line): Line {
    if l.before == [] then l
    else Line(l.before[..|l.before| - 1], [l.before[|l.before| - 1]] + l.after)
  }

  function MovedRight(l: Line): Line {
    if l.after == [] then l else Line(l.before + [l.after[0]], l.after[1..])
  }

  function AtEnd(s: seq<Byte>): Line { Line(s, []) }

  function MovedUp(e: Edit): Edit {
    if e.curr < |e.history| && e.curr < HISTORY_MAX
    then Edit(AtEnd(e.history[e.curr]), e.history, if e.curr == 0 then e.line.Text() else e.saved, e.curr + 1)
    else e
  }

  function MovedDown(e: Edit): Edit {
    if e.curr == 0 || e.curr > |e.history| then e
    else e.(line := AtEnd(if e.curr == 1 then e.saved else e.history[e.curr - 2]), curr := e.curr - 1)
  }

  function Entered(e: Edit): Edit {
    Edit(Line([], []), Recorded(e.history, e.line.Text()), [], 0)
  }

  /** The latest entry comes first; the oldest of too many is lost. */
  function Recorded(history: seq<seq<Byte>>, s: seq<Byte>): seq<seq<Byte>> {
    if s == [] then history else Latest([s] + history)
  }

  function Latest(ss: seq<seq<Byte>>): seq<seq<Byte>> {
    if |ss| <= HISTORY_MAX then ss else ss[..HISTORY_MAX]
  }

  /** A key is pressed or released; the arrows act on both. */
  function Step(e: Edit, k: Key, isBreak: bool): Edit {
    match k
    case Printable(ch) => if isBreak then e else e.(line := Insert(e.line, ch))
    case Backspace => if isBreak then e else e.(line := Deleted(e.line))
    case Enter => if isBreak then e else Entered(e)
    case Left => e.(line := MovedLeft(e.line))
    case Right => e.(line := MovedRight(e.line))
    case Up => MovedUp(e)
    case Down => MovedDown(e)
  }

  lemma StepKeepsOk(e: Edit, k: Key, isBreak: bool)
    requires EditOk(e) && (k.Printable? ==> k.ch != 0)
    ensures EditOk(Step(e, k, isBreak))
  {
    match k
    case Left => if e.line.before != [] { assert MovedLeft(e.line).Text() == e.line.Text(); }
    case Right => if e.line.after != [] { assert MovedRight(e.line).Text() == e.line.Text(); }
    case Printable(ch) => InsertOk(e.line, ch);
    case Backspace => DeletedOk(e.line);
    case _ =>
  }

  lemma InsertOk(l: Line, ch: Byte)
    requires TextOk(l.Text()) && ch != 0
    ensures TextOk(Insert(l, ch).Text())
  {
    if |l.Text()| < LINE_MAX {
      var t := Insert(l, ch).Text();
      assert forall i | 0 <= i < |t| :: t[i] == ch || t[i] in l.Text();
    }
  }

  lemma DeletedOk(l: Line)
    requires TextOk(l.Text())
    ensures TextOk(Deleted(l).Text())
  {
    if l.before != [] {
      var t := Deleted(l).Text();
      assert forall i | 0 <= i < |t| :: t[i] in l.Text();
    }
  }

  /** Backspace takes back the character just typed; left and right undo each other. */
  lemma KeysUndo(l: Line, ch: Byte)
    ensures |l.Text()| < LINE_MAX ==> Deleted(Insert(l, ch)) == l
    ensures MovedRight(MovedLeft(l)) == l <==> l.before != [] || l.after == []
    ensures MovedLeft(MovedRight(l)) == l <==> l.after != [] || l.before == []
  {
    assert (l.before + [ch])[..|l.before|] == l.before;
    if l.before != [] {
      var n := |l.before|;
      assert l.before[..n - 1] + [l.before[n - 1]] == l.before;
      assert MovedLeft(l).after[1..] == l.after;
    }
    if l.after != [] {
      assert [l.after[0]] + l.after[1..] == l.after;
      assert (l.before + [l.after[0]])[..|l.before|] == l.before;
    }
  }

  // ----- histories

  datatype Event = Event(key: Key, isBreak: bool)

  function Run(e: Edit, evs: seq<Event>): Edit
    decreases |evs|
  {
    if evs == [] then e else Run(Step(e, evs[0].key, evs[0].isBreak), evs[1..])
  }

  /** The non-empty lines that a run of keys submits, latest first. */
  function Submitted(e: Edit, evs: seq<Event>): seq<seq<Byte>>
    decreases |evs|
  {
    if evs == [] then []
    else
      var later := Submitted(Step(e, evs[0].key, evs[0].isBreak), evs[1..]);
      if evs[0] == Event(Enter, false) && e.line.Text() != [] then later + [e.line.Text()] else later
  }

  lemma LatestTwice(a: seq<seq<Byte>>, b: seq<seq<Byte>>)
    ensures Latest(a + Latest(b)) == Latest(a + b)
  {
  }

  /** After any run of keys, the history is what was submitted, latest first, on top of the
      history before: entry i is the i-th most recent non-empty line. */
  lemma {:induction false} HistoryIsSubmitted(e: Edit, evs: seq<Event>)
    requires |e.history| <= HISTORY_MAX
    ensures Run(e, evs).history == Latest(Submitted(e, evs) + e.history)
    decreases |evs|
  {
    if evs == [] {
      assert [] + e.history == e.history;
    } else {
      var e', later := Step(e, evs[0].key, evs[0].isBreak), evs[1..];
      HistoryIsSubmitted(e', later);
      if evs[0] == Event(Enter, false) && e.line.Text() != [] {
        var s := [e.line.Text()];
        LatestTwice(Submitted(e', later), s + e.history);
        assert Submitted(e', later) + (s + e.history) == (Submitted(e', later) + s) + e.history;
      }
    }
  }

  /** The keys stay within the history and submit nothing. */
  ghost predicate Browses(e: Edit, evs: seq<Event>)
    decreases |evs|
  {
    e.curr > 0 && (evs == [] || (evs[0] != Event(Enter, false)
                                 && Browses(Step(e, evs[0].key, evs[0].isBreak), evs[1..])))
  }

  lemma {:induction false} BrowsingKeepsSaved(e: Edit, evs: seq<Event>)
    requires Browses(e, evs)
    ensures Run(e, evs).saved == e.saved && Run(e, evs).history == e.history && Run(e, evs).curr > 0
    decreases |evs|
  {
    if evs != [] { BrowsingKeepsSaved(Step(e, evs[0].key, evs[0].isBreak), evs[1..]); }
  }

  /** The Down that returns from the history restores the line that Up left, whatever was
      edited in between. */
  lemma DownRestores(e: Edit, evs: seq<Event>)
    requires e.curr == 0 && 0 < |e.history| <= HISTORY_MAX
    requires Browses(MovedUp(e), evs) && Run(MovedUp(e), evs).curr == 1
    ensures MovedDown(Run(MovedUp(e), evs)).line == AtEnd(e.line.Text())
    ensures MovedDown(Run(MovedUp(e), evs)).curr == 0
  {
    BrowsingKeepsSaved(MovedUp(e), evs);
  }

  /** Pressing and releasing an arrow key moves twice: by exactly one character iff there is
      just one to pass. */
  lemma ArrowActsTwice(e: Edit)
    ensures var l := Run(e, [Event(Left, false), Event(Left, true)]).line;
            && l == MovedLeft(MovedLeft(e.line))
            && (|l.before| + 1 == |e.line.before| <==> |e.line.before| == 1)
    ensures var l := Run(e, [Event(Right, false), Event(Right, true)]).line;
            && l == MovedRight(MovedRight(e.line))
            && (|l.after| + 1 == |e.line.after| <==> |e.line.after| == 1)
  {
    TwoEvents(e, Left);
    TwoEvents(e, Right);
  }

  lemma TwoEvents(e: Edit, k: Key)
    ensures Run(e, [Event(k, false), Event(k, true)]) == Step(Step(e, k, false), k, true)
  {
    var evs := [Event(k, false), Event(k, true)];
    assert evs[1..] == [evs[1]] && evs[1..][1..] == [];
    assert Run(e, evs) == Run(Step(e, k, false), evs[1..]) == Run(Step(Step(e, k, false), k, true), []);
  }
}
