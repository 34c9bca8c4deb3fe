/** What the keys bring back: typing, submitting and going through the history, over whole runs. */
module LineRecall {
  import opened CString
  import opened LineEditor

  function Times(k: Key, n: nat): (evs: seq<Event>)
    ensures |evs| == n
  {
    if n == 0 then [] else Times(k, n - 1) + [Event(k, false)]
  }

  /** Each character's key pressed and released. */
  function Typed(s: seq<Byte>): seq<Event> {
    if s == [] then [] else [Event(Printable(s[0]), false), Event(Printable(s[0]), true)] + Typed(s[1..])
  }

  lemma {:induction false} RunJoins(e: Edit, a: seq<Event>, b: seq<Event>)
    ensures Run(e, a + b) == Run(Run(e, a), b)
    decreases |a|
  {
    hide Step;
    if a == [] {
      assert a + b == b;
    } else {
      assert (a + b)[1..] == a[1..] + b;
      RunJoins(Step(e, a[0].key, a[0].isBreak), a[1..], b);
    }
  }

  lemma RunOne(e: Edit, ev: Event)
    ensures Run(e, [ev]) == Step(e, ev.key, ev.isBreak)
  {
    hide Step;
    assert [ev][1..] == [];
  }

  lemma Times1(e: Edit, k: Key, n: nat)
    requires n > 0
    ensures Run(e, Times(k, n)) == Step(Run(e, Times(k, n - 1)), k, false)
  {
    hide Step;
    RunJoins(e, Times(k, n - 1), [Event(k, false)]);
    RunOne(Run(e, Times(k, n - 1)), Event(k, false));
  }

  // ----- typing

  /** The line takes what is typed at the cursor until it holds 255 characters; the rest is
      ignored, and so is every release. */
  lemma {:induction false} TypingInserts(e: Edit, s: seq<Byte>)
    requires |e.line.Text()| <= 255
    ensures var room := 255 - |e.line.Text()|;
            Run(e, Typed(s))
            == e.(line := Line(e.line.before + (if |s| <= room then s else s[..room]), e.line.after))
    decreases |s|
  {
    if s == [] {
      assert e.line.before + s == e.line.before;
    } else {
      var one := [Event(Printable(s[0]), false), Event(Printable(s[0]), true)];
      RunJoins(e, one, Typed(s[1..]));
      TwoEvents(e, Printable(s[0]));
      var e1 := Step(e, Printable(s[0]), false);
      TypingInserts(e1, s[1..]);
      if |e.line.Text()| < 255 {
        assert e.line.before + [s[0]] + s[1..] == e.line.before + s;
        var room := 255 - |e.line.Text()|;
        if |s| > room { assert [s[0]] + s[1..][..room - 1] == s[..room]; }
      }
    }
  }

  function Erased(n: nat): seq<Event> {
    if n == 0 then [] else Erased(n - 1) + [Event(Backspace, false), Event(Backspace, true)]
  }

  /** As many backspaces as there are characters take back what was typed, and no release of a key
      other than an arrow does anything. */
  lemma {:induction false} ErasingTakesBack(e: Edit, s: seq<Byte>)
    requires |e.line.Text()| + |s| <= 255
    ensures Run(e, Typed(s) + Erased(|s|)) == e
    ensures Step(e, Enter, true) == e
    decreases |s|
  {
    if s == [] {
      assert Typed(s) + Erased(0) == [];
    } else {
      var init, ch := s[..|s| - 1], s[|s| - 1];
      TypingInserts(e, s);
      TypingInserts(e, init);
      RunJoins(e, Typed(s), Erased(|s|));
      RunJoins(e, Typed(init), Erased(|init|));
      ErasingTakesBack(e, init);
      var e1 := Run(e, Typed(s));
      assert e1.line.before[..|e1.line.before| - 1] == e.line.before + init;
      EraseLast(e1, |init|);
      assert Deleted(e1.line) == Run(e, Typed(init)).line;
    }
  }

  /** n+1 backspaces are one and then n. */
  lemma {:induction false} EraseLast(e: Edit, n: nat)
    ensures Run(e, Erased(n + 1)) == Run(e.(line := Deleted(e.line)), Erased(n))
  {
    hide Deleted;
    var two := [Event(Backspace, false), Event(Backspace, true)];
    RunJoins(e, Erased(n), two);
    TwoEvents(Run(e, Erased(n)), Backspace);
    if n > 0 {
      EraseLast(e, n - 1);
      RunJoins(e.(line := Deleted(e.line)), Erased(n - 1), two);
      TwoEvents(Run(e.(line := Deleted(e.line)), Erased(n - 1)), Backspace);
    }
  }

  // ----- up and down

  /** The n-th Up shows entry n and puts the line aside. */
  lemma {:induction false} UpsShow(e: Edit, n: nat)
    requires e.curr == 0 && 0 < n <= |e.history| <= HISTORY_MAX
    ensures Run(e, Times(Up, n)) == Edit(AtEnd(e.history[n - 1]), e.history, e.line.Text(), n)
  {
    Times1(e, Up, n);
    if n > 1 { UpsShow(e, n - 1); }
  }

  /** m Downs take m of the n Ups back. */
  lemma {:induction false} DownsShow(e: Edit, n: nat, m: nat)
    requires e.curr == 0 && 0 < n <= |e.history| <= HISTORY_MAX && m <= n
    ensures Run(e, Times(Up, n) + Times(Down, m))
            == Edit(AtEnd(if m == n then e.line.Text() else e.history[n - m - 1]), e.history, e.line.Text(), n - m)
  {
    RunJoins(e, Times(Up, n), Times(Down, m));
    UpsShow(e, n);
    if m > 0 {
      Times1(Run(e, Times(Up, n)), Down, m);
      DownsShow(e, n, m - 1);
      RunJoins(e, Times(Up, n), Times(Down, m - 1));
    }
  }

  // ----- submitting

  /** Enter leaves the history and an empty line: Down then does nothing, and the first Up shows
      the line just submitted. */
  lemma EnterLeavesHistory(e: Edit)
    requires |e.history| <= HISTORY_MAX
    ensures var e' := Step(e, Enter, false);
            && e'.line == AtEnd([]) && MovedDown(e') == e'
            && (e.line.Text() != [] ==>
                  MovedUp(e').line == AtEnd(e.line.Text()) && MovedDown(MovedUp(e')).line == AtEnd([]))
  {
  }

  lemma AfterEnter(e: Edit, evs: seq<Event>)
    requires |e.history| <= HISTORY_MAX
    ensures var all := evs + [Event(Enter, false)];
            var e1 := Run(e, all);
            e1.curr == 0 && e1.line == AtEnd([]) && e1.history == Latest(Submitted(e, all) + e.history)
  {
    hide MovedUp, MovedDown, Submitted, Latest, Run;
    RunJoins(e, evs, [Event(Enter, false)]);
    RunOne(Run(e, evs), Event(Enter, false));
    HistoryIsSubmitted(e, evs + [Event(Enter, false)]);
  }

  /** After any run that ends in Enter, the n-th Up shows the n-th most recent line submitted, in
      the run or before, and as many Downs lead back to the empty line. */
  lemma UpRecallsSubmitted(e: Edit, evs: seq<Event>, n: nat)
    requires |e.history| <= HISTORY_MAX
    requires var lines := Submitted(e, evs + [Event(Enter, false)]) + e.history; 0 < n <= |lines| && n <= 24
    ensures var all, lines := evs + [Event(Enter, false)], Submitted(e, evs + [Event(Enter, false)]) + e.history;
            && Run(e, all + Times(Up, n)).line == AtEnd(lines[n - 1])
            && Run(e, all + Times(Up, n) + Times(Down, n)).line == AtEnd([])
  {
    hide MovedUp, MovedDown, Run, Submitted, Times;
    var all := evs + [Event(Enter, false)];
    var e1 := Run(e, all);
    AfterEnter(e, evs);
    RunJoins(e, all, Times(Up, n));
    UpsShow(e1, n);
    DownsShow(e1, n, n);
    assert all + Times(Up, n) + Times(Down, n) == all + (Times(Up, n) + Times(Down, n));
    RunJoins(e, all, Times(Up, n) + Times(Down, n));
  }
}
