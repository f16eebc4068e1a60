/*
 * What the event loop of `main` does, on values: each turn draws the path
 * line and the panes, reads one terminal event and applies it to the stack
 * of directory records (the root first, the directory being browsed last).
 */
module Session {
  import opened Types
  import opened Listing
  import opened Display

  datatype KeyCode = Left | Right | Up | Down | Esc | OtherKey
  datatype KeyEventKind = Press | Repeat | Release

  /** A terminal event: a key event (code, whether no modifier is held, kind) or anything else. */
  datatype Event = Key(code: KeyCode, noModifiers: bool, kind: KeyEventKind) | NonKey

  /** What an event asks of the browser. */
  datatype Command = Ascend | Open | CursorUp | CursorDown | Quit | Ignore

  /** The plain key press that asks for `c`. */
  function PressOf(c: Command): (e: Event)
    requires c != Ignore
    ensures Decode(e) == c
  {
    match c
    case Ascend => Key(Left, true, Press)
    case Open => Key(Right, true, Press)
    case CursorUp => Key(Up, true, Press)
    case CursorDown => Key(Down, true, Press)
    case Quit => Key(Esc, true, Press)
  }

  /**
   * The `match` on `read()`: only a press of Left, Right, Up, Down or Esc
   * with no modifier does something; every other event is ignored.
   */
  function Decode(e: Event): (c: Command)
    ensures c != Ignore <==> e.Key? && e.noModifiers && e.kind == Press && e.code != OtherKey
  {
    if e.NonKey? || !e.noModifiers || e.kind != Press then Ignore
    else
      match e.code
      case Left => Ascend
      case Right => Open
      case Up => CursorUp
      case Down => CursorDown
      case Esc => Quit
      case OtherKey => Ignore
  }

  /** Every event that does something is the plain press of its command's key. */
  lemma DecodeInvertsPress(e: Event)
    requires Decode(e) != Ignore
    ensures PressOf(Decode(e)) == e
  {
    assert e.Key? && e.noModifiers && e.kind == Press;
  }

  /**
   * One command applied to the stack: Left pops the last record unless it
   * is the only one, Up and Down move the last record's cursor, and Right,
   * Esc and ignored events leave the stack as it is.
   */
  function Step(stack: seq<Snapshot>, c: Command): (r: seq<Snapshot>)
    requires |stack| >= 1
    ensures 1 <= |r| <= |stack|
  {
    var last := |stack| - 1;
    match c
    case Ascend => if |stack| > 1 then stack[..last] else stack
    case CursorUp => stack[last := stack[last].Prev()]
    case CursorDown => stack[last := stack[last].Next()]
    case _ => stack
  }

  /** Every command keeps a valid stack valid. */
  lemma StepValid(stack: seq<Snapshot>, c: Command)
    requires ValidStack(stack)
    ensures ValidStack(Step(stack, c))
  {
    var r := Step(stack, c);
    var last := |stack| - 1;
    if c == CursorUp || c == CursorDown {
      forall k | 0 <= k < |r|
        ensures r[k].WellFormed()
        ensures k < |r| - 1 ==>
          r[k].selectedIdx < |r[k].contents| && r[k].contents[r[k].selectedIdx].name == r[k + 1].name
      {
        if k < last {
          assert r[k] == stack[k];
          assert r[k + 1].name == stack[k + 1].name;
        }
      }
    } else if c == Ascend && |stack| > 1 {
      forall k | 0 <= k < |r|
        ensures r[k].WellFormed()
        ensures k < |r| - 1 ==>
          r[k].selectedIdx < |r[k].contents| && r[k].contents[r[k].selectedIdx].name == r[k + 1].name
      {
        assert r[k] == stack[k];
        if k < |r| - 1 {
          assert r[k + 1] == stack[k + 1];
        }
      }
    }
  }

  /**
   * A command touches only the last record: every record before it is
   * kept as it was. Left drops the last record unless it is the only one;
   * Up and Down replace it by its `Prev()` and `Next()`, keeping its name
   * and listing; Right, Esc and ignored events change nothing.
   */
  lemma StepTouchesOnlyLast(stack: seq<Snapshot>, c: Command)
    requires |stack| >= 1
    ensures var r := Step(stack, c);
      && (forall k :: 0 <= k < |r| && k < |stack| - 1 ==> r[k] == stack[k])
      && (c != Ascend ==>
            |r| == |stack| && r[|r| - 1].name == stack[|r| - 1].name &&
            r[|r| - 1].contents == stack[|r| - 1].contents)
      && (c == Ascend ==> r == stack[..|r|] && |r| == (if |stack| > 1 then |stack| - 1 else 1))
      && (c == CursorUp ==> r[|r| - 1] == stack[|stack| - 1].Prev())
      && (c == CursorDown ==> r[|r| - 1] == stack[|stack| - 1].Next())
      && (c == Open || c == Quit || c == Ignore ==> r == stack)
  {
    var r := Step(stack, c);
    if c == Ascend && |stack| > 1 {
      assert r == stack[..|stack| - 1];
    }
  }

  /**
   * Going up lands on the directory just left: in a valid stack of two or
   * more records, after Left the new last record's cursor is on the entry
   * named like the record that was popped.
   */
  lemma AscendSelectsChild(stack: seq<Snapshot>)
    requires ValidStack(stack) && |stack| > 1
    ensures var r := Step(stack, Ascend);
      && |r| == |stack| - 1
      && r[|r| - 1].selectedIdx < |r[|r| - 1].contents|
      && r[|r| - 1].contents[r[|r| - 1].selectedIdx].name == stack[|stack| - 1].name
  {
    var r := Step(stack, Ascend);
    assert r[|r| - 1] == stack[|stack| - 2];
  }

  /** Up undoes Down unless Down stopped at the end, and Down undoes Up unless Up stopped at 0. */
  lemma CursorMovesUndo(stack: seq<Snapshot>)
    requires ValidStack(stack)
    ensures stack[|stack| - 1].selectedIdx < |stack[|stack| - 1].contents| ==>
      Step(Step(stack, CursorDown), CursorUp) == stack
    ensures stack[|stack| - 1].selectedIdx > 0 ==>
      Step(Step(stack, CursorUp), CursorDown) == stack
  {
    var last := |stack| - 1;
    var d := stack[last];
    assert d.WellFormed();
    if d.selectedIdx < |d.contents| {
      assert d.Next().Prev() == d;
      assert stack[last := d.Next()][last := d] == stack;
    }
    if d.selectedIdx > 0 {
      assert d.Prev().Next() == d;
      assert stack[last := d.Prev()][last := d] == stack;
    }
  }

  /** How many events the loop handles before Esc ends it (all of them if no Esc comes). */
  function QuitAt(events: seq<Event>): (n: nat)
    ensures n <= |events|
    ensures forall j :: 0 <= j < n ==> Decode(events[j]) != Quit
    ensures n < |events| ==> Decode(events[n]) == Quit
  {
    if events == [] then 0
    else if Decode(events[0]) == Quit then 0
    else QuitAt(events[1..]) + 1
  }

  /** The stack after the loop has handled `events` from `stack`, stopping at the first Esc. */
  function Replay(stack: seq<Snapshot>, events: seq<Event>): (r: seq<Snapshot>)
    requires |stack| >= 1
    ensures 1 <= |r| <= |stack|
    decreases |events|
  {
    if events == [] then stack
    else
      var c := Decode(events[0]);
      if c == Quit then stack else Replay(Step(stack, c), events[1..])
  }

  /** Handling events keeps the stack valid. */
  lemma {:induction false} ReplayValid(stack: seq<Snapshot>, events: seq<Event>)
    requires ValidStack(stack)
    ensures ValidStack(Replay(stack, events))
    decreases |events|
  {
    if events != [] && Decode(events[0]) != Quit {
      StepValid(stack, Decode(events[0]));
      ReplayValid(Step(stack, Decode(events[0])), events[1..]);
    }
  }

  /**
   * No event opens a directory: the stack only loses records from its end,
   * and every record it keeps has its name and listing unchanged, so the
   * root is always the first record.
   */
  lemma {:induction false} ReplayOnlyShrinks(stack: seq<Snapshot>, events: seq<Event>)
    requires |stack| >= 1
    ensures var r := Replay(stack, events);
      forall k :: 0 <= k < |r| ==> r[k].name == stack[k].name && r[k].contents == stack[k].contents
    decreases |events|
  {
    if events != [] && Decode(events[0]) != Quit {
      var c := Decode(events[0]);
      var s := Step(stack, c);
      StepTouchesOnlyLast(stack, c);
      ReplayOnlyShrinks(s, events[1..]);
    }
  }

  /** Nothing after the first Esc has any effect. */
  lemma {:induction false} ReplayStopsAtQuit(stack: seq<Snapshot>, events: seq<Event>)
    requires |stack| >= 1
    ensures Replay(stack, events) == Replay(stack, events[..QuitAt(events)])
    decreases |events|
  {
    if events != [] {
      var c := Decode(events[0]);
      if c == Quit {
        assert events[..QuitAt(events)] == [];
      } else {
        ReplayStopsAtQuit(Step(stack, c), events[1..]);
        assert events[..QuitAt(events)][1..] == events[1..][..QuitAt(events[1..])];
      }
    }
  }

  /** The settings `main` starts from: depth 5, 20 rows, names cut at 20 characters. */
  const MainConfig := Config(0, 5, 20, 20)

  /** A configuration under which drawing any non-empty stack does not panic. */
  predicate Drawable(config: Config)
  {
    config.nRows > 0 ==> config.maxDirectoryDepth > 0
  }

  lemma ValidRenderable(stack: seq<Snapshot>, config: Config)
    requires ValidStack(stack) && Drawable(config)
    ensures Renderable(stack, config)
  {
    forall k | 0 <= k < |stack|
      ensures stack[k].selectedIdx <= |stack[k].contents|
    {
      assert stack[k].WellFormed();
    }
  }

  /** What one turn of the loop draws: the path line and the rows of the panes. */
  function Screen(stack: seq<Snapshot>, config: Config): (f: Frame)
    requires ValidStack(stack) && Drawable(config)
    ensures |f.lines| == config.nRows
  {
    ValidRenderable(stack, config);
    Frame(DisplayPath(stack), Rows(stack, config, config.nRows))
  }

  /**
   * The stacks the loop draws while handling `events` from `stack`: the
   * stack before each event it reads, up to the first Esc, and the stack
   * left when the loop ends.
   */
  function Shown(stack: seq<Snapshot>, events: seq<Event>): (ss: seq<seq<Snapshot>>)
    requires |stack| >= 1
    ensures |ss| == QuitAt(events) + 1 && ss[0] == stack
    decreases |events|
  {
    if events == [] || Decode(events[0]) == Quit then [stack]
    else [stack] + Shown(Step(stack, Decode(events[0])), events[1..])
  }

  /**
   * The stack drawn before event `k` is the stack the first `k` events
   * leave behind, and the last stack drawn is the one all the events leave
   * behind.
   */
  lemma {:induction false} ShownIsReplay(stack: seq<Snapshot>, events: seq<Event>)
    requires |stack| >= 1
    ensures var ss := Shown(stack, events);
      (forall k :: 0 <= k < |ss| ==> |events[..k]| == k && ss[k] == Replay(stack, events[..k])) &&
      ss[|ss| - 1] == Replay(stack, events)
    decreases |events|
  {
    var ss := Shown(stack, events);
    if events != [] && Decode(events[0]) != Quit {
      var c := Decode(events[0]);
      var rest := events[1..];
      ShownIsReplay(Step(stack, c), rest);
      forall k | 0 <= k < |ss|
        ensures ss[k] == Replay(stack, events[..k])
      {
        if k > 0 {
          assert events[..k][0] == events[0];
          assert events[..k][1..] == rest[..k - 1];
        }
      }
    }
    ReplayStopsAtQuit(stack, events);
    assert events[..QuitAt(events)] == events[..|ss| - 1];
  }

  /** Every stack drawn from a valid stack is valid. */
  lemma {:induction false} ShownValid(stack: seq<Snapshot>, events: seq<Event>)
    requires ValidStack(stack)
    ensures AllValid(Shown(stack, events))
    decreases |events|
  {
    if events != [] && Decode(events[0]) != Quit {
      var c := Decode(events[0]);
      StepValid(stack, c);
      ShownValid(Step(stack, c), events[1..]);
      var ss := Shown(stack, events);
      forall k | 0 <= k < |ss|
        ensures ValidStack(ss[k])
      {
        if k > 0 {
          assert ss[k] == Shown(Step(stack, c), events[1..])[k - 1];
        }
      }
    }
  }

  predicate AllValid(ss: seq<seq<Snapshot>>)
  {
    forall k :: 0 <= k < |ss| ==> ValidStack(ss[k])
  }

  /** The frames that draw the stacks `ss`, one each. */
  function FramesOf(ss: seq<seq<Snapshot>>, config: Config): (fs: seq<Frame>)
    requires AllValid(ss) && Drawable(config)
    ensures |fs| == |ss|
  {
    seq(|ss|, k requires 0 <= k < |ss| => Screen(ss[k], config))
  }

  /** The frames the loop draws while handling `events`: one before each event it reads, and one more when it ends. */
  function Frames(stack: seq<Snapshot>, events: seq<Event>, config: Config): (fs: seq<Frame>)
    requires ValidStack(stack) && Drawable(config)
    ensures |fs| == QuitAt(events) + 1
  {
    ShownValid(stack, events);
    FramesOf(Shown(stack, events), config)
  }

  /**
   * What the screen shows along the session: frame `k` draws the stack the
   * first `k` events leave behind, and the last frame draws the stack all
   * the events leave behind.
   */
  lemma FramesShowReplay(stack: seq<Snapshot>, events: seq<Event>, config: Config, k: nat)
    requires ValidStack(stack) && Drawable(config) && k <= QuitAt(events)
    ensures ValidStack(Replay(stack, events[..k])) && ValidStack(Replay(stack, events))
    ensures Frames(stack, events, config)[k] == Screen(Replay(stack, events[..k]), config)
    ensures Frames(stack, events, config)[QuitAt(events)] == Screen(Replay(stack, events), config)
  {
    var ss := Shown(stack, events);
    ShownValid(stack, events);
    ShownIsReplay(stack, events);
    assert ss[k] == Replay(stack, events[..k]) && ValidStack(ss[k]);
  }

  /**
   * Where the loop of `main` stands after handling `i` events from `start`:
   * `shown` holds the stacks drawn so far and `stack` the current one; those
   * followed by the stacks still to come are all the stacks of the session.
   */
  ghost predicate Progress(start: seq<Snapshot>, events: seq<Event>, i: nat,
                           stack: seq<Snapshot>, shown: seq<seq<Snapshot>>)
    requires |start| >= 1 && |stack| >= 1
  {
    i <= |events| && |shown| == i && shown + Shown(stack, events[i..]) == Shown(start, events)
  }

  /** The loop starts at the first event, with nothing drawn yet. */
  lemma ProgressStart(start: seq<Snapshot>, events: seq<Event>)
    requires |start| >= 1
    ensures Progress(start, events, 0, start, [])
  {
    assert events[0..] == events;
  }

  /** A turn that handles an event other than Esc moves the loop on by one event. */
  lemma ProgressStep(start: seq<Snapshot>, events: seq<Event>, i: nat,
                     stack: seq<Snapshot>, shown: seq<seq<Snapshot>>)
    requires |start| >= 1 && |stack| >= 1 && Progress(start, events, i, stack, shown)
    requires i < |events| && Decode(events[i]) != Quit
    ensures Progress(start, events, i + 1, Step(stack, Decode(events[i])), shown + [stack])
  {
    var rest := events[i..];
    var next := Step(stack, Decode(events[i]));
    assert rest[1..] == events[i + 1..];
    var later := Shown(next, events[i + 1..]);
    assert Shown(stack, rest) == [stack] + later;
    assert (shown + [stack]) + later == shown + ([stack] + later);
  }

  /** The turn that draws without handling an event ends the session. */
  lemma ProgressStop(start: seq<Snapshot>, events: seq<Event>, i: nat,
                     stack: seq<Snapshot>, shown: seq<seq<Snapshot>>)
    requires |start| >= 1 && |stack| >= 1 && Progress(start, events, i, stack, shown)
    requires i == |events| || Decode(events[i]) == Quit
    ensures shown + [stack] == Shown(start, events)
    ensures stack == Replay(start, events)
    ensures QuitAt(events) == i
  {
    assert Shown(stack, events[i..]) == [stack];
    ShownIsReplay(start, events);
  }

  /** Drawing one more stack adds its frame at the end. */
  lemma FramesOfSnoc(ss: seq<seq<Snapshot>>, stack: seq<Snapshot>, config: Config)
    requires AllValid(ss) && ValidStack(stack) && Drawable(config)
    ensures AllValid(ss + [stack])
    ensures FramesOf(ss + [stack], config) == FramesOf(ss, config) + [Screen(stack, config)]
  {
    assert (ss + [stack])[..|ss|] == ss;
  }
}
