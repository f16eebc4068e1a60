/*
 * The event loop of `main` on the directory records themselves: the
 * browser keeps the records `init_directories` returned and updates the
 * last one in place.
 */
module Controller {
  import opened Types
  import opened Listing
  import opened Display
  import opened Session

  /** Records whose fields are unchanged have unchanged views. */
  twostate lemma {:induction false} ViewsUnchanged(dirs: seq<Directory>)
    requires unchanged(dirs)
    ensures Views(dirs) == old(Views(dirs))
    decreases |dirs|
  {
    if dirs != [] {
      var n := |dirs| - 1;
      assert dirs[n] in dirs;
      ViewsUnchanged(dirs[..n]);
    }
  }

  /** When the records before the last keep their fields, only the last view can change. */
  twostate lemma ViewsAfterLastUpdate(dirs: seq<Directory>)
    requires |dirs| >= 1 && unchanged(dirs[..|dirs| - 1])
    ensures Views(dirs) == old(Views(dirs))[|dirs| - 1 := dirs[|dirs| - 1].View()]
  {
    ViewsUnchanged(dirs[..|dirs| - 1]);
  }

  /** The browser: the stack of directory records `main` keeps in `dirs`. */
  class Browser {
    var dirs: seq<Directory>

    /** The record values, the root first. */
    function Stack(): seq<Snapshot>
      reads this, dirs
    {
      Views(dirs)
    }

    ghost predicate Valid()
      reads this, dirs
    {
      |dirs| >= 1 && Distinct(dirs) && ValidStack(Views(dirs))
    }

    /** The start of `main`: the records `init_directories` reads for the invoked directory. */
    constructor (ancestors: seq<DirListing>)
      requires Consistent(ancestors) && |ancestors| >= 1
      ensures Valid() && fresh(set d | d in dirs)
      ensures Stack() == AncestorStack(ancestors)
    {
      AncestorStackValid(ancestors);
      var ds := InitDirectories(ancestors);
      ghost var stack := Views(ds);
      assert ValidStack(stack);
      dirs := ds;
      new;
      assert Views(dirs) == stack;
    }

    /** Draws one frame: `display_path_at_row` and then `display_dirs`. */
    method Render(config: Config) returns (frame: Frame)
      requires Valid() && Drawable(config)
      ensures frame == Screen(Stack(), config)
    {
      var stack := Views(dirs);
      ValidRenderable(stack, config);
      var lines := DisplayDirs(stack, config);
      frame := Frame(DisplayPath(stack), lines);
    }

    /** Up or Down: moves the cursor of the last record. */
    method MoveCursor(c: Command)
      requires Valid() && (c == CursorUp || c == CursorDown)
      modifies dirs[|dirs| - 1]
      ensures Valid()
      ensures Stack() == Step(old(Stack()), c)
    {
      ghost var before := Stack();
      var last := dirs[|dirs| - 1];
      ViewsAt(dirs, |dirs| - 1);
      if c == CursorUp {
        last.SelectPrev();
      } else {
        last.SelectNext();
      }
      assert last !in dirs[..|dirs| - 1] by {
        forall k | 0 <= k < |dirs| - 1
          ensures dirs[k] != last
        {
          assert dirs[k] != dirs[|dirs| - 1];
        }
      }
      ViewsAfterLastUpdate(dirs);
      StepValid(before, c);
    }

    /** Left: drops the last record unless it is the only one. */
    method Ascend()
      requires Valid()
      modifies this
      ensures Valid()
      ensures Stack() == Step(old(Stack()), Command.Ascend)
      ensures dirs == old(dirs)[..|dirs|]
    {
      ghost var before := Stack();
      if |dirs| > 1 {
        dirs := dirs[..|dirs| - 1];
        assert Stack() == before[..|before| - 1];
      }
      StepValid(before, Command.Ascend);
    }

    /** One arm of the `match` on the event read; `quit` is set on Esc, which ends the loop. */
    method HandleEvent(e: Event) returns (quit: bool)
      requires Valid()
      modifies this, dirs
      ensures Valid()
      ensures Stack() == Step(old(Stack()), Decode(e))
      ensures dirs == old(dirs)[..|dirs|]
      ensures quit <==> Decode(e) == Quit
    {
      quit := false;
      var c := Decode(e);
      if c == Command.Ascend {
        Ascend();
      } else if c == CursorUp || c == CursorDown {
        MoveCursor(c);
      } else if c == Quit {
        quit := true;
      }
    }

    /**
     * One turn of the loop of `main`: draws a frame, then reads event `i`,
     * if any is left, and handles it; `stop` is set when no event is left or
     * the event is Esc.
     */
    method Turn(events: seq<Event>, i: nat, config: Config, ghost start: seq<Snapshot>, ghost shown: seq<seq<Snapshot>>)
      returns (frame: Frame, stop: bool)
      requires Valid() && Drawable(config) && |start| >= 1
      requires Progress(start, events, i, Stack(), shown)
      modifies this, dirs
      ensures Valid() && |dirs| <= old(|dirs|) && dirs == old(dirs)[..|dirs|]
      ensures frame == Screen(old(Stack()), config)
      ensures !stop ==> i < |events| && Progress(start, events, i + 1, Stack(), shown + [old(Stack())])
      ensures stop ==> shown + [old(Stack())] == Shown(start, events) && QuitAt(events) == i
      ensures stop ==> Stack() == Replay(start, events)
    {
      ghost var stack := Stack();
      frame := Render(config);
      if i == |events| {
        stop := true;
        ProgressStop(start, events, i, stack, shown);
      } else {
        stop := HandleEvent(events[i]);
        if stop {
          ProgressStop(start, events, i, stack, shown);
        } else {
          ProgressStep(start, events, i, stack, shown);
        }
      }
    }

    /**
     * The loop of `main`: draw, read an event, handle it; it ends on Esc or
     * when no event is left.
     */
    method Run(events: seq<Event>, config: Config) returns (frames: seq<Frame>, quit: bool)
      requires Valid() && Drawable(config)
      modifies this, dirs
      ensures Valid()
      ensures frames == Frames(old(Stack()), events, config)
      ensures Stack() == Replay(old(Stack()), events)
      ensures quit <==> QuitAt(events) < |events|
    {
      ghost var start := Stack();
      ghost var startDirs := dirs;
      ghost var shown: seq<seq<Snapshot>> := [];
      frames := [];
      var i := 0;
      ProgressStart(start, events);
      while true
        invariant Valid() && |dirs| <= |startDirs| && dirs == startDirs[..|dirs|]
        invariant AllValid(shown) && frames == FramesOf(shown, config)
        invariant Progress(start, events, i, Stack(), shown)
        decreases |events| - i
      {
        ghost var stack := Stack();
        var frame, stop;
        frame, stop := Turn(events, i, config, start, shown);
        FramesOfSnoc(shown, stack, config);
        frames := frames + [frame];
        shown := shown + [stack];
        if stop {
          quit := i < |events|;
          break;
        }
        i := i + 1;
      }
      ShownValid(start, events);
    }
  }

  /** `main` end to end: read the invoked directory's ancestors, then run the loop with the main settings. */
  method Browse(ancestors: seq<DirListing>, events: seq<Event>) returns (frames: seq<Frame>, quit: bool)
    requires Consistent(ancestors) && |ancestors| >= 1
    ensures ValidStack(AncestorStack(ancestors))
    ensures frames == Frames(AncestorStack(ancestors), events, MainConfig)
    ensures quit <==> QuitAt(events) < |events|
  {
    var browser := new Browser(ancestors);
    frames, quit := browser.Run(events, MainConfig);
  }
}
