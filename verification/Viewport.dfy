/** The console's view into its history (kernel/drivers/vga.c): scrolling back, what
    goes on behind a view that is scrolled back, and the return to the live rows. */
module Viewport {
  import opened Console
  import opened TextConsole

  /** The screen, the lines that scrolled off it and how far the view is back. */
  datatype Desk = Desk(screen: Screen, history: seq<Row>, offset: nat)

  predicate Shaped(d: Desk, cols: nat) {
    Shape(d.screen, cols)
  }

  /** The lines the view selects. */
  function Window(d: Desk): (r: seq<Row>)
    requires d.screen.start < |d.screen.cells|
  {
    ViewRows(d.history, d.screen, d.offset)
  }

  /** render_view. */
  function Render(d: Desk): Desk
    requires d.screen.start < |d.screen.cells|
  {
    d.(screen := Redraw(d.screen).(shadow := Window(d)))
  }

  /** ensure_live_view. */
  function ToLive(d: Desk): Desk
    requires d.screen.start < |d.screen.cells|
  {
    if d.offset != 0 then Render(d.(offset := 0)) else d
  }

  /** What is done to the console. A character is put after a return to the live
      view; a line is fed in whatever view there is. */
  datatype Act = Put(y: nat, x: nat, cell: Cell) | Feed | Home | Page(delta: int) | Fill | Wipe | Show

  function Fed(d: Desk, cols: nat, capacity: nat, blank: Cell): Desk
    requires Shaped(d, cols)
  {
    var s := Scroll(d.screen, cols, blank);
    ApplyShape(d.screen, cols, blank, ScrollOne);
    var kept := LastOf(d.history + [Live(d.screen, 0)], capacity);
    if d.offset == 0 then d.(screen := s, history := kept)
    else Render(Desk(d.screen.(cells := s.cells, start := s.start), kept, d.offset))
  }

  /** fb_present_dirty once it draws. */
  function Shown(d: Desk): Desk
    requires d.screen.start < |d.screen.cells| == |d.screen.shadow| == |d.screen.dirty| && d.screen.pending <= |d.screen.cells|
  {
    if HasDirty(d.screen) then d.(screen := Presented(d.screen, d.offset)) else d
  }

  function Do(d: Desk, cols: nat, capacity: nat, blank: Cell, act: Act): Desk
    requires Shaped(d, cols)
  {
    match act
    case Put(y, x, cell) => var e := ToLive(d); e.(screen := SetCell(e.screen, y, x, cell))
    case Feed => Fed(d, cols, capacity, blank)
    case Home => ToLive(d)
    case Page(delta) => if delta == 0 then d else Render(d.(offset := Paged(d.offset, |d.history|, delta)))
    case Fill => Render(d.(screen := ClearScreen(d.screen, cols, blank)))
    case Wipe => Render(Desk(ClearScreen(d.screen, cols, blank), [], 0))
    case Show => Shown(d)
  }

  lemma {:induction false} DoShape(d: Desk, cols: nat, capacity: nat, blank: Cell, act: Act)
    requires Shaped(d, cols)
    ensures Shaped(Do(d, cols, capacity, blank, act), cols)
    ensures |Do(d, cols, capacity, blank, act).screen.cells| == |d.screen.cells|
  {
    if act.Feed? { ApplyShape(d.screen, cols, blank, ScrollOne); }
  }

  function Session(d: Desk, cols: nat, capacity: nat, blank: Cell, acts: seq<Act>): (r: Desk)
    requires Shaped(d, cols)
    ensures Shaped(r, cols) && |r.screen.cells| == |d.screen.cells|
    decreases |acts|
  {
    if acts == [] then d
    else
      var e := Session(d, cols, capacity, blank, acts[..|acts| - 1]);
      DoShape(e, cols, capacity, blank, acts[|acts| - 1]);
      Do(e, cols, capacity, blank, acts[|acts| - 1])
  }

  // ----- Scrolled back -----------------------------------------------------

  /** A view that is scrolled back has no marks and shows what it selects. */
  predicate Steady(d: Desk, capacity: nat) {
    && d.screen.start < |d.screen.cells| && d.offset <= |d.history| <= capacity
    && (d.offset != 0 ==> !HasDirty(d.screen) && d.screen.shadow == Window(d))
  }

  lemma {:induction false} RenderSteady(d: Desk, capacity: nat)
    requires d.screen.start < |d.screen.cells| && d.offset <= |d.history| <= capacity
    ensures Steady(Render(d), capacity) && Render(d).screen.shadow == Window(Render(d)) && !HasDirty(Render(d).screen)
  {
    SameRows(d.screen, Render(d).screen);
  }

  lemma {:induction false} DoSteady(d: Desk, cols: nat, capacity: nat, blank: Cell, act: Act)
    requires Shaped(d, cols) && Steady(d, capacity)
    ensures Steady(Do(d, cols, capacity, blank, act), capacity)
  {
    match act
    case Put(y, x, cell) => RenderSteady(d.(offset := 0), capacity);
    case Feed =>
      ApplyShape(d.screen, cols, blank, ScrollOne);
      var s := Scroll(d.screen, cols, blank);
      RenderSteady(Desk(d.screen.(cells := s.cells, start := s.start), LastOf(d.history + [Live(d.screen, 0)], capacity), d.offset), capacity);
    case Home => RenderSteady(d.(offset := 0), capacity);
    case Page(delta) => RenderSteady(d.(offset := Paged(d.offset, |d.history|, delta)), capacity);
    case Fill => RenderSteady(d.(screen := ClearScreen(d.screen, cols, blank)), capacity);
    case Wipe => RenderSteady(Desk(ClearScreen(d.screen, cols, blank), [], 0), capacity);
    case Show =>
  }

  /** After every session that begins in the live view, a view that is scrolled back
      shows exactly the lines it selects, with nothing left to draw. */
  lemma {:induction false} BackIsWindow(d: Desk, cols: nat, capacity: nat, blank: Cell, acts: seq<Act>)
    requires Shaped(d, cols) && d.offset == 0 && |d.history| <= capacity
    ensures Steady(Session(d, cols, capacity, blank, acts), capacity)
    decreases |acts|
  {
    if acts != [] {
      var init := acts[..|acts| - 1];
      BackIsWindow(d, cols, capacity, blank, init);
      DoSteady(Session(d, cols, capacity, blank, init), cols, capacity, blank, acts[|acts| - 1]);
    }
  }

  // ----- The live view -----------------------------------------------------

  /** How many lines the history has and how far the view is back: they depend on
      what is done alone, not on the text. */
  datatype Place = Place(lines: nat, offset: nat)

  function Move(p: Place, capacity: nat, act: Act): Place {
    match act
    case Put(_, _, _) => p.(offset := 0)
    case Feed => p.(lines := if p.lines < capacity then p.lines + 1 else capacity)
    case Home => p.(offset := 0)
    case Page(delta) => if delta == 0 then p else p.(offset := Paged(p.offset, p.lines, delta))
    case Fill => p
    case Wipe => Place(0, 0)
    case Show => p
  }

  function Places(capacity: nat, acts: seq<Act>): Place
    decreases |acts|
  {
    if acts == [] then Place(0, 0) else Move(Places(capacity, acts[..|acts| - 1]), capacity, acts[|acts| - 1])
  }

  /** The steps of the live screen that an act comes to, when the picture is taken
      to be the live rows for as long as the view is scrolled back. */
  function Steps(offset: nat, act: Act): seq<Op> {
    match act
    case Put(y, x, cell) => (if offset != 0 then [Refresh] else []) + [Write(y, x, cell)]
    case Feed => if offset != 0 then [ScrollOne] + [Refresh] else [ScrollOne]
    case Home => if offset != 0 then [Refresh] else []
    case Page(delta) => if delta != 0 then [Refresh] else []
    case Fill => [Clear] + [Refresh]
    case Wipe => [Clear] + [Refresh]
    case Show => if offset != 0 then [] else [Present]
  }

  function AllSteps(capacity: nat, acts: seq<Act>): seq<Op>
    decreases |acts|
  {
    if acts == [] then []
    else
      var init := acts[..|acts| - 1];
      AllSteps(capacity, init) + Steps(Places(capacity, init).offset, acts[|acts| - 1])
  }

  /** The desk is at the place, and its screen is the one the steps give, but for
      the picture while the view is scrolled back. */
  predicate Follows(d: Desk, c: Screen, p: Place) {
    && |d.history| == p.lines && d.offset == p.offset
    && c.start == d.screen.start < |c.cells| && c.cells == d.screen.cells
    && if d.offset == 0 then d.screen == c else c == Redraw(c) && !HasDirty(d.screen)
  }

  lemma {:induction false} OneStep(c: Screen, cols: nat, blank: Cell, op: Op)
    requires Shape(c, cols)
    ensures Shape(Apply(c, cols, blank, op), cols) && Run(c, cols, blank, [op]) == Apply(c, cols, blank, op)
  {
    ApplyShape(c, cols, blank, op);
    assert [op][..0] == [];
  }

  lemma {:induction false} RunJoins(c: Screen, cols: nat, blank: Cell, a: seq<Op>, b: seq<Op>)
    requires Shape(c, cols)
    ensures Run(c, cols, blank, a + b) == Run(Run(c, cols, blank, a), cols, blank, b)
    decreases |b|
  {
    if b == [] {
      assert a + b == a;
    } else {
      var init := b[..|b| - 1];
      RunJoins(c, cols, blank, a, init);
      assert (a + b)[..|a + b| - 1] == a + init;
    }
  }

  /** Two steps, the second a redraw. */
  lemma {:induction false} ThenRefresh(c: Screen, cols: nat, blank: Cell, op: Op)
    requires Shape(c, cols)
    ensures Shape(Apply(c, cols, blank, op), cols) && Run(c, cols, blank, [op] + [Refresh]) == Redraw(Apply(c, cols, blank, op))
  {
    OneStep(c, cols, blank, op);
    OneStep(Apply(c, cols, blank, op), cols, blank, Refresh);
    RunJoins(c, cols, blank, [op], [Refresh]);
  }

  /** A redraw depends on the row buffer alone. */
  lemma {:induction false} RedrawOf(c: Screen, d: Screen)
    requires c.cells == d.cells && c.start == d.start < |c.cells|
    ensures Redraw(c) == Redraw(d) && Redraw(Redraw(c)) == Redraw(c)
  {
    SameRows(c, d);
    SameRows(c, Redraw(c));
  }

  /** The live view's window is the live rows. */
  lemma {:induction false} LiveWindow(d: Desk)
    requires d.screen.start < |d.screen.cells| && d.offset == 0
    ensures Window(d) == LiveRows(d.screen) && Render(d).screen == Redraw(d.screen)
  {
    assert Text(d.history, d.screen)[|d.history|..] == LiveRows(d.screen);
  }

  lemma {:induction false} RenderFollows(d: Desk, c: Screen)
    requires c.cells == d.screen.cells && c.start == d.screen.start < |c.cells|
    ensures Follows(Render(d), Redraw(c), Place(|d.history|, d.offset))
  {
    RedrawOf(c, d.screen);
    if d.offset == 0 { LiveWindow(d); }
  }

  lemma {:induction false} CleanFlush(c: Screen, cols: nat)
    requires Shape(c, cols) && !HasDirty(c)
    ensures Flush(c) == c
  {
    assert Flush(c).shadow == c.shadow && Flush(c).dirty == c.dirty;
  }

  lemma {:induction false} PutFollows(d: Desk, c: Screen, cols: nat, capacity: nat, blank: Cell, act: Act)
    requires Shaped(d, cols) && Shape(c, cols) && Follows(d, c, Place(|d.history|, d.offset)) && act.Put?
    ensures Follows(Do(d, cols, capacity, blank, act), Run(c, cols, blank, Steps(d.offset, act)), Place(|d.history|, 0))
  {
    var w := Write(act.y, act.x, act.cell);
    if d.offset == 0 {
      assert [] + [w] == [w];
      OneStep(c, cols, blank, w);
    } else {
      RenderFollows(d.(offset := 0), c);
      OneStep(c, cols, blank, Refresh);
      OneStep(Redraw(c), cols, blank, w);
      RunJoins(c, cols, blank, [Refresh], [w]);
    }
  }

  lemma {:induction false} FeedFollows(d: Desk, c: Screen, cols: nat, capacity: nat, blank: Cell)
    requires Shaped(d, cols) && Shape(c, cols) && Follows(d, c, Place(|d.history|, d.offset)) && |d.history| <= capacity
    ensures Follows(Do(d, cols, capacity, blank, Feed), Run(c, cols, blank, Steps(d.offset, Feed)), Move(Place(|d.history|, d.offset), capacity, Feed))
  {
    if d.offset == 0 {
      OneStep(c, cols, blank, ScrollOne);
    } else {
      ThenRefresh(c, cols, blank, ScrollOne);
      var s, kept := Scroll(d.screen, cols, blank), LastOf(d.history + [Live(d.screen, 0)], capacity);
      RenderFollows(Desk(d.screen.(cells := s.cells, start := s.start), kept, d.offset), Scroll(c, cols, blank));
    }
  }

  lemma {:induction false} ClearFollows(d: Desk, c: Screen, cols: nat, capacity: nat, blank: Cell, act: Act)
    requires Shaped(d, cols) && Shape(c, cols) && Follows(d, c, Place(|d.history|, d.offset)) && (act.Fill? || act.Wipe?)
    ensures Follows(Do(d, cols, capacity, blank, act), Run(c, cols, blank, Steps(d.offset, act)), Move(Place(|d.history|, d.offset), capacity, act))
  {
    ThenRefresh(c, cols, blank, Clear);
    var cleared := ClearScreen(d.screen, cols, blank);
    RenderFollows(if act.Fill? then d.(screen := cleared) else Desk(cleared, [], 0), ClearScreen(c, cols, blank));
  }

  lemma {:induction false} DoFollows(d: Desk, c: Screen, cols: nat, capacity: nat, blank: Cell, act: Act)
    requires Shaped(d, cols) && Shape(c, cols) && Follows(d, c, Place(|d.history|, d.offset)) && |d.history| <= capacity
    ensures Follows(Do(d, cols, capacity, blank, act), Run(c, cols, blank, Steps(d.offset, act)), Move(Place(|d.history|, d.offset), capacity, act))
  {
    match act
    case Put(_, _, _) => PutFollows(d, c, cols, capacity, blank, act);
    case Feed => FeedFollows(d, c, cols, capacity, blank);
    case Home => OneStep(c, cols, blank, Refresh); RenderFollows(d.(offset := 0), c);
    case Page(delta) => OneStep(c, cols, blank, Refresh); RenderFollows(d.(offset := Paged(d.offset, |d.history|, delta)), c);
    case Fill => ClearFollows(d, c, cols, capacity, blank, act);
    case Wipe => ClearFollows(d, c, cols, capacity, blank, act);
    case Show =>
      OneStep(c, cols, blank, Present);
      if !HasDirty(c) { CleanFlush(c, cols); }
  }

  /** Nothing in the history, the live view, and all of it drawn. */
  predicate Fresh(d: Desk, cols: nat) {
    Shaped(d, cols) && d.history == [] && d.offset == 0 && Tracks(d.screen, Clean(|d.screen.cells|))
  }

  /** A session is a run of the live screen, seen through the view. */
  lemma {:induction false} SessionFollows(d: Desk, cols: nat, capacity: nat, blank: Cell, acts: seq<Act>)
    requires Fresh(d, cols)
    ensures Follows(Session(d, cols, capacity, blank, acts), Run(d.screen, cols, blank, AllSteps(capacity, acts)), Places(capacity, acts))
    decreases |acts|
  {
    if acts != [] {
      var init, act := acts[..|acts| - 1], acts[|acts| - 1];
      SessionFollows(d, cols, capacity, blank, init);
      BackIsWindow(d, cols, capacity, blank, init);
      var e, c := Session(d, cols, capacity, blank, init), Run(d.screen, cols, blank, AllSteps(capacity, init));
      DoFollows(e, c, cols, capacity, blank, act);
      RunJoins(d.screen, cols, blank, AllSteps(capacity, init), Steps(e.offset, act));
    }
  }

  // ----- When the picture is the window ------------------------------------

  /** After a present the picture is what the view selects. */
  predicate Right(d: Desk, cols: nat)
    requires Shaped(d, cols)
  {
    Shown(d).screen.shadow == Window(Shown(d))
  }

  lemma {:induction false} LiveIsRight(d: Desk, cols: nat)
    requires Shaped(d, cols) && d.offset == 0
    ensures Right(d, cols) <==> Flush(d.screen) == Redraw(d.screen)
  {
    if !HasDirty(d.screen) { CleanFlush(d.screen, cols); }
    LiveWindow(Shown(d));
    SameRows(Shown(d).screen, d.screen);
    assert Flush(d.screen) == Redraw(d.screen).(shadow := Flush(d.screen).shadow);
  }

  lemma {:induction false} BackIsRight(d: Desk, cols: nat, capacity: nat)
    requires Shaped(d, cols) && Steady(d, capacity) && d.offset != 0
    ensures Right(d, cols)
  {}

  /** The same acts at the same places, with possibly different text. */
  predicate SameActs(acts: seq<Act>, other: seq<Act>) {
    |acts| == |other| && forall i :: 0 <= i < |acts| ==> SameAct(acts[i], other[i])
  }

  predicate SameAct(a: Act, b: Act) {
    if a.Put? then b.Put? && b.y == a.y && b.x == a.x else b == a
  }

  lemma {:induction false} SamePlaces(capacity: nat, acts: seq<Act>, other: seq<Act>)
    requires SameActs(acts, other)
    ensures Places(capacity, acts) == Places(capacity, other) && SameShape(AllSteps(capacity, acts), AllSteps(capacity, other))
    decreases |acts|
  {
    if acts != [] {
      var n := |acts| - 1;
      SamePlaces(capacity, acts[..n], other[..n]);
      SameSteps(Places(capacity, acts[..n]).offset, acts[n], other[n]);
      var offset := Places(capacity, acts[..n]).offset;
      SameJoined(AllSteps(capacity, acts[..n]), AllSteps(capacity, other[..n]), Steps(offset, acts[n]), Steps(offset, other[n]));
    }
  }

  lemma {:induction false} SameSteps(offset: nat, a: Act, b: Act)
    requires SameAct(a, b)
    ensures SameShape(Steps(offset, a), Steps(offset, b))
  {}

  lemma {:induction false} SameJoined(a: seq<Op>, b: seq<Op>, c: seq<Op>, d: seq<Op>)
    requires SameShape(a, b) && SameShape(c, d)
    ensures SameShape(a + c, b + d)
  {}

  /** The text of any run like the session's steps is the text of a session. */
  lemma {:induction false} Realised(capacity: nat, acts: seq<Act>, ops: seq<Op>) returns (other: seq<Act>)
    requires SameShape(AllSteps(capacity, acts), ops)
    ensures SameActs(acts, other) && AllSteps(capacity, other) == ops
    decreases |acts|
  {
    if acts == [] {
      other := [];
    } else {
      var init, act := acts[..|acts| - 1], acts[|acts| - 1];
      assert acts == init + [act];
      var n := |AllSteps(capacity, init)|;
      SameParts(AllSteps(capacity, init), Steps(Places(capacity, init).offset, act), ops);
      var others := Realised(capacity, init, ops[..n]);
      var last := RealisedAct(Places(capacity, init).offset, act, ops[n..]);
      SamePlaces(capacity, init, others);
      OneMoreAct(capacity, init, act, others, last);
      other := others + [last];
    }
  }

  lemma {:induction false} SameParts(a: seq<Op>, b: seq<Op>, ops: seq<Op>)
    requires SameShape(a + b, ops)
    ensures SameShape(a, ops[..|a|]) && SameShape(b, ops[|a|..]) && ops == ops[..|a|] + ops[|a|..]
  {
    assert forall i :: 0 <= i < |a| ==> (a + b)[i] == a[i];
    assert forall i :: 0 <= i < |b| ==> (a + b)[|a| + i] == b[i];
  }

  lemma {:induction false} OneMoreAct(capacity: nat, acts: seq<Act>, act: Act, others: seq<Act>, last: Act)
    requires SameActs(acts, others) && SameAct(act, last)
    ensures SameActs(acts + [act], others + [last])
    ensures AllSteps(capacity, others + [last]) == AllSteps(capacity, others) + Steps(Places(capacity, others).offset, last)
  {
    assert (others + [last])[..|others|] == others;
  }

  lemma {:induction false} RealisedAct(offset: nat, act: Act, ops: seq<Op>) returns (other: Act)
    requires SameShape(Steps(offset, act), ops)
    ensures SameAct(act, other) && Steps(offset, other) == ops
  {
    other := if act.Put? then act.(cell := ops[|ops| - 1].cell) else act;
    assert forall i :: 0 <= i < |ops| ==> Steps(offset, other)[i] == ops[i];
  }

  /** A present after acts like these shows the selected window, whatever the text. */
  ghost predicate AlwaysWindow(h: nat, cols: nat, capacity: nat, acts: seq<Act>) {
    forall d: Desk, blank: Cell, other: seq<Act> ::
      Fresh(d, cols) && |d.screen.cells| == h && SameActs(acts, other) ==> Right(Session(d, cols, capacity, blank, other), cols)
  }

  /** After every session, a present shows the window the view selects, whatever the
      text, if and only if the view is scrolled back or every stale row is marked. */
  lemma {:induction false} WindowIff(h: nat, cols: nat, capacity: nat, acts: seq<Act>)
    requires 1 < h && 0 < cols
    ensures AlwaysWindow(h, cols, capacity, acts) <==>
            Places(capacity, acts).offset != 0 || Safe(TrackRun(h, cols, AllSteps(capacity, acts)))
  {
    SafeIffAlwaysRight(h, cols, AllSteps(capacity, acts));
    if Places(capacity, acts).offset != 0 || AlwaysRight(h, cols, AllSteps(capacity, acts)) {
      forall d: Desk, blank: Cell, other: seq<Act> | Fresh(d, cols) && |d.screen.cells| == h && SameActs(acts, other)
        ensures Right(Session(d, cols, capacity, blank, other), cols)
      {
        RightThere(h, cols, capacity, acts, d, blank, other);
      }
    } else {
      WrongSomewhere(h, cols, capacity, acts);
    }
  }

  lemma {:induction false} RightThere(h: nat, cols: nat, capacity: nat, acts: seq<Act>, d: Desk, blank: Cell, other: seq<Act>)
    requires Fresh(d, cols) && |d.screen.cells| == h && SameActs(acts, other)
    requires Places(capacity, acts).offset != 0 || AlwaysRight(h, cols, AllSteps(capacity, acts))
    ensures Right(Session(d, cols, capacity, blank, other), cols)
  {
    SamePlaces(capacity, acts, other);
    SessionFollows(d, cols, capacity, blank, other);
    BackIsWindow(d, cols, capacity, blank, other);
    var e := Session(d, cols, capacity, blank, other);
    if e.offset != 0 {
      BackIsRight(e, cols, capacity);
    } else {
      LiveIsRight(e, cols);
    }
  }

  lemma {:induction false} WrongSomewhere(h: nat, cols: nat, capacity: nat, acts: seq<Act>)
    requires Places(capacity, acts).offset == 0 && !AlwaysRight(h, cols, AllSteps(capacity, acts))
    ensures !AlwaysWindow(h, cols, capacity, acts)
  {
    var c: Screen, blank: Cell, ops: seq<Op> :|
      && Shape(c, cols) && |c.cells| == h && Tracks(c, Clean(h)) && SameShape(AllSteps(capacity, acts), ops)
      && Flush(Run(c, cols, blank, ops)) != Redraw(Run(c, cols, blank, ops));
    var other := Realised(capacity, acts, ops);
    var d := Desk(c, [], 0);
    SamePlaces(capacity, acts, other);
    SessionFollows(d, cols, capacity, blank, other);
    LiveIsRight(Session(d, cols, capacity, blank, other), cols);
  }

  /** Moving the view draws it afresh: it mends whatever was left out before. */
  lemma {:induction false} PagingMends(h: nat, cols: nat, capacity: nat, acts: seq<Act>, delta: int)
    requires 1 < h && 0 < cols && delta != 0
    ensures AlwaysWindow(h, cols, capacity, acts + [Page(delta)])
  {
    var paged := acts + [Page(delta)];
    assert AllSteps(capacity, paged) == AllSteps(capacity, acts) + [Refresh] by { assert paged[..|acts|] == acts; }
    RefreshIsSafe(h, cols, AllSteps(capacity, acts));
    WindowIff(h, cols, capacity, paged);
  }

  lemma {:induction false} RefreshIsSafe(h: nat, cols: nat, ops: seq<Op>)
    ensures Safe(TrackRun(h, cols, ops + [Refresh]))
  {
    TrackExtends(h, cols, ops, Refresh);
  }
}
