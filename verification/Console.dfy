/** Deferred presentation of the framebuffer console (kernel/drivers/vga.c). The
    screen is a rotating buffer of rows; writes and scrolls only mark what is
    out of date, and a flush brings the shadow picture up to date from those
    marks. A row's picture is the row's cells. */
module Console {
  import Arith

  type Cell = nat
  type Row = seq<Cell>

  /** The row buffer and where its first row is; the shadow picture; the dirty
      marks, the mark for everything, and the scrolls not yet shown. */
  datatype Screen = Screen(
    cells: seq<Row>,
    start: nat,
    shadow: seq<Row>,
    dirty: seq<bool>,
    all: bool,
    pending: nat
  )

  predicate Shape(c: Screen, cols: nat) {
    && 1 < |c.cells| == |c.shadow| == |c.dirty|
    && c.start < |c.cells| && c.pending <= |c.cells|
    && (forall y :: 0 <= y < |c.cells| ==> |c.cells[y]| == cols)
  }

  /** live_cell_index: where row `y` is in the buffer. */
  function Phys(c: Screen, y: nat): (p: nat)
    requires c.start < |c.cells| && y < |c.cells|
    ensures p < |c.cells|
  {
    if c.start + y >= |c.cells| then c.start + y - |c.cells| else c.start + y
  }

  function Live(c: Screen, y: nat): Row
    requires c.start < |c.cells| && y < |c.cells|
  {
    c.cells[Phys(c, y)]
  }

  function LiveRows(c: Screen): (r: seq<Row>)
    requires c.start < |c.cells|
    ensures |r| == |c.cells|
    ensures forall y :: 0 <= y < |r| ==> r[y] == Live(c, y)
  {
    seq(|c.cells|, y requires 0 <= y < |c.cells| => Live(c, y))
  }

  function Blank(cols: nat, cell: Cell): (r: Row)
    ensures |r| == cols && forall x :: 0 <= x < cols ==> r[x] == cell
  {
    seq(cols, _ => cell)
  }

  // ----- Steps -------------------------------------------------------------

  /** live_set_cell with the framebuffer active. */
  function SetCell(c: Screen, y: nat, x: nat, cell: Cell): Screen
    requires c.start < |c.cells| && |c.dirty| == |c.cells|
  {
    if y >= |c.cells| || x >= |Live(c, y)| then c
    else c.(cells := c.cells[Phys(c, y) := Live(c, y)[x := cell]], dirty := c.dirty[y := true])
  }

  function MarkAll(c: Screen): Screen {
    c.(all := true, pending := 0)
  }

  /** scroll_live_one in the live view: the buffer turns by one row and the new
      last row is blank. */
  function Scroll(c: Screen, cols: nat, blank: Cell): Screen
    requires Shape(c, cols)
  {
    var h := |c.cells|;
    var start := (c.start + 1) % h;
    var turned := c.(start := start);
    Turn(c);
    var filled := turned.(cells := c.cells[Phys(turned, h - 1) := Blank(cols, blank)]);
    var marked := if c.pending < h then filled.(pending := c.pending + 1) else MarkAll(filled);
    marked.(dirty := c.dirty[h - 1 := true])
  }

  lemma {:induction false} Turn(c: Screen)
    requires c.start < |c.cells| && 1 < |c.cells|
    ensures (c.start + 1) % |c.cells| == if c.start + 1 == |c.cells| then 0 else c.start + 1
  {
    var h := |c.cells|;
    if c.start + 1 == h { Arith.DivUnique(h, h, 1, 0); } else { Arith.DivUnique(c.start + 1, h, 0, c.start + 1); }
  }

  predicate HasDirty(c: Screen) {
    c.pending != 0 || c.all || exists y :: 0 <= y < |c.dirty| && c.dirty[y]
  }

  /** What a flush puts into row `y` of the shadow. */
  function FlushedRow(c: Screen, y: nat): Row
    requires c.start < |c.cells| == |c.shadow| == |c.dirty| && c.pending <= |c.cells| && y < |c.cells|
  {
    if c.all || c.pending >= |c.cells| || y >= |c.cells| - c.pending || c.dirty[y] then Live(c, y)
    else c.shadow[y + c.pending]
  }

  /** The drawing part of fb_present_dirty, which then clears every mark. */
  function Flush(c: Screen): Screen
    requires c.start < |c.cells| == |c.shadow| == |c.dirty| && c.pending <= |c.cells|
  {
    c.(shadow := seq(|c.cells|, y requires 0 <= y < |c.cells| => FlushedRow(c, y)),
       dirty := seq(|c.cells|, _ => false), all := false, pending := 0)
  }

  /** A full redraw of the live view, as render_view does it. */
  function Redraw(c: Screen): Screen
    requires c.start < |c.cells|
  {
    c.(shadow := LiveRows(c), dirty := seq(|c.cells|, _ => false), all := false, pending := 0)
  }

  /** clear_live_screen. */
  function ClearScreen(c: Screen, cols: nat, blank: Cell): Screen {
    MarkAll(c.(start := 0, cells := seq(|c.cells|, _ => Blank(cols, blank))))
  }

  datatype Op = Write(y: nat, x: nat, cell: Cell) | ScrollOne | Clear | Present | Refresh

  function Apply(c: Screen, cols: nat, blank: Cell, op: Op): Screen
    requires Shape(c, cols)
  {
    match op
    case Write(y, x, cell) => SetCell(c, y, x, cell)
    case ScrollOne => Scroll(c, cols, blank)
    case Clear => ClearScreen(c, cols, blank)
    case Present => Flush(c)
    case Refresh => Redraw(c)
  }

  lemma {:induction false} ApplyShape(c: Screen, cols: nat, blank: Cell, op: Op)
    requires Shape(c, cols)
    ensures Shape(Apply(c, cols, blank, op), cols)
    ensures |Apply(c, cols, blank, op).cells| == |c.cells|
  {
    if op.ScrollOne? { Turn(c); }
  }

  /** The live rows move up by one and a blank row follows. */
  lemma {:induction false} ScrollMovesRows(c: Screen, cols: nat, blank: Cell)
    requires Shape(c, cols)
    ensures Shape(Scroll(c, cols, blank), cols)
    ensures LiveRows(Scroll(c, cols, blank)) == LiveRows(c)[1..] + [Blank(cols, blank)]
  {
    Turn(c);
    var t, h := Scroll(c, cols, blank), |c.cells|;
    forall y | 0 <= y < h - 1 ensures Live(t, y) == Live(c, y + 1) {
      assert Phys(t, y) == Phys(c, y + 1) && Phys(t, y) != Phys(t, h - 1);
    }
  }

  lemma {:induction false} WriteChangesOneRow(c: Screen, cols: nat, y: nat, x: nat, cell: Cell)
    requires Shape(c, cols) && y < |c.cells| && x < cols
    ensures LiveRows(SetCell(c, y, x, cell)) == LiveRows(c)[y := Live(c, y)[x := cell]]
  {
    var t := SetCell(c, y, x, cell);
    forall z | 0 <= z < |c.cells| && z != y ensures Live(t, z) == Live(c, z) {
      assert Phys(c, z) != Phys(c, y);
    }
  }

  // ----- What the marks can and cannot promise -----------------------------

  /** What an observer of the operations alone, not of the text, knows: the
      marks, and the rows whose place in the shadow is out of date. */
  datatype Track = Track(dirty: seq<bool>, all: bool, pending: nat, stale: seq<bool>)

  function Clean(h: nat): Track {
    Track(seq(h, _ => false), false, 0, seq(h, _ => false))
  }

  function TrackOp(t: Track, cols: nat, op: Op): Track
    requires |t.dirty| == |t.stale|
  {
    var h := |t.stale|;
    match op
    case Write(y, x, _) =>
      if y >= h || x >= cols then t else t.(dirty := t.dirty[y := true], stale := t.stale[y := true])
    case ScrollOne =>
      var moved := seq(h, y requires 0 <= y < h => y + 1 < h && t.stale[y + 1]);
      var marked := if t.pending < h then t.(pending := t.pending + 1) else t.(all := true, pending := 0);
      marked.(dirty := if h == 0 then t.dirty else t.dirty[h - 1 := true], stale := moved)
    case Clear => t.(all := true, pending := 0)
    case Present =>
      Clean(h).(stale := seq(h, y requires 0 <= y < h => t.stale[y] && !Redrawn(t, y)))
    case Refresh => Clean(h)
  }

  /** A flush takes row `y` from the live rows. */
  predicate Redrawn(t: Track, y: nat)
    requires y < |t.dirty|
  {
    t.all || y + t.pending >= |t.dirty| || t.dirty[y]
  }

  /** Every stale row that a flush does not redraw anyway is marked dirty. */
  predicate Safe(t: Track)
    requires |t.dirty| == |t.stale|
  {
    t.all || forall y :: 0 <= y < |t.stale| - t.pending && t.stale[y] ==> t.dirty[y]
  }

  /** The screen has the tracked marks, and every row not tracked as stale is
      already where the flush will look for it. */
  predicate Tracks(c: Screen, t: Track) {
    && c.start < |c.cells| == |c.shadow| == |c.dirty| == |t.stale|
    && c.dirty == t.dirty && c.all == t.all && c.pending == t.pending <= |c.cells|
    && (c.all || forall y :: 0 <= y < |c.cells| - c.pending && !t.stale[y] ==> c.shadow[y + c.pending] == Live(c, y))
  }

  predicate Synced(c: Screen) {
    c.start < |c.cells| && c.shadow == LiveRows(c)
  }

  lemma {:induction false} TrackWrite(c: Screen, cols: nat, t: Track, y: nat, x: nat, cell: Cell)
    requires Shape(c, cols) && Tracks(c, t)
    ensures Tracks(SetCell(c, y, x, cell), TrackOp(t, cols, Write(y, x, cell)))
  {
    if y < |c.cells| && x < cols {
      WriteChangesOneRow(c, cols, y, x, cell);
      var d := SetCell(c, y, x, cell);
      forall z | 0 <= z < |c.cells| && z != y ensures Live(d, z) == Live(c, z) {
        assert LiveRows(d)[z] == LiveRows(c)[z];
      }
    }
  }

  lemma {:induction false} TrackScroll(c: Screen, cols: nat, blank: Cell, t: Track)
    requires Shape(c, cols) && Tracks(c, t)
    ensures Tracks(Scroll(c, cols, blank), TrackOp(t, cols, ScrollOne))
  {
    ScrollMovesRows(c, cols, blank);
    var d, h := Scroll(c, cols, blank), |c.cells|;
    forall y | 0 <= y < h - 1 ensures Live(d, y) == Live(c, y + 1) {
      assert LiveRows(d)[y] == LiveRows(c)[y + 1];
    }
  }

  /** A row the flush does not redraw is as right or as wrong after it as before. */
  lemma {:induction false} TrackFlush(c: Screen, cols: nat, t: Track)
    requires Tracks(c, t)
    ensures Tracks(Flush(c), TrackOp(t, cols, Present))
  {
    var d, u := Flush(c), TrackOp(t, cols, Present);
    forall y | 0 <= y < |c.cells| && !u.stale[y] ensures d.shadow[y] == Live(d, y) {
      assert Live(d, y) == Live(c, y) && d.shadow[y] == FlushedRow(c, y);
    }
  }

  lemma {:induction false} TrackRedraw(c: Screen)
    requires c.start < |c.cells|
    ensures Tracks(Redraw(c), Clean(|c.cells|))
  {
    assert forall y :: 0 <= y < |c.cells| ==> Live(Redraw(c), y) == Live(c, y) == LiveRows(c)[y];
  }

  lemma {:induction false} SafeFlushIsRedraw(c: Screen, t: Track)
    requires Tracks(c, t) && Safe(t)
    ensures Synced(Flush(c)) && Flush(c) == Redraw(c)
  {
    forall y | 0 <= y < |c.cells| ensures FlushedRow(c, y) == Live(c, y) {}
    assert Flush(c).shadow == Redraw(c).shadow;
  }

  // ----- Runs --------------------------------------------------------------

  function Run(c: Screen, cols: nat, blank: Cell, ops: seq<Op>): (r: Screen)
    requires Shape(c, cols)
    ensures Shape(r, cols) && |r.cells| == |c.cells|
    decreases |ops|
  {
    if ops == [] then c
    else
      var t := Run(c, cols, blank, ops[..|ops| - 1]);
      ApplyShape(t, cols, blank, ops[|ops| - 1]);
      Apply(t, cols, blank, ops[|ops| - 1])
  }

  function TrackRun(h: nat, cols: nat, ops: seq<Op>): (t: Track)
    ensures |t.dirty| == |t.stale| == h
    decreases |ops|
  {
    if ops == [] then Clean(h)
    else TrackOp(TrackRun(h, cols, ops[..|ops| - 1]), cols, ops[|ops| - 1])
  }

  lemma {:induction false} RunIsTracked(c: Screen, cols: nat, blank: Cell, ops: seq<Op>)
    requires Shape(c, cols) && Tracks(c, Clean(|c.cells|))
    ensures Tracks(Run(c, cols, blank, ops), TrackRun(|c.cells|, cols, ops))
    decreases |ops|
  {
    if ops != [] {
      var init, op := ops[..|ops| - 1], ops[|ops| - 1];
      RunIsTracked(c, cols, blank, init);
      var d, t := Run(c, cols, blank, init), TrackRun(|c.cells|, cols, init);
      match op
      case Write(y, x, cell) => TrackWrite(d, cols, t, y, x, cell);
      case ScrollOne => TrackScroll(d, cols, blank, t);
      case Clear =>
      case Present => TrackFlush(d, cols, t);
      case Refresh => TrackRedraw(d);
    }
  }

  /** From a freshly drawn screen, after any run of writes, scrolls, clears, flushes
      and redraws, a flush that the tracker calls safe shows exactly the live rows: it
      equals a full redraw. */
  lemma {:induction false} FlushEqualsRedraw(c: Screen, cols: nat, blank: Cell, ops: seq<Op>)
    requires Shape(c, cols) && Tracks(c, Clean(|c.cells|)) && Safe(TrackRun(|c.cells|, cols, ops))
    ensures Flush(Run(c, cols, blank, ops)) == Redraw(Run(c, cols, blank, ops))
  {
    RunIsTracked(c, cols, blank, ops);
    SafeFlushIsRedraw(Run(c, cols, blank, ops), TrackRun(|c.cells|, cols, ops));
  }

  // ----- The condition is exact --------------------------------------------

  /** The same operations at the same places, with possibly different text. */
  predicate SameShape(ops: seq<Op>, other: seq<Op>) {
    |ops| == |other| && forall i :: 0 <= i < |ops| ==>
      if ops[i].Write? then other[i].Write? && other[i].y == ops[i].y && other[i].x == ops[i].x
      else other[i] == ops[i]
  }

  lemma {:induction false} TrackIgnoresText(h: nat, cols: nat, ops: seq<Op>, other: seq<Op>)
    requires SameShape(ops, other)
    ensures TrackRun(h, cols, ops) == TrackRun(h, cols, other)
    decreases |ops|
  {
    if ops != [] { TrackIgnoresText(h, cols, ops[..|ops| - 1], other[..|ops| - 1]); }
  }

  /** The operations with text that tells every write apart. */
  function Labelled(ops: seq<Op>): (r: seq<Op>)
    ensures SameShape(ops, r)
    ensures forall i :: 0 <= i < |r| && r[i].Write? ==> r[i].cell == i + 1
  {
    seq(|ops|, i requires 0 <= i < |ops| => if ops[i].Write? then ops[i].(cell := i + 1) else ops[i])
  }

  predicate AtMost(r: Row, k: nat) {
    forall x :: 0 <= x < |r| ==> r[x] <= k
  }

  /** One row has text newer than all of the other. */
  ghost predicate Fresher(row: Row, shown: Row) {
    exists k: nat :: AtMost(shown, k) && !AtMost(row, k)
  }

  /** No text is newer than `n`, and every stale row has newer text than the row
      of the shadow that a flush would leave in its place. */
  ghost predicate Newer(rows: seq<Row>, shadow: seq<Row>, stale: seq<bool>, all: bool, pending: nat, n: nat)
    requires |rows| == |shadow| == |stale|
  {
    && (forall y :: 0 <= y < |shadow| ==> AtMost(shadow[y], n))
    && (forall y :: 0 <= y < |rows| ==> AtMost(rows[y], n))
    && (all || forall y :: 0 <= y < |rows| - pending && stale[y] ==> Fresher(rows[y], shadow[y + pending]))
  }

  ghost predicate Telling(c: Screen, t: Track, n: nat)
    requires |c.cells| == |c.shadow| == |t.stale| && c.start < |c.cells|
  {
    Newer(LiveRows(c), c.shadow, t.stale, c.all, c.pending, n)
  }

  lemma {:induction false} NewerWrite(rows: seq<Row>, shadow: seq<Row>, stale: seq<bool>, all: bool, pending: nat, n: nat, y: nat, row: Row, m: nat)
    requires |rows| == |shadow| == |stale| && Newer(rows, shadow, stale, all, pending, n) && y < |rows|
    requires n <= m && AtMost(row, m) && !AtMost(row, n)
    ensures Newer(rows[y := row], shadow, stale[y := true], all, pending, m)
  {
    NewerLater(rows, shadow, stale, all, pending, n, m);
    var after := rows[y := row];
    if y + pending < |rows| {
      assert AtMost(shadow[y + pending], n);
      assert Fresher(row, shadow[y + pending]);
    }
  }

  lemma {:induction false} NewerLater(rows: seq<Row>, shadow: seq<Row>, stale: seq<bool>, all: bool, pending: nat, n: nat, m: nat)
    requires |rows| == |shadow| == |stale| && Newer(rows, shadow, stale, all, pending, n) && n <= m
    ensures Newer(rows, shadow, stale, all, pending, m)
  {
    forall z | 0 <= z < |rows| ensures AtMost(rows[z], m) && AtMost(shadow[z], m) {
      assert AtMost(rows[z], n) && AtMost(shadow[z], n);
    }
  }

  lemma {:induction false} NewerScroll(rows: seq<Row>, shadow: seq<Row>, stale: seq<bool>, all: bool, pending: nat, n: nat, blank: Row, moved: seq<bool>)
    requires |rows| == |shadow| == |stale| == |moved| && 0 < |rows| && Newer(rows, shadow, stale, all, pending, n) && AtMost(blank, 0)
    requires forall y :: 0 <= y < |moved| ==> moved[y] == (y + 1 < |stale| && stale[y + 1])
    ensures Newer(rows[1..] + [blank], shadow, moved, all, pending + 1, n)
  {
    var after := rows[1..] + [blank];
    forall y | 0 <= y < |after| ensures AtMost(after[y], n) {
      if y + 1 < |rows| { assert after[y] == rows[y + 1] && AtMost(rows[y + 1], n); }
    }
    forall y | 0 <= y < |after| - pending - 1 && moved[y] && !all ensures Fresher(after[y], shadow[y + (pending + 1)]) {
      assert after[y] == rows[y + 1] && stale[y + 1] && y + 1 + pending == y + (pending + 1);
      assert Fresher(rows[y + 1], shadow[y + 1 + pending]);
    }
  }

  lemma {:induction false} NewerFlush(rows: seq<Row>, shadow: seq<Row>, stale: seq<bool>, all: bool, pending: nat, n: nat, shown: seq<Row>, left: seq<bool>)
    requires |rows| == |shadow| == |stale| == |shown| == |left| && Newer(rows, shadow, stale, all, pending, n)
    requires forall y :: 0 <= y < |rows| ==>
               || (shown[y] == rows[y] && !left[y])
               || (!all && y + pending < |rows| && shown[y] == shadow[y + pending] && left[y] == stale[y])
    ensures Newer(rows, shown, left, false, 0, n)
  {
    forall y | 0 <= y < |rows| ensures AtMost(shown[y], n) && (left[y] ==> Fresher(rows[y], shown[y])) {
      if shown[y] == rows[y] && !left[y] {
        assert AtMost(rows[y], n);
      } else {
        assert AtMost(shadow[y + pending], n);
      }
    }
  }

  lemma {:induction false} TellingWrite(c: Screen, cols: nat, t: Track, y: nat, x: nat, n: nat, m: nat)
    requires Shape(c, cols) && Tracks(c, t) && Telling(c, t, n) && n < m
    ensures Telling(SetCell(c, y, x, m), TrackOp(t, cols, Write(y, x, m)), m)
  {
    if y < |c.cells| && x < cols {
      WriteChangesOneRow(c, cols, y, x, m);
      var row := Live(c, y)[x := m];
      assert AtMost(LiveRows(c)[y], n) && row[x] == m;
      NewerWrite(LiveRows(c), c.shadow, t.stale, c.all, c.pending, n, y, row, m);
    } else {
      NewerLater(LiveRows(c), c.shadow, t.stale, c.all, c.pending, n, m);
    }
  }

  lemma {:induction false} TellingScroll(c: Screen, cols: nat, t: Track, n: nat)
    requires Shape(c, cols) && |t.dirty| == |t.stale| == |c.cells| && t.pending == c.pending && Telling(c, t, n)
    ensures Shape(Scroll(c, cols, 0), cols) && Telling(Scroll(c, cols, 0), TrackOp(t, cols, ScrollOne), n)
  {
    ScrollMovesRows(c, cols, 0);
    ScrollMarks(c, cols, 0);
    var d, u := Scroll(c, cols, 0), TrackOp(t, cols, ScrollOne);
    MarksScrolled(LiveRows(c), c.shadow, t.stale, c.all, c.pending, n, LiveRows(d), u.stale, Blank(cols, 0), d.all, d.pending);
  }

  lemma {:induction false} MarksScrolled(rows: seq<Row>, shadow: seq<Row>, stale: seq<bool>, all: bool, pending: nat, n: nat,
                                         after: seq<Row>, moved: seq<bool>, blank: Row, allAfter: bool, pendingAfter: nat)
    requires |rows| == |shadow| == |stale| == |moved| && 0 < |rows| && Newer(rows, shadow, stale, all, pending, n)
    requires after == rows[1..] + [blank] && AtMost(blank, 0)
    requires forall y :: 0 <= y < |moved| ==> moved[y] == (y + 1 < |stale| && stale[y + 1])
    requires if pending < |rows| then allAfter == all && pendingAfter == pending + 1 else allAfter && pendingAfter == 0
    ensures Newer(after, shadow, moved, allAfter, pendingAfter, n)
  {
    NewerScroll(rows, shadow, stale, all, pending, n, blank, moved);
    if pending >= |rows| { NewerAll(after, shadow, moved, all, pending + 1, n); }
  }

  lemma {:induction false} ScrollMarks(c: Screen, cols: nat, blank: Cell)
    requires Shape(c, cols)
    ensures var d := Scroll(c, cols, blank);
            && d.shadow == c.shadow && |d.cells| == |c.cells|
            && if c.pending < |c.cells| then d.all == c.all && d.pending == c.pending + 1 else d.all && d.pending == 0
  {}

  lemma {:induction false} NewerAll(rows: seq<Row>, shadow: seq<Row>, stale: seq<bool>, all: bool, pending: nat, n: nat)
    requires |rows| == |shadow| == |stale| && Newer(rows, shadow, stale, all, pending, n)
    ensures Newer(rows, shadow, stale, true, 0, n)
  {}

  lemma {:induction false} TellingFlush(c: Screen, cols: nat, t: Track, n: nat)
    requires Tracks(c, t) && Telling(c, t, n)
    ensures Telling(Flush(c), TrackOp(t, cols, Present), n)
  {
    var f, u := Flush(c), TrackOp(t, cols, Present);
    assert LiveRows(f) == LiveRows(c) by {
      forall y | 0 <= y < |c.cells| ensures LiveRows(f)[y] == LiveRows(c)[y] { assert Live(f, y) == Live(c, y); }
    }
    forall y | 0 <= y < |c.cells|
      ensures || (f.shadow[y] == LiveRows(c)[y] && !u.stale[y])
              || (!c.all && y + c.pending < |c.cells| && f.shadow[y] == c.shadow[y + c.pending] && u.stale[y] == t.stale[y])
    {
      assert f.shadow[y] == FlushedRow(c, y);
    }
    NewerFlush(LiveRows(c), c.shadow, t.stale, c.all, c.pending, n, f.shadow, u.stale);
  }

  lemma {:induction false} TellingClear(c: Screen, cols: nat, t: Track, n: nat)
    requires Shape(c, cols) && Tracks(c, t) && Telling(c, t, n)
    ensures Telling(ClearScreen(c, cols, 0), TrackOp(t, cols, Clear), n)
  {
    var d := ClearScreen(c, cols, 0);
    forall y | 0 <= y < |d.cells| ensures AtMost(LiveRows(d)[y], n) { assert Live(d, y) == Blank(cols, 0); }
  }

  lemma {:induction false} TellingRedraw(c: Screen, cols: nat, t: Track, n: nat)
    requires Tracks(c, t) && Telling(c, t, n)
    ensures Telling(Redraw(c), TrackOp(t, cols, Refresh), n)
  {
    var d := Redraw(c);
    assert forall y :: 0 <= y < |c.cells| ==> LiveRows(d)[y] == Live(d, y) == Live(c, y) == LiveRows(c)[y];
    assert LiveRows(d) == LiveRows(c);
  }

  lemma {:induction false} StillTelling(c: Screen, t: Track, n: nat, m: nat)
    requires Tracks(c, t) && Telling(c, t, n) && n <= m
    ensures Telling(c, t, m)
  {
    NewerLater(LiveRows(c), c.shadow, t.stale, c.all, c.pending, n, m);
  }

  lemma {:induction false} LabelledRunTells(c: Screen, cols: nat, ops: seq<Op>)
    requires Shape(c, cols) && Tracks(c, Clean(|c.cells|))
    requires forall y :: 0 <= y < |c.cells| ==> AtMost(c.shadow[y], 0) && AtMost(Live(c, y), 0)
    requires forall i :: 0 <= i < |ops| && ops[i].Write? ==> ops[i].cell == i + 1
    ensures Tracks(Run(c, cols, 0, ops), TrackRun(|c.cells|, cols, ops))
    ensures Telling(Run(c, cols, 0, ops), TrackRun(|c.cells|, cols, ops), |ops|)
    decreases |ops|
  {
    RunIsTracked(c, cols, 0, ops);
    if ops != [] {
      var init, op, n := ops[..|ops| - 1], ops[|ops| - 1], |ops| - 1;
      LabelledRunTells(c, cols, init);
      TellingStep(Run(c, cols, 0, init), cols, TrackRun(|c.cells|, cols, init), op, n);
      StillTelling(Run(c, cols, 0, ops), TrackRun(|c.cells|, cols, ops), if op.Write? then n + 1 else n, n + 1);
    }
  }

  lemma {:induction false} TellingStep(c: Screen, cols: nat, t: Track, op: Op, n: nat)
    requires Shape(c, cols) && Tracks(c, t) && Telling(c, t, n) && (op.Write? ==> n < op.cell)
    requires Tracks(Apply(c, cols, 0, op), TrackOp(t, cols, op))
    ensures Telling(Apply(c, cols, 0, op), TrackOp(t, cols, op), if op.Write? then op.cell else n)
  {
    match op
    case Write(y, x, cell) => TellingWrite(c, cols, t, y, x, n, cell);
    case ScrollOne => TellingScroll(c, cols, t, n);
    case Clear => TellingClear(c, cols, t, n);
    case Present => TellingFlush(c, cols, t, n);
    case Refresh => TellingRedraw(c, cols, t, n);
  }

  lemma {:induction false} UnsafeFlushIsWrong(c: Screen, t: Track, n: nat)
    requires Tracks(c, t) && Telling(c, t, n) && !Safe(t)
    ensures Flush(c) != Redraw(c)
  {
    var y :| 0 <= y < |t.stale| - t.pending && t.stale[y] && !t.dirty[y];
    assert FlushedRow(c, y) == c.shadow[y + c.pending];
    assert LiveRows(c)[y] == Live(c, y);
    assert Fresher(Live(c, y), c.shadow[y + c.pending]);
    assert Flush(c).shadow[y] != Redraw(c).shadow[y];
  }

  /** A flush of operations like `ops` is right whatever their text. */
  ghost predicate AlwaysRight(h: nat, cols: nat, ops: seq<Op>) {
    forall c: Screen, blank: Cell, other: seq<Op> ::
      Shape(c, cols) && |c.cells| == h && Tracks(c, Clean(h)) && SameShape(ops, other) ==>
        Flush(Run(c, cols, blank, other)) == Redraw(Run(c, cols, blank, other))
  }

  /** The tracker's verdict is exact after any run, whatever its earlier flushes
      were like: the next flush shows the live rows for every text if and only if
      every stale row is marked. The verdict depends only on which rows were
      written and when the screen scrolled or was flushed. */
  lemma {:induction false} SafeIffAlwaysRight(h: nat, cols: nat, ops: seq<Op>)
    requires 1 < h && 0 < cols
    ensures Safe(TrackRun(h, cols, ops)) <==> AlwaysRight(h, cols, ops)
  {
    if Safe(TrackRun(h, cols, ops)) {
      forall c: Screen, blank: Cell, other: seq<Op> |
        Shape(c, cols) && |c.cells| == h && Tracks(c, Clean(h)) && SameShape(ops, other)
        ensures Flush(Run(c, cols, blank, other)) == Redraw(Run(c, cols, blank, other))
      {
        TrackIgnoresText(h, cols, ops, other);
        FlushEqualsRedraw(c, cols, blank, other);
      }
    } else {
      var other := Labelled(ops);
      TrackIgnoresText(h, cols, ops, other);
      var c := BlankScreen(h, cols);
      LabelledRunTells(c, cols, other);
      UnsafeFlushIsWrong(Run(c, cols, 0, other), TrackRun(h, cols, other), |other|);
      WrongOnce(c, h, cols, 0, ops, other);
    }
  }

  lemma {:induction false} WrongOnce(c: Screen, h: nat, cols: nat, blank: Cell, ops: seq<Op>, other: seq<Op>)
    requires Shape(c, cols) && |c.cells| == h && Tracks(c, Clean(h)) && SameShape(ops, other)
    requires Flush(Run(c, cols, blank, other)) != Redraw(Run(c, cols, blank, other))
    ensures !AlwaysRight(h, cols, ops)
  {}

  function BlankScreen(h: nat, cols: nat): (c: Screen)
    requires 1 < h
    ensures Shape(c, cols) && |c.cells| == h && Tracks(c, Clean(h))
    ensures forall y :: 0 <= y < |c.cells| ==> AtMost(c.shadow[y], 0) && AtMost(Live(c, y), 0)
  {
    Screen(seq(h, _ => Blank(cols, 0)), 0, seq(h, _ => Blank(cols, 0)), seq(h, _ => false), false, 0)
  }

  /** Text written on the bottom row and followed by a scroll, as printing a line
      at the bottom does, is not safe to flush: the mark stays on the bottom row
      while the text has moved up. On a blank screen the flush leaves the line
      out, and so does every later one until the row is written or redrawn. */
  lemma {:induction false} BottomLineThenScrollIsUnsafe(h: nat, cols: nat, x: nat, cell: Cell)
    requires 1 < h && x < cols && cell > 0
    ensures var ops := [Write(h - 1, x, cell)] + [ScrollOne];
            var c := BlankScreen(h, cols);
            && !Safe(TrackRun(h, cols, ops)) && Flush(Run(c, cols, 0, ops)) != Redraw(Run(c, cols, 0, ops))
            && !Safe(TrackRun(h, cols, ops + [Present]))
            && Flush(Run(c, cols, 0, ops + [Present])) != Redraw(Run(c, cols, 0, ops + [Present]))
  {
    var w := [Write(h - 1, x, cell)];
    var ops := w + [ScrollOne];
    BottomTrack(h, cols, x, cell);
    TellsFrom(h, cols, [], w[0], 0);
    assert [] + [w[0]] == w;
    TellsFrom(h, cols, w, ScrollOne, cell);
    WrongThere(h, cols, ops, cell);
    TellsFrom(h, cols, ops, Present, cell);
    WrongThere(h, cols, ops + [Present], cell);
  }

  lemma {:induction false} BottomTrack(h: nat, cols: nat, x: nat, cell: Cell)
    requires 1 < h && x < cols
    ensures var ops := [Write(h - 1, x, cell)] + [ScrollOne];
            !Safe(TrackRun(h, cols, ops)) && !Safe(TrackRun(h, cols, ops + [Present]))
  {
    var w := Write(h - 1, x, cell);
    TrackExtends(h, cols, [], w);
    TrackExtends(h, cols, [w], ScrollOne);
    TrackExtends(h, cols, [w] + [ScrollOne], Present);
    assert [] + [w] == [w];
    var u := TrackRun(h, cols, [w] + [ScrollOne]);
    assert u.stale[h - 2] && !u.dirty[h - 2] && u.pending == 1 && !u.all;
    var v := TrackOp(u, cols, Present);
    assert !Redrawn(u, h - 2) && v.stale[h - 2] && !v.dirty[h - 2];
  }

  /** One more operation on the blank screen's run keeps it telling. */
  lemma {:induction false} TellsFrom(h: nat, cols: nat, ops: seq<Op>, op: Op, n: nat)
    requires 1 < h && (ops == [] || Telling(Run(BlankScreen(h, cols), cols, 0, ops), TrackRun(h, cols, ops), n))
    requires op.Write? ==> n < op.cell
    ensures Telling(Run(BlankScreen(h, cols), cols, 0, ops + [op]), TrackRun(h, cols, ops + [op]), if op.Write? then op.cell else n)
  {
    var c := BlankScreen(h, cols);
    RunIsTracked(c, cols, 0, ops);
    RunIsTracked(c, cols, 0, ops + [op]);
    TrackExtends(h, cols, ops, op);
    assert (ops + [op])[..|ops|] == ops;
    if ops == [] { LabelledRunTells(c, cols, ops); StillTelling(c, Clean(h), 0, n); }
    TellingStep(Run(c, cols, 0, ops), cols, TrackRun(h, cols, ops), op, n);
  }

  lemma {:induction false} WrongThere(h: nat, cols: nat, ops: seq<Op>, n: nat)
    requires 1 < h && Telling(Run(BlankScreen(h, cols), cols, 0, ops), TrackRun(h, cols, ops), n) && !Safe(TrackRun(h, cols, ops))
    ensures Flush(Run(BlankScreen(h, cols), cols, 0, ops)) != Redraw(Run(BlankScreen(h, cols), cols, 0, ops))
  {
    RunIsTracked(BlankScreen(h, cols), cols, 0, ops);
    UnsafeFlushIsWrong(Run(BlankScreen(h, cols), cols, 0, ops), TrackRun(h, cols, ops), n);
  }

  lemma {:induction false} TrackExtends(h: nat, cols: nat, ops: seq<Op>, op: Op)
    ensures TrackRun(h, cols, ops + [op]) == TrackOp(TrackRun(h, cols, ops), cols, op)
  {
    assert (ops + [op])[..|ops + [op]| - 1] == ops;
  }

  /** Every scroll finds the dirty rows only among those the next flush redraws
      anyway. */
  predicate GuardedScrolls(h: nat, cols: nat, ops: seq<Op>) {
    forall i :: 0 <= i < |ops| && ops[i].ScrollOne? ==>
      var t := TrackRun(h, cols, ops[..i]);
      t.all || forall y :: 0 <= y < h && t.dirty[y] ==> y >= h - t.pending
  }

  /** That discipline is enough for every flush to be right, since what is guarded
      to the end is guarded up to each flush. */
  lemma {:induction false} GuardedScrollsAreSafe(h: nat, cols: nat, ops: seq<Op>)
    requires GuardedScrolls(h, cols, ops)
    ensures forall i :: 0 <= i <= |ops| ==> Safe(TrackRun(h, cols, ops[..i]))
  {
    forall i | 0 <= i <= |ops| ensures Safe(TrackRun(h, cols, ops[..i])) {
      assert forall j :: 0 <= j < i ==> ops[..i][..j] == ops[..j] && ops[..i][j] == ops[j];
      GuardedEndIsSafe(h, cols, ops[..i]);
    }
  }

  lemma {:induction false} GuardedEndIsSafe(h: nat, cols: nat, ops: seq<Op>)
    requires GuardedScrolls(h, cols, ops)
    ensures Safe(TrackRun(h, cols, ops))
    decreases |ops|
  {
    if ops != [] {
      var init, op := ops[..|ops| - 1], ops[|ops| - 1];
      assert forall i :: 0 <= i < |init| ==> init[..i] == ops[..i] && init[i] == ops[i];
      GuardedEndIsSafe(h, cols, init);
      if op.ScrollOne? { assert ops[..|init|] == init; }
      SafeStep(TrackRun(h, cols, init), cols, op);
    }
  }

  /** A scroll keeps a screen safe when no mark is left behind above. */
  lemma {:induction false} SafeStep(t: Track, cols: nat, op: Op)
    requires |t.dirty| == |t.stale| && Safe(t)
    requires op.ScrollOne? ==> t.all || forall y :: 0 <= y < |t.dirty| && t.dirty[y] ==> y >= |t.dirty| - t.pending
    ensures |TrackOp(t, cols, op).dirty| == |TrackOp(t, cols, op).stale| && Safe(TrackOp(t, cols, op))
  {}
}
