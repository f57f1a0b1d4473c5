/** The framebuffer console's working storage (kernel/drivers/vga.c): the rotating
    row buffer, its shadow picture, the marks for deferred presentation and the
    scrollback ring, updated in place. Every method is tied to the functions of
    module Console. */
module TextConsole {
  import opened Console
  import Arith

  const PRESENT_CELL_BUDGET: nat := 512
  const PRESENT_MAX_DIRTY_ROWS: nat := 8
  const PRESENT_MIN_HEAVY_TICKS: nat := 100
  const BUDGET_CEILING: nat := 0xfffffff0
  const WORD32: nat := 0x1_0000_0000
  const WORD64: nat := 0x1_0000_0000_0000_0000

  // ----- Scrollback --------------------------------------------------------

  function LastOf(s: seq<Row>, n: nat): (r: seq<Row>)
    ensures |r| == if |s| <= n then |s| else n
  {
    if |s| <= n then s else s[|s| - n..]
  }

  /** Keeping the last lines one push at a time keeps the last lines of all. */
  lemma {:induction false} LastOfLast(s: seq<Row>, line: Row, n: nat)
    ensures LastOf(LastOf(s, n) + [line], n) == LastOf(s + [line], n)
  {
    if |s| > n {
      assert LastOf(s, n) + [line] == (s + [line])[|s| - n..];
    }
  }

  /** An index below twice the size, brought back into range. */
  function Wrap(i: nat, n: nat): (r: nat)
    requires i < 2 * n
    ensures r < n
  {
    if i < n then i else i - n
  }

  lemma {:induction false} WrapIsRemainder(i: nat, n: nat)
    requires i < 2 * n
    ensures i % n == Wrap(i, n)
  {
    if i < n { Arith.DivUnique(i, n, 0, i); } else { Arith.DivUnique(i, n, 1, i - n); }
  }

  /** The lines a ring holds, oldest first. */
  function RingLines(lines: seq<Row>, start: nat, count: nat): (r: seq<Row>)
    requires count <= |lines| && (start < |lines| || count == 0)
    ensures |r| == count
  {
    seq(count, i requires 0 <= i < count => lines[Wrap(start + i, |lines|)])
  }

  lemma {:induction false} RingGrows(lines: seq<Row>, start: nat, count: nat, line: Row)
    requires start < |lines| && count < |lines|
    ensures RingLines(lines[Wrap(start + count, |lines|) := line], start, count + 1) == RingLines(lines, start, count) + [line]
  {
    var n, after := |lines|, RingLines(lines[Wrap(start + count, |lines|) := line], start, count + 1);
    forall i | 0 <= i < count ensures after[i] == RingLines(lines, start, count)[i] {
      assert Wrap(start + i, n) != Wrap(start + count, n);
    }
  }

  lemma {:induction false} RingTurns(lines: seq<Row>, start: nat, line: Row)
    requires start < |lines|
    ensures RingLines(lines[start := line], Wrap(start + 1, |lines|), |lines|) == RingLines(lines, start, |lines|)[1..] + [line]
  {
    var n := |lines|;
    var before, after := RingLines(lines, start, n), RingLines(lines[start := line], Wrap(start + 1, n), n);
    forall i | 0 <= i < n - 1 ensures after[i] == before[i + 1] {
      assert Wrap(Wrap(start + 1, n) + i, n) == Wrap(start + (i + 1), n) != start;
    }
    assert Wrap(Wrap(start + 1, n) + (n - 1), n) == start;
    assert after == before[1..] + [line];
  }

  class Scrollback {
    const lines: array<Row>
    var start: nat
    var count: nat

    ghost predicate Valid()
      reads this
    {
      count <= lines.Length && (start < lines.Length || (lines.Length == 0 && start == 0))
    }

    ghost function Contents(): seq<Row>
      requires Valid()
      reads this, lines
    {
      RingLines(lines[..], start, count)
    }

    constructor (capacity: nat)
      ensures Valid() && fresh(lines) && lines.Length == capacity && Contents() == []
    {
      lines := new Row[capacity](_ => []);
      start, count := 0, 0;
    }

    /** history_push_line. */
    method Push(line: Row)
      requires Valid()
      modifies this, lines
      ensures Valid() && Contents() == LastOf(old(Contents()) + [line], lines.Length)
    {
      if lines.Length == 0 {
        return;
      }
      if count < lines.Length {
        Append(line);
      } else {
        Replace(line);
      }
    }

    method Append(line: Row)
      requires Valid() && count < lines.Length
      modifies this`count, lines
      ensures Valid() && Contents() == old(Contents()) + [line]
    {
      ghost var was := lines[..];
      WrapIsRemainder(start + count, lines.Length);
      RingGrows(was, start, count, line);
      var pos := (start + count) % lines.Length;
      lines[pos] := line;
      assert lines[..] == was[pos := line];
      count := count + 1;
    }

    method Replace(line: Row)
      requires Valid() && 0 < count == lines.Length
      modifies this`start, lines
      ensures Valid() && Contents() == old(Contents())[1..] + [line]
    {
      ghost var was := lines[..];
      WrapIsRemainder(start + 1, lines.Length);
      RingTurns(was, start, line);
      var pos := start;
      lines[pos] := line;
      assert lines[..] == was[pos := line];
      start := (start + 1) % lines.Length;
    }

    /** history_line_at; nothing when there is no such line. */
    method LineAt(i: nat) returns (found: bool, line: Row)
      requires Valid()
      ensures found == (i < count)
      ensures found ==> line == Contents()[i]
    {
      found, line := false, [];
      if lines.Length != 0 && i < count {
        WrapIsRemainder(start + i, lines.Length);
        found, line := true, lines[(start + i) % lines.Length];
      }
    }
  }

  // ----- The whole text ----------------------------------------------------

  /** Everything the console remembers: history, then the live rows. */
  function Text(history: seq<Row>, c: Screen): (r: seq<Row>)
    requires c.start < |c.cells|
    ensures |r| == |history| + |c.cells|
  {
    history + LiveRows(c)
  }

  /** The first text line a view scrolled back by `offset` shows. */
  function ViewStart(history: seq<Row>, offset: nat): (s: nat)
    ensures s <= |history|
  {
    if offset > |history| then 0 else |history| - offset
  }

  function ViewRows(history: seq<Row>, c: Screen, offset: nat): (r: seq<Row>)
    requires c.start < |c.cells|
    ensures |r| == |c.cells|
  {
    Text(history, c)[ViewStart(history, offset)..ViewStart(history, offset) + |c.cells|]
  }

  /** vga_scroll_view's new offset: no further back than there are lines. */
  function Paged(offset: nat, lines: nat, delta: int): (r: nat)
    ensures offset <= lines ==> r <= lines
  {
    if delta >= 0 then (if offset + delta > lines then lines else offset + delta)
    else if offset > -delta then offset + delta else 0
  }

  /** A scroll loses no line but the oldest, and that only when the history is
      full: history and live rows together are the last lines of what was there
      followed by a blank one. */
  lemma {:induction false} ScrollKeepsText(history: seq<Row>, capacity: nat, c: Screen, cols: nat, blank: Cell)
    requires Shape(c, cols) && |history| <= capacity
    ensures Scroll(c, cols, blank).start < |c.cells| == |Scroll(c, cols, blank).cells|
    ensures Text(LastOf(history + [Live(c, 0)], capacity), Scroll(c, cols, blank)) ==
            LastOf(Text(history, c) + [Blank(cols, blank)], capacity + |c.cells|)
  {
    ScrollMovesRows(c, cols, blank);
    KeepsLastLines(history, LiveRows(c), Blank(cols, blank), capacity);
  }

  lemma {:induction false} KeepsLastLines(history: seq<Row>, live: seq<Row>, last: Row, capacity: nat)
    requires |history| <= capacity && live != []
    ensures LastOf(history + [live[0]], capacity) + (live[1..] + [last]) == LastOf(history + live + [last], capacity + |live|)
  {
    var all := history + live + [last];
    assert live == [live[0]] + live[1..];
    assert all == (history + [live[0]]) + (live[1..] + [last]);
    if |history| == capacity { DropsFirst(history + [live[0]], live[1..] + [last]); }
  }

  lemma {:induction false} DropsFirst(a: seq<Row>, b: seq<Row>)
    requires a != []
    ensures (a + b)[1..] == a[1..] + b
  {}

  /** The view is the lines of the text from line `s` on. */
  predicate ShowsFrom(view: seq<Row>, text: seq<Row>, s: nat) {
    s + |view| <= |text| && view == text[s..s + |view|]
  }

  /** A view scrolled back into the history is not held still by a scroll: full
      or not, it moves on by exactly one line. */
  lemma {:induction false} ScrollMovesView(history: seq<Row>, capacity: nat, c: Screen, cols: nat, blank: Cell, offset: nat)
    requires Shape(c, cols) && |history| <= capacity && offset <= |history|
    ensures Scroll(c, cols, blank).start < |c.cells| == |Scroll(c, cols, blank).cells|
    ensures ShowsFrom(ViewRows(LastOf(history + [Live(c, 0)], capacity), Scroll(c, cols, blank), offset),
                      Text(history, c) + [Blank(cols, blank)], ViewStart(history, offset) + 1)
  {
    ScrollKeepsText(history, capacity, c, cols, blank);
    ViewMoves(Text(history, c) + [Blank(cols, blank)], |history|, capacity, LastOf(history + [Live(c, 0)], capacity), Scroll(c, cols, blank), offset);
  }

  lemma {:induction false} ViewMoves(all: seq<Row>, lines: nat, capacity: nat, kept: seq<Row>, d: Screen, offset: nat)
    requires d.start < |d.cells| && |all| == lines + |d.cells| + 1 && offset <= lines <= capacity
    requires |kept| == (if lines < capacity then lines + 1 else capacity) && Text(kept, d) == LastOf(all, capacity + |d.cells|)
    ensures ShowsFrom(ViewRows(kept, d, offset), all, lines - offset + 1)
  {
    var text, from := Text(kept, d), ViewStart(kept, offset);
    ViewOfText(kept, d, offset, text);
    WindowMoves(all, text, lines, |d.cells|, capacity, lines - offset, from);
  }

  lemma {:induction false} ViewOfText(history: seq<Row>, c: Screen, offset: nat, text: seq<Row>)
    requires c.start < |c.cells| && text == Text(history, c)
    ensures ViewStart(history, offset) + |c.cells| <= |text|
    ensures ViewRows(history, c, offset) == text[ViewStart(history, offset)..ViewStart(history, offset) + |c.cells|]
  {}

  lemma {:induction false} WindowMoves(all: seq<Row>, text: seq<Row>, lines: nat, h: nat, capacity: nat, s: nat, from: nat)
    requires |all| == lines + h + 1 && s <= lines <= capacity && text == LastOf(all, capacity + h)
    requires from == if lines == capacity then s else s + 1
    ensures from + h <= |text| && ShowsFrom(text[from..from + h], all, s + 1)
  {}

  // ----- When a presentation is due ----------------------------------------

  function CountMarks(dirty: seq<bool>): (n: nat)
    ensures n <= |dirty|
    ensures n == 0 <==> forall y :: 0 <= y < |dirty| ==> !dirty[y]
  {
    if dirty == [] then 0
    else
      assert forall y :: 0 <= y < |dirty| - 1 ==> dirty[..|dirty| - 1][y] == dirty[y];
      CountMarks(dirty[..|dirty| - 1]) + if dirty[|dirty| - 1] then 1 else 0
  }

  /** fb_dirty_row_count. */
  function DirtyRows(c: Screen): nat {
    if c.pending != 0 || c.all then |c.cells| else CountMarks(c.dirty)
  }

  function Elapsed(now: nat, last: nat): nat {
    (now - last) % WORD64
  }

  /** Whether fb_present_dirty draws. */
  predicate Due(c: Screen, budget: nat, last: nat, force: bool, now: nat) {
    && HasDirty(c)
    && (force || (c.pending == 0 &&
        ((c.all || DirtyRows(c) > PRESENT_MAX_DIRTY_ROWS || budget > PRESENT_CELL_BUDGET) ==>
          Elapsed(now, last) >= PRESENT_MIN_HEAVY_TICKS)))
  }

  /** What it draws: the live rows in full when scrolled back, else a flush. */
  function Presented(c: Screen, offset: nat): Screen
    requires c.start < |c.cells| == |c.shadow| == |c.dirty| && c.pending <= |c.cells|
  {
    if offset != 0 then Redraw(c) else Flush(c)
  }

  function Spend(budget: nat, cols: nat): nat {
    if budget < BUDGET_CEILING then (budget + cols) % WORD32 else budget
  }

  /** The live rows depend on the row buffer alone. */
  lemma {:induction false} SameRows(c: Screen, d: Screen)
    requires c.cells == d.cells && c.start == d.start < |c.cells|
    ensures LiveRows(c) == LiveRows(d)
  {
    assert forall y :: 0 <= y < |c.cells| ==> LiveRows(c)[y] == Live(c, y) == Live(d, y) == LiveRows(d)[y];
  }

  /** Drawing the view changes neither the rows nor what the view should be. */
  lemma {:induction false} ViewAfterRender(history: seq<Row>, s: Screen, turned: Screen, drawn: Screen, offset: nat)
    requires s.cells == turned.cells == drawn.cells && s.start == turned.start == drawn.start < |s.cells|
    requires drawn.shadow == ViewRows(history, turned, offset)
    ensures LiveRows(drawn) == LiveRows(s) && drawn.shadow == ViewRows(history, drawn, offset)
  {
    SameRows(drawn, s);
    SameRows(drawn, turned);
  }

  /** The marks after one more scroll. */
  function MarkScrolled(c: Screen): Screen
    requires 1 < |c.cells| == |c.dirty|
  {
    var marked := if c.pending < |c.cells| then c.(pending := c.pending + 1) else MarkAll(c);
    marked.(dirty := c.dirty[|c.cells| - 1 := true])
  }

  function ScrollBudget(c: Screen, budget: nat, cols: nat): nat {
    Spend(if c.pending < |c.cells| then budget else (cols * |c.cells|) % WORD32, cols)
  }

  class Terminal {
    const cols: nat
    const cells: array<Row>
    const shadow: array<Row>
    const dirty: array<bool>
    const history: Scrollback
    var start: nat
    var all: bool
    var pending: nat
    var budget: nat
    var offset: nat
    var last: nat

    ghost predicate Valid()
      reads this, cells, history
    {
      && 1 < cells.Length == shadow.Length == dirty.Length
      && cells != shadow && history.lines != cells && history.lines != shadow
      && start < cells.Length && pending <= cells.Length
      && (forall y :: 0 <= y < cells.Length ==> |cells[y]| == cols)
      && history.Valid()
    }

    ghost function View(): (c: Screen)
      requires Valid()
      reads this, cells, shadow, dirty, history
      ensures Shape(c, cols) && |c.cells| == cells.Length
    {
      Screen(cells[..], start, shadow[..], dirty[..], all, pending)
    }

    /** The live rows; unlike the view, this does not look at the picture. */
    ghost function Rows(): (r: seq<Row>)
      requires Valid()
      reads this, cells, history
      ensures |r| == cells.Length
    {
      LiveRows(Screen(cells[..], start, [], [], false, 0))
    }

    lemma {:induction false} RowsAreLive()
      requires Valid()
      ensures Rows() == LiveRows(View())
    {
      assert forall y :: 0 <= y < cells.Length ==> Rows()[y] == Live(View(), y);
    }

    /** A blank console with everything drawn and no history. */
    constructor (rows: nat, width: nat, capacity: nat, blank: Cell)
      requires 1 < rows
      ensures Valid() && cells.Length == rows && cols == width && history.lines.Length == capacity
      ensures fresh(cells) && fresh(shadow) && fresh(dirty) && fresh(history) && fresh(history.lines)
      ensures history.Contents() == [] && offset == 0
      ensures LiveRows(View()) == seq(rows, _ => Blank(width, blank))
      ensures Synced(View()) && !HasDirty(View())
    {
      cols := width;
      cells := new Row[rows](_ => Blank(width, blank));
      shadow := new Row[rows](_ => Blank(width, blank));
      dirty := new bool[rows](_ => false);
      history := new Scrollback(capacity);
      start, all, pending, budget, offset, last := 0, false, 0, 0, 0, 0;
    }

    /** fb_mark_dirty_row. */
    method MarkRow(y: nat)
      requires Valid()
      modifies this`budget, dirty
      ensures Valid()
      ensures View() == old(View()).(dirty := if y < dirty.Length then old(View()).dirty[y := true] else old(View()).dirty)
      ensures budget == if y < dirty.Length then Spend(old(budget), cols) else old(budget)
    {
      if y < dirty.Length {
        dirty[y] := true;
        budget := Spend(budget, cols);
      }
    }

    /** live_set_cell. */
    method SetCell(y: nat, x: nat, cell: Cell)
      requires Valid()
      modifies this`budget, cells, dirty
      ensures Valid() && View() == Console.SetCell(old(View()), y, x, cell)
    {
      if y >= cells.Length || x >= cols {
        return;
      }
      var p := if start + y >= cells.Length then start + y - cells.Length else start + y;
      cells[p] := cells[p][x := cell];
      MarkRow(y);
    }

    /** clear_live_screen. */
    method Clear(blank: Cell)
      requires Valid()
      modifies this`start, this`all, this`pending, this`budget, cells
      ensures Valid() && View() == ClearScreen(old(View()), cols, blank)
    {
      start := 0;
      for y := 0 to cells.Length
        invariant start == 0 && Valid()
        invariant forall z :: 0 <= z < y ==> cells[z] == Blank(cols, blank)
      {
        cells[y] := Blank(cols, blank);
      }
      all, pending, budget := true, 0, (cols * cells.Length) % WORD32;
      assert cells[..] == seq(cells.Length, _ => Blank(cols, blank));
    }

    /** fb_scroll_shadow_rows. */
    method ScrollShadow(rows: nat, blank: Cell)
      requires Valid() && 0 < rows < shadow.Length
      modifies shadow
      ensures Valid()
      ensures forall y :: 0 <= y < shadow.Length - rows ==> shadow[y] == old(shadow[y + rows])
      ensures forall y :: shadow.Length - rows <= y < shadow.Length ==> shadow[y] == Blank(cols, blank)
    {
      MoveShadowUp(rows);
      BlankShadow(shadow.Length - rows, blank);
    }

    method MoveShadowUp(rows: nat)
      requires Valid() && 0 < rows < shadow.Length
      modifies shadow
      ensures Valid()
      ensures forall y :: 0 <= y < shadow.Length - rows ==> shadow[y] == old(shadow[y + rows])
    {
      for y := 0 to shadow.Length - rows
        invariant forall z :: 0 <= z < y ==> shadow[z] == old(shadow[z + rows])
        invariant forall z :: y <= z < shadow.Length ==> shadow[z] == old(shadow[z])
        invariant Valid()
      {
        shadow[y] := shadow[y + rows];
      }
    }

    method BlankShadow(from: nat, blank: Cell)
      requires Valid() && from <= shadow.Length
      modifies shadow
      ensures Valid()
      ensures forall y :: 0 <= y < from ==> shadow[y] == old(shadow[y])
      ensures forall y :: from <= y < shadow.Length ==> shadow[y] == Blank(cols, blank)
    {
      for y := from to shadow.Length
        invariant forall z :: 0 <= z < from ==> shadow[z] == old(shadow[z])
        invariant forall z :: from <= z < y ==> shadow[z] == Blank(cols, blank)
        invariant Valid()
      {
        shadow[y] := Blank(cols, blank);
      }
    }

    method LiveRow(y: nat) returns (r: Row)
      requires Valid() && y < cells.Length
      ensures r == Rows()[y]
    {
      r := cells[if start + y >= cells.Length then start + y - cells.Length else start + y];
    }

    /** Draws the live rows from `from` on. */
    method RenderFrom(from: nat)
      requires Valid() && from <= cells.Length
      modifies shadow
      ensures Valid()
      ensures forall y :: 0 <= y < from ==> shadow[y] == old(shadow[y])
      ensures forall y :: from <= y < cells.Length ==> shadow[y] == Rows()[y]
    {
      for y := from to cells.Length
        invariant Valid()
        invariant forall z :: 0 <= z < from ==> shadow[z] == old(shadow[z])
        invariant forall z :: from <= z < y ==> shadow[z] == Rows()[z]
      {
        var r := LiveRow(y);
        shadow[y] := r;
      }
    }

    method RenderDirty()
      requires Valid()
      modifies shadow
      ensures Valid()
      ensures forall y :: 0 <= y < cells.Length ==> shadow[y] == if dirty[y] then Rows()[y] else old(shadow[y])
    {
      for y := 0 to cells.Length
        invariant Valid()
        invariant forall z :: 0 <= z < y ==> shadow[z] == if dirty[z] then Rows()[z] else old(shadow[z])
        invariant forall z :: y <= z < cells.Length ==> shadow[z] == old(shadow[z])
      {
        if dirty[y] {
          var r := LiveRow(y);
          shadow[y] := r;
        }
      }
    }

    /** fb_dirty_row_count. */
    method CountDirty() returns (n: nat)
      requires Valid()
      ensures n == DirtyRows(View())
    {
      if pending != 0 || all {
        return cells.Length;
      }
      n := 0;
      for y := 0 to dirty.Length
        invariant n == CountMarks(dirty[..y])
      {
        assert dirty[..y + 1][..y] == dirty[..y];
        n := n + if dirty[y] then 1 else 0;
      }
      assert dirty[..dirty.Length] == dirty[..];
    }

    /** fb_dirty_reset. */
    method ResetDirty()
      requires Valid()
      modifies this`pending, this`all, this`budget, dirty
      ensures Valid()
      ensures View() == old(View()).(dirty := seq(dirty.Length, _ => false), all := false, pending := 0)
    {
      pending := 0;
      for y := 0 to dirty.Length
        invariant forall z :: 0 <= z < y ==> !dirty[z]
        invariant pending == 0
      {
        dirty[y] := false;
      }
      all, budget := false, 0;
      assert dirty[..] == seq(dirty.Length, _ => false);
    }

    /** The pending scrolls are done on the picture, then the rows that came in
        and the marked rows are drawn. */
    method DrawScrolled(blank: Cell)
      requires Valid() && 0 < pending < cells.Length
      modifies shadow
      ensures Valid()
      ensures forall y :: 0 <= y < cells.Length ==>
        shadow[y] == if y >= cells.Length - pending || dirty[y] then Rows()[y] else old(shadow[y + pending])
    {
      ScrollShadow(pending, blank);
      RenderFrom(cells.Length - pending);
      RenderDirty();
    }

    /** The drawing part of fb_present_dirty. */
    method DrawMarked(blank: Cell)
      requires Valid()
      modifies shadow
      ensures Valid()
      ensures shadow[..] == old(Presented(View(), offset)).shadow
    {
      ghost var c := View();
      RowsAreLive();
      assert forall y :: 0 <= y < cells.Length ==> Rows()[y] == Live(c, y);
      if all || offset != 0 || pending >= cells.Length {
        RenderFrom(0);
      } else if pending != 0 {
        DrawScrolled(blank);
      } else {
        RenderDirty();
      }
      assert forall y :: 0 <= y < cells.Length && offset == 0 ==> shadow[y] == FlushedRow(c, y);
    }

    /** fb_present_dirty: draws exactly when due, and then every mark is gone. */
    method PresentDirty(force: bool, now: nat, blank: Cell) returns (drawn: bool)
      requires Valid()
      modifies this`pending, this`all, this`budget, this`last, shadow, dirty
      ensures Valid()
      ensures drawn == old(Due(View(), budget, last, force, now))
      ensures View() == if drawn then old(Presented(View(), offset)) else old(View())
      ensures drawn ==> !HasDirty(View()) && last == now
    {
      drawn := false;
      var rows := CountDirty();
      var marked := pending != 0 || all || rows != 0;
      if !marked {
        return;
      }
      var scrollHeavy := pending != 0;
      var heavy := scrollHeavy || all || rows > PRESENT_MAX_DIRTY_ROWS || budget > PRESENT_CELL_BUDGET;
      if !force && scrollHeavy {
        return;
      }
      if !force && heavy && Elapsed(now, last) < PRESENT_MIN_HEAVY_TICKS {
        return;
      }
      DrawMarked(blank);
      ResetDirty();
      last := now;
      drawn := true;
    }

    /** Line `i` of the history and the live rows together. */
    method TextLine(i: nat) returns (line: Row)
      requires Valid() && i < history.count + cells.Length
      ensures line == (history.Contents() + Rows())[i]
    {
      if i < history.count {
        var _, l := history.LineAt(i);
        line := l;
      } else {
        line := LiveRow(i - history.count);
      }
    }

    /** The rows of the picture from line `first` of the text on. */
    method DrawWindow(first: nat)
      requires Valid() && first <= history.count
      modifies shadow
      ensures Valid() && shadow[..] == (history.Contents() + Rows())[first..first + cells.Length]
    {
      ghost var text := history.Contents() + Rows();
      for y := 0 to cells.Length
        invariant Valid() && history.Contents() + Rows() == text
        invariant forall z :: 0 <= z < y ==> shadow[z] == text[first + z]
      {
        var line := TextLine(first + y);
        shadow[y] := line;
      }
    }

    /** render_view: the window of the text that the scroll offset selects. */
    method RenderView(now: nat)
      requires Valid()
      modifies this`pending, this`all, this`budget, this`last, shadow, dirty
      ensures Valid() && !HasDirty(View())
      ensures View() == old(View()).(shadow := old(ViewRows(history.Contents(), View(), offset)),
                                     dirty := seq(dirty.Length, _ => false), all := false, pending := 0)
    {
      var count := history.count;
      RowsAreLive();
      DrawWindow(if offset > count then 0 else count - offset);
      ResetDirty();
      last := now;
    }

    /** vga_scroll_view: the view moves back or forward and is drawn again. */
    method ScrollView(delta: int, now: nat)
      requires Valid()
      modifies this`offset, this`pending, this`all, this`budget, this`last, shadow, dirty
      ensures Valid() && history.Contents() == old(history.Contents())
      ensures delta == 0 ==> offset == old(offset) && View() == old(View())
      ensures delta != 0 ==>
        && offset == Paged(old(offset), |history.Contents()|, delta)
        && View() == Redraw(old(View())).(shadow := ViewRows(history.Contents(), old(View()), offset))
    {
      if delta == 0 {
        return;
      }
      if delta > 0 {
        ViewFrom(if offset + delta > history.count then history.count else offset + delta, now);
      } else {
        ViewFrom(if offset > -delta then offset + delta else 0, now);
      }
    }

    /** The view is set and drawn. */
    method ViewFrom(back: nat, now: nat)
      requires Valid()
      modifies this`offset, this`pending, this`all, this`budget, this`last, shadow, dirty
      ensures Valid() && offset == back && history.Contents() == old(history.Contents())
      ensures View() == Redraw(old(View())).(shadow := ViewRows(history.Contents(), old(View()), back))
    {
      offset := back;
      RenderView(now);
    }

    /** ensure_live_view. */
    method EnsureLiveView(now: nat)
      requires Valid()
      modifies this`offset, this`pending, this`all, this`budget, this`last, shadow, dirty
      ensures Valid() && offset == 0 && history.Contents() == old(history.Contents())
      ensures View() == if old(offset) == 0 then old(View()) else Redraw(old(View())).(shadow := ViewRows(history.Contents(), old(View()), 0))
    {
      if offset != 0 {
        ViewFrom(0, now);
      }
    }

    /** The row buffer's part of scroll_live_one. */
    method TurnRows(blank: Cell)
      requires Valid()
      modifies this`start, cells
      ensures Valid()
      ensures var s := Scroll(old(View()), cols, blank);
              View() == old(View()).(cells := s.cells, start := s.start)
    {
      Turn(View());
      start := (start + 1) % cells.Length;
      var p := if start + (cells.Length - 1) >= cells.Length then start - 1 else start + (cells.Length - 1);
      cells[p] := Blank(cols, blank);
    }

    /** The marks that scroll_live_one leaves in the live view. */
    method MarkScroll()
      requires Valid()
      modifies this`pending, this`all, this`budget, dirty
      ensures Valid()
      ensures View() == MarkScrolled(old(View()))
      ensures budget == ScrollBudget(old(View()), old(budget), cols)
    {
      if pending < cells.Length {
        pending := pending + 1;
      } else {
        all, pending, budget := true, 0, (cols * cells.Length) % WORD32;
      }
      MarkRow(cells.Length - 1);
    }

    /** scroll_live_one in the live view: the top row joins the history, the
        scroll is marked, and outside a batch the marks are presented when due. */
    method ScrollInView(blank: Cell, batched: bool, now: nat)
      requires Valid() && offset == 0
      modifies this`start, this`pending, this`all, this`budget, this`last, cells, shadow, dirty, history, history.lines
      ensures Valid()
      ensures history.Contents() == LastOf(old(history.Contents()) + [old(Live(View(), 0))], history.lines.Length)
      ensures var s := Scroll(old(View()), cols, blank);
              View() == if !batched && Due(s, ScrollBudget(old(View()), old(budget), cols), old(last), false, now) then Flush(s) else s
    {
      ghost var c := View();
      PushAndTurn(blank);
      MarkScroll();
      assert View() == Scroll(c, cols, blank);
      if !batched {
        var _ := PresentDirty(false, now, blank);
      }
    }

    /** The top row goes to the history and the rows turn. */
    method PushAndTurn(blank: Cell)
      requires Valid()
      modifies this`start, cells, history, history.lines
      ensures Valid()
      ensures history.Contents() == LastOf(old(history.Contents()) + [old(Live(View(), 0))], history.lines.Length)
      ensures var s := Scroll(old(View()), cols, blank);
              View() == old(View()).(cells := s.cells, start := s.start)
    {
      PushTop();
      TurnRows(blank);
    }

    /** scroll_live_one while scrolled back: the view is drawn again. */
    method ScrollBehindView(blank: Cell, now: nat)
      requires Valid() && offset != 0
      modifies this`start, this`pending, this`all, this`budget, this`last, cells, shadow, dirty, history, history.lines
      ensures Valid() && !HasDirty(View())
      ensures history.Contents() == LastOf(old(history.Contents()) + [old(Live(View(), 0))], history.lines.Length)
      ensures LiveRows(View()) == old(LiveRows(View()))[1..] + [Blank(cols, blank)]
      ensures View().shadow == ViewRows(history.Contents(), View(), offset)
    {
      ghost var s := Scroll(View(), cols, blank);
      ScrollMovesRows(View(), cols, blank);
      PushAndTurn(blank);
      ghost var turned := View();
      RenderView(now);
      ViewAfterRender(history.Contents(), s, turned, View(), offset);
    }

    /** The top row joins the history. */
    method PushTop()
      requires Valid()
      modifies history, history.lines
      ensures Valid() && View() == old(View())
      ensures history.Contents() == LastOf(old(history.Contents()) + [old(Live(View(), 0))], history.lines.Length)
    {
      RowsAreLive();
      var top := LiveRow(0);
      history.Push(top);
    }

    /** scroll_live_one. */
    method ScrollLiveOne(blank: Cell, batched: bool, now: nat)
      requires Valid()
      modifies this`start, this`pending, this`all, this`budget, this`last, cells, shadow, dirty, history, history.lines
      ensures Valid()
      ensures history.Contents() == LastOf(old(history.Contents()) + [old(Live(View(), 0))], history.lines.Length)
      ensures LiveRows(View()) == old(LiveRows(View()))[1..] + [Blank(cols, blank)]
      ensures old(offset) == 0 ==>
        var s := Scroll(old(View()), cols, blank);
        View() == if !batched && Due(s, ScrollBudget(old(View()), old(budget), cols), old(last), false, now) then Flush(s) else s
      ensures old(offset) != 0 ==> !HasDirty(View()) && View().shadow == ViewRows(history.Contents(), View(), offset)
    {
      if offset == 0 {
        ScrollMovesRows(View(), cols, blank);
        ghost var s := Scroll(View(), cols, blank);
        ScrollInView(blank, batched, now);
        SameRows(View(), s);
      } else {
        ScrollBehindView(blank, now);
      }
    }
  }
}
