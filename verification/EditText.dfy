/** The line editor's buffer (user/bin/nano.c) as a value, and the flat text with
    a cursor that it stands for. */
module EditText {

  /** Columns and rows of the fixed storage; a line also holds a terminator. */
  const LINE_MAX: nat := 512
  const LINES_MAX: nat := 1024

  type Line = string

  datatype Buffer = Buffer(
    lines: seq<Line>,
    cy: nat,
    cx: nat,
    finalNewline: bool,
    dirty: bool,
    clip: Line
  )

  predicate Fits(lines: seq<Line>) {
    |lines| <= LINES_MAX && forall i :: 0 <= i < |lines| ==> |lines[i]| < LINE_MAX
  }

  predicate Valid(b: Buffer) {
    && 0 < |b.lines| && Fits(b.lines) && |b.clip| < LINE_MAX
    && b.cy < |b.lines| && b.cx <= |b.lines[b.cy]|
  }

  // ----- The flat text -----------------------------------------------------

  /** Every line followed by a newline. */
  function Closed(lines: seq<Line>): string {
    if lines == [] then "" else Closed(lines[..|lines| - 1]) + lines[|lines| - 1] + "\n"
  }

  /** Every line preceded by a newline. */
  function Opened(lines: seq<Line>): string {
    if lines == [] then "" else "\n" + lines[0] + Opened(lines[1..])
  }

  /** The lines joined by newlines. */
  function Flat(lines: seq<Line>): string
    requires lines != []
  {
    lines[0] + Opened(lines[1..])
  }

  /** A flat text split at its cursor. */
  datatype Doc = Doc(before: string, after: string)

  function Abs(b: Buffer): Doc
    requires b.cy < |b.lines| && b.cx <= |b.lines[b.cy]|
  {
    Doc(Closed(b.lines[..b.cy]) + b.lines[b.cy][..b.cx], b.lines[b.cy][b.cx..] + Opened(b.lines[b.cy + 1..]))
  }

  lemma {:induction false} Regroup(a: string, b: string, c: string)
    ensures a + b + c == a + (b + c)
  {}

  lemma {:induction false} ClosedSnoc(a: seq<Line>, l: Line)
    ensures Closed(a + [l]) == Closed(a) + l + "\n"
  {
    assert (a + [l])[..|a + [l]| - 1] == a;
  }

  lemma {:induction false} OpenedCons(l: Line, a: seq<Line>)
    ensures Opened([l] + a) == "\n" + l + Opened(a)
  {
    assert ([l] + a)[1..] == a;
  }

  /** Joining is the same seen from either end. */
  lemma {:induction false} FlatSplits(lines: seq<Line>, y: nat)
    requires y < |lines|
    ensures Flat(lines) == Closed(lines[..y]) + lines[y] + Opened(lines[y + 1..])
    decreases y
  {
    if y == 0 {
      assert lines[..0] == [];
    } else {
      FlatSplits(lines, y - 1);
      assert lines[y..] == [lines[y]] + lines[y + 1..];
      OpenedCons(lines[y], lines[y + 1..]);
      assert lines[..y] == lines[..y - 1] + [lines[y - 1]];
      ClosedSnoc(lines[..y - 1], lines[y - 1]);
      var p, l, m, q := Closed(lines[..y - 1]), lines[y - 1], lines[y], Opened(lines[y + 1..]);
      assert p + l + ("\n" + m + q) == p + l + "\n" + m + q;
    }
  }

  /** The two halves make up the whole text. */
  lemma {:induction false} AbsIsFlat(b: Buffer)
    requires Valid(b)
    ensures Abs(b).before + Abs(b).after == Flat(b.lines)
  {
    FlatSplits(b.lines, b.cy);
    var l := b.lines[b.cy];
    assert l == l[..b.cx] + l[b.cx..];
    var p, q := Closed(b.lines[..b.cy]), Opened(b.lines[b.cy + 1..]);
    assert (p + l[..b.cx]) + (l[b.cx..] + q) == p + (l[..b.cx] + l[b.cx..]) + q;
  }

  // ----- The editing operations --------------------------------------------

  /** rn_clamp_cursor on a buffer that has lines. */
  function Clamp(b: Buffer): Buffer
    requires b.lines != []
  {
    var cy := if b.cy >= |b.lines| then |b.lines| - 1 else b.cy;
    b.(cy := cy, cx := if b.cx > |b.lines[cy]| then |b.lines[cy]| else b.cx)
  }

  function InsertChar(b: Buffer, c: char): Buffer
    requires Valid(b)
  {
    var l := b.lines[b.cy];
    if |l| + 1 >= LINE_MAX then b
    else b.(lines := b.lines[b.cy := l[..b.cx] + [c] + l[b.cx..]], cx := b.cx + 1, dirty := true)
  }

  function InsertMany(b: Buffer, c: char, n: nat): (r: Buffer)
    requires Valid(b)
    ensures Valid(r)
    decreases n
  {
    if n == 0 then b else InsertChar(InsertMany(b, c, n - 1), c)
  }

  /** A tab is four spaces. */
  function Type(b: Buffer, c: char): (r: Buffer)
    requires Valid(b)
    ensures Valid(r)
  {
    if c == '\t' then InsertMany(b, ' ', 4) else InsertChar(b, c)
  }

  function SplitAt(lines: seq<Line>, y: nat, x: nat): seq<Line>
    requires y < |lines| && x <= |lines[y]|
  {
    lines[..y] + [lines[y][..x], lines[y][x..]] + lines[y + 1..]
  }

  function Newline(b: Buffer): (r: Buffer)
    requires Valid(b)
  {
    if |b.lines| >= LINES_MAX then b
    else b.(lines := SplitAt(b.lines, b.cy, b.cx), cy := b.cy + 1, cx := 0, finalNewline := true, dirty := true)
  }

  /** Line `y + 1` moved to the end of line `y`. */
  function JoinAt(lines: seq<Line>, y: nat): seq<Line>
    requires y + 1 < |lines|
  {
    lines[..y] + [lines[y] + lines[y + 1]] + lines[y + 2..]
  }

  function Backspace(b: Buffer): (r: Buffer)
    requires Valid(b)
  {
    var l := b.lines[b.cy];
    if b.cx > 0 then
      b.(lines := b.lines[b.cy := l[..b.cx - 1] + l[b.cx..]], cx := b.cx - 1, dirty := true)
    else if b.cy == 0 then b
    else if |b.lines[b.cy - 1]| + |l| >= LINE_MAX then b
    else b.(lines := JoinAt(b.lines, b.cy - 1), cy := b.cy - 1, cx := |b.lines[b.cy - 1]|, dirty := true)
  }

  function Delete(b: Buffer): (r: Buffer)
    requires Valid(b)
  {
    var l := b.lines[b.cy];
    if b.cx < |l| then
      b.(lines := b.lines[b.cy := l[..b.cx] + l[b.cx + 1..]], dirty := true)
    else if b.cy + 1 >= |b.lines| then b
    else if |l| + |b.lines[b.cy + 1]| >= LINE_MAX then b
    else b.(lines := JoinAt(b.lines, b.cy), dirty := true)
  }

  /** Line `y` taken out; a lone line is emptied. */
  function RemoveLine(lines: seq<Line>, y: nat): (r: seq<Line>)
    requires y < |lines|
    ensures r != []
  {
    if |lines| > 1 then lines[..y] + lines[y + 1..] else [""]
  }

  function InsertLine(lines: seq<Line>, y: nat, l: Line): seq<Line>
    requires y <= |lines|
  {
    lines[..y] + [l] + lines[y..]
  }

  function Cut(b: Buffer): (r: Buffer)
    requires Valid(b)
  {
    var lines := RemoveLine(b.lines, b.cy);
    b.(lines := lines, cy := if b.cy >= |lines| then |lines| - 1 else b.cy, cx := 0, dirty := true, clip := b.lines[b.cy])
  }

  function Paste(b: Buffer): (r: Buffer)
    requires Valid(b)
  {
    if |b.lines| >= LINES_MAX then b
    else b.(lines := InsertLine(b.lines, b.cy + 1, b.clip), cy := b.cy + 1, cx := |b.clip|, dirty := true)
  }

  function Left(b: Buffer): Buffer
    requires Valid(b)
  {
    if b.cx > 0 then b.(cx := b.cx - 1)
    else if b.cy > 0 then b.(cy := b.cy - 1, cx := |b.lines[b.cy - 1]|)
    else b
  }

  function Right(b: Buffer): Buffer
    requires Valid(b)
  {
    if b.cx < |b.lines[b.cy]| then b.(cx := b.cx + 1)
    else if b.cy + 1 < |b.lines| then b.(cy := b.cy + 1, cx := 0)
    else b
  }

  /** The cursor moved to row `y`, its column cut to the row. */
  function ToRow(b: Buffer, y: nat): Buffer
    requires Valid(b)
  {
    Clamp(b.(cy := y))
  }

  datatype Key =
    | Char(c: char) | Enter | Back | Del | CutLine | PasteLine
    | GoLeft | GoRight | GoUp | GoDown | GoHome | GoEnd | PageUp(rows: nat) | PageDown(rows: nat)

  function Press(b: Buffer, key: Key): Buffer
    requires Valid(b)
  {
    match key
    case Char(c) => Type(b, c)
    case Enter => Newline(b)
    case Back => Backspace(b)
    case Del => Delete(b)
    case CutLine => Cut(b)
    case PasteLine => Paste(b)
    case GoLeft => Left(b)
    case GoRight => Right(b)
    case GoHome => b.(cx := 0)
    case GoEnd => b.(cx := |b.lines[b.cy]|)
    case _ => ToRow(b, TargetRow(b.cy, |b.lines|, key))
  }

  /** The row a vertical move aims for. */
  function TargetRow(cy: nat, count: nat, key: Key): nat
    requires 0 < count
  {
    if key.GoUp? then (if cy > 0 then cy - 1 else 0)
    else if key.GoDown? then (if cy + 1 < count then cy + 1 else cy)
    else if key.PageUp? then (if cy > key.rows then cy - key.rows else 0)
    else if key.PageDown? then (if cy + key.rows >= count then count - 1 else cy + key.rows)
    else cy
  }

  lemma {:induction false} CutValid(b: Buffer)
    requires Valid(b)
    ensures Valid(Cut(b))
  {}

  lemma {:induction false} PasteValid(b: Buffer)
    requires Valid(b)
    ensures Valid(Paste(b))
  {}

  lemma {:induction false} NewlineValid(b: Buffer)
    requires Valid(b)
    ensures Valid(Newline(b))
  {}

  lemma {:induction false} RemovalValid(b: Buffer)
    requires Valid(b)
    ensures Valid(Backspace(b)) && Valid(Delete(b))
  {}

  lemma {:induction false} PressValid(b: Buffer, key: Key)
    requires Valid(b)
    ensures Valid(Press(b, key))
  {
    match key
    case CutLine => CutValid(b);
    case PasteLine => PasteValid(b);
    case Enter => NewlineValid(b);
    case Back => RemovalValid(b);
    case Del => RemovalValid(b);
    case _ =>
  }

  // ----- What the flat text sees -------------------------------------------

  lemma {:induction false} InsertCharIsInsertion(b: Buffer, c: char)
    requires Valid(b) && |b.lines[b.cy]| + 1 < LINE_MAX
    ensures Valid(InsertChar(b, c))
    ensures Abs(InsertChar(b, c)) == Doc(Abs(b).before + [c], Abs(b).after)
  {
    var l, r := b.lines[b.cy], InsertChar(b, c);
    var l' := l[..b.cx] + [c] + l[b.cx..];
    assert r.lines[..b.cy] == b.lines[..b.cy] && r.lines[b.cy + 1..] == b.lines[b.cy + 1..];
    assert l'[..b.cx + 1] == l[..b.cx] + [c] && l'[b.cx + 1..] == l[b.cx..];
    Regroup(Closed(b.lines[..b.cy]), l[..b.cx], [c]);
  }

  lemma {:induction false} NewlineIsInsertion(b: Buffer)
    requires Valid(b) && |b.lines| < LINES_MAX
    ensures Valid(Newline(b))
    ensures Abs(Newline(b)) == Doc(Abs(b).before + "\n", Abs(b).after)
  {
    var l, r := b.lines[b.cy], Newline(b);
    assert r.lines[..b.cy + 1] == b.lines[..b.cy] + [l[..b.cx]];
    ClosedSnoc(b.lines[..b.cy], l[..b.cx]);
    assert r.lines[b.cy + 1] == l[b.cx..] && r.lines[b.cy + 2..] == b.lines[b.cy + 1..];
    assert Abs(r).before == Closed(r.lines[..b.cy + 1]) + "";
  }

  /** Joining two lines removes exactly the newline between them. */
  lemma {:induction false} JoinAtRemovesNewline(lines: seq<Line>, y: nat)
    requires y + 1 < |lines|
    ensures JoinAt(lines, y)[..y] == lines[..y] && JoinAt(lines, y)[y] == lines[y] + lines[y + 1]
    ensures JoinAt(lines, y)[y + 1..] == lines[y + 2..]
    ensures Opened(lines[y + 1..]) == "\n" + lines[y + 1] + Opened(lines[y + 2..])
    ensures Closed(lines[..y + 1]) == Closed(lines[..y]) + lines[y] + "\n"
  {
    assert lines[y + 1..] == [lines[y + 1]] + lines[y + 2..];
    OpenedCons(lines[y + 1], lines[y + 2..]);
    assert lines[..y + 1] == lines[..y] + [lines[y]];
    ClosedSnoc(lines[..y], lines[y]);
  }

  /** Backspace removes the character before the cursor, unless there is none or
      joining two lines would not fit; then nothing changes. */
  lemma {:induction false} BackspaceIsRemoval(b: Buffer)
    requires Valid(b)
    ensures Valid(Backspace(b))
    ensures Abs(b).before == "" <==> b.cy == 0 && b.cx == 0
    ensures if Abs(b).before == "" || (b.cx == 0 && |b.lines[b.cy - 1]| + |b.lines[b.cy]| >= LINE_MAX) then Backspace(b) == b
            else Abs(Backspace(b)) == Doc(Abs(b).before[..|Abs(b).before| - 1], Abs(b).after)
  {
    var l, r := b.lines[b.cy], Backspace(b);
    if b.cx > 0 {
      var l' := l[..b.cx - 1] + l[b.cx..];
      assert r.lines[..b.cy] == b.lines[..b.cy] && r.lines[b.cy + 1..] == b.lines[b.cy + 1..];
      assert l'[..b.cx - 1] == l[..b.cx - 1] && l'[b.cx - 1..] == l[b.cx..];
      assert Abs(r).before == Abs(b).before[..|Abs(b).before| - 1];
    } else if b.cy > 0 {
      BackspaceJoins(b);
    } else {
      assert b.lines[..0] == [];
    }
  }

  lemma {:induction false} BackspaceJoins(b: Buffer)
    requires Valid(b) && b.cx == 0 < b.cy
    ensures Valid(Backspace(b)) && Abs(b).before != ""
    ensures if |b.lines[b.cy - 1]| + |b.lines[b.cy]| >= LINE_MAX then Backspace(b) == b
            else Abs(Backspace(b)) == Doc(Abs(b).before[..|Abs(b).before| - 1], Abs(b).after)
  {
    var y := b.cy - 1;
    JoinAtRemovesNewline(b.lines, y);
    var r, p := Backspace(b), b.lines[y];
    assert Abs(b).before == Closed(b.lines[..y]) + p + "\n";
    if |p| + |b.lines[b.cy]| < LINE_MAX {
      var joined := p + b.lines[b.cy];
      assert joined[..|p|] == p && joined[|p|..] == b.lines[b.cy] == b.lines[b.cy][0..];
      assert Abs(r).before == Closed(b.lines[..y]) + p;
      assert Abs(r).after == b.lines[b.cy] + Opened(b.lines[b.cy + 1..]);
    }
  }

  /** Delete removes the character after the cursor, in the same way. */
  lemma {:induction false} DeleteIsRemoval(b: Buffer)
    requires Valid(b)
    ensures Valid(Delete(b))
    ensures Abs(b).after == "" <==> b.cy == |b.lines| - 1 && b.cx == |b.lines[b.cy]|
    ensures if Abs(b).after == "" || (b.cx == |b.lines[b.cy]| && |b.lines[b.cy]| + |b.lines[b.cy + 1]| >= LINE_MAX) then Delete(b) == b
            else Abs(Delete(b)) == Doc(Abs(b).before, Abs(b).after[1..])
  {
    var l, r := b.lines[b.cy], Delete(b);
    if b.cx < |l| {
      var l' := l[..b.cx] + l[b.cx + 1..];
      assert r.lines[..b.cy] == b.lines[..b.cy] && r.lines[b.cy + 1..] == b.lines[b.cy + 1..];
      assert l'[..b.cx] == l[..b.cx] && l'[b.cx..] == l[b.cx + 1..] == l[b.cx..][1..];
      assert Abs(r).after == Abs(b).after[1..];
    } else if b.cy + 1 < |b.lines| {
      DeleteJoins(b);
    } else {
      assert b.lines[b.cy + 1..] == [];
    }
  }

  lemma {:induction false} DeleteJoins(b: Buffer)
    requires Valid(b) && b.cx == |b.lines[b.cy]| && b.cy + 1 < |b.lines|
    ensures Valid(Delete(b)) && Abs(b).after != ""
    ensures if |b.lines[b.cy]| + |b.lines[b.cy + 1]| >= LINE_MAX then Delete(b) == b
            else Abs(Delete(b)) == Doc(Abs(b).before, Abs(b).after[1..])
  {
    var y := b.cy;
    JoinAtRemovesNewline(b.lines, y);
    AtLineEnd(b.lines[y], b.lines[y + 1], Opened(b.lines[y + 2..]));
    assert b.lines[y][..b.cx] == b.lines[y];
  }

  lemma {:induction false} AtLineEnd(l: Line, n: Line, rest: string)
    ensures l[|l|..] + ("\n" + n + rest) == "\n" + n + rest && ("\n" + n + rest)[1..] == n + rest
    ensures (l + n)[..|l|] == l && (l + n)[|l|..] == n
  {
    Regroup("\n", n, rest);
  }

  // ----- A flat text editor ------------------------------------------------

  datatype FlatKey = Insert(c: char) | RemoveBefore | RemoveAfter | Back1 | Forward1

  /** A flat text editor's own step; it never refuses, it only runs out of text. */
  function FlatPress(d: Doc, key: FlatKey): Doc {
    match key
    case Insert(c) => Doc(d.before + [c], d.after)
    case RemoveBefore => if d.before == "" then d else Doc(d.before[..|d.before| - 1], d.after)
    case RemoveAfter => if d.after == "" then d else Doc(d.before, d.after[1..])
    case Back1 => if d.before == "" then d else Doc(d.before[..|d.before| - 1], [d.before[|d.before| - 1]] + d.after)
    case Forward1 => if d.after == "" then d else Doc(d.before + [d.after[0]], d.after[1..])
  }

  function FlatRun(d: Doc, keys: seq<FlatKey>): Doc
    decreases |keys|
  {
    if keys == [] then d else FlatPress(FlatRun(d, keys[..|keys| - 1]), keys[|keys| - 1])
  }

  lemma {:induction false} FlatRunConcat(d: Doc, a: seq<FlatKey>, b: seq<FlatKey>)
    ensures FlatRun(d, a + b) == FlatRun(FlatRun(d, a), b)
    decreases |b|
  {
    if b == [] {
      assert a + b == a;
    } else {
      FlatRunConcat(d, a, b[..|b| - 1]);
      assert (a + b)[..|a + b| - 1] == a + b[..|b| - 1];
    }
  }

  function Times(key: FlatKey, n: nat): (r: seq<FlatKey>)
    ensures |r| == n
  {
    seq(n, _ => key)
  }

  lemma {:induction false} StepBack(d: Doc, n: nat)
    requires n <= |d.before|
    ensures FlatRun(d, Times(Back1, n)) == Doc(d.before[..|d.before| - n], d.before[|d.before| - n..] + d.after)
  {
    if n == 0 {
      assert d.before[|d.before|..] + d.after == d.after;
    } else {
      StepBack(d, n - 1);
      assert Times(Back1, n)[..n - 1] == Times(Back1, n - 1);
      BackAgain(d, |d.before| - n);
    }
  }

  lemma {:induction false} BackAgain(d: Doc, k: nat)
    requires k < |d.before|
    ensures FlatPress(Doc(d.before[..k + 1], d.before[k + 1..] + d.after), Back1) == Doc(d.before[..k], d.before[k..] + d.after)
  {
    assert d.before[k..] == [d.before[k]] + d.before[k + 1..];
    assert d.before[..k + 1][..k] == d.before[..k];
  }

  lemma {:induction false} StepForward(d: Doc, n: nat)
    requires n <= |d.after|
    ensures FlatRun(d, Times(Forward1, n)) == Doc(d.before + d.after[..n], d.after[n..])
  {
    if n == 0 {
      assert d.before + d.after[..0] == d.before;
    } else {
      StepForward(d, n - 1);
      assert Times(Forward1, n)[..n - 1] == Times(Forward1, n - 1);
      assert d.after[..n] == d.after[..n - 1] + [d.after[n - 1]];
    }
  }

  lemma {:induction false} RemoveForward(d: Doc, n: nat)
    requires n <= |d.after|
    ensures FlatRun(d, Times(RemoveAfter, n)) == Doc(d.before, d.after[n..])
  {
    if n > 0 {
      RemoveForward(d, n - 1);
      assert Times(RemoveAfter, n)[..n - 1] == Times(RemoveAfter, n - 1);
    }
  }

  function Inserts(s: string): (r: seq<FlatKey>)
    ensures |r| == |s|
  {
    seq(|s|, i requires 0 <= i < |s| => Insert(s[i]))
  }

  lemma {:induction false} InsertText(d: Doc, s: string)
    ensures FlatRun(d, Inserts(s)) == Doc(d.before + s, d.after)
    decreases |s|
  {
    if s == "" {
      assert d.before + s == d.before;
    } else {
      var n := |s|;
      InsertText(d, s[..n - 1]);
      assert Inserts(s)[..n - 1] == Inserts(s[..n - 1]);
      assert s == s[..n - 1] + [s[n - 1]];
      Regroup(d.before, s[..n - 1], [s[n - 1]]);
    }
  }
}
