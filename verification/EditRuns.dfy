/** The line editor over whole sessions: every key is a short run of a flat text
    editor's keys, and no edit is lost. */
module EditRuns {
  import opened EditText

  /** The flat steps from one split of a text to another. */
  function Travel(from: nat, to: nat): seq<FlatKey> {
    if to <= from then Times(Back1, from - to) else Times(Forward1, to - from)
  }

  lemma {:induction false} TravelMoves(d: Doc, e: Doc)
    requires d.before + d.after == e.before + e.after
    ensures FlatRun(d, Travel(|d.before|, |e.before|)) == e
  {
    var text, i, j := d.before + d.after, |d.before|, |e.before|;
    assert d.before == text[..i] && d.after == text[i..] && e.before == text[..j] && e.after == text[j..];
    if j <= i {
      StepBack(d, i - j);
      assert text[..i][j..] + text[i..] == text[j..];
    } else {
      StepForward(d, j - i);
      assert text[..i] + text[i..][..j - i] == text[..j];
    }
  }

  /** A cursor's distance from the start of the text. */
  function Offset(b: Buffer): nat
    requires Valid(b)
  {
    |Abs(b).before|
  }

  predicate IsMove(key: Key) {
    !key.Char? && !key.Enter? && !key.Back? && !key.Del? && !key.CutLine? && !key.PasteLine?
  }

  /** Moves change the cursor and nothing else. */
  lemma {:induction false} MovesKeepText(b: Buffer, key: Key)
    requires Valid(b) && IsMove(key)
    ensures Valid(Press(b, key))
    ensures Press(b, key) == b.(cy := Press(b, key).cy, cx := Press(b, key).cx)
  {}

  lemma {:induction false} LeftOffset(b: Buffer)
    requires Valid(b)
    ensures Valid(Left(b)) && Offset(Left(b)) == if Offset(b) == 0 then 0 else Offset(b) - 1
  {
    if b.cx == 0 && b.cy > 0 {
      JoinAtRemovesNewline(b.lines, b.cy - 1);
    } else if b.cy == 0 {
      assert b.lines[..0] == [];
    }
  }

  lemma {:induction false} RightOffset(b: Buffer)
    requires Valid(b)
    ensures Valid(Right(b)) && Offset(Right(b)) == if Abs(b).after == "" then Offset(b) else Offset(b) + 1
  {
    if b.cx == |b.lines[b.cy]| {
      if b.cy + 1 < |b.lines| { JoinAtRemovesNewline(b.lines, b.cy); } else { assert b.lines[b.cy + 1..] == []; }
    }
  }

  lemma {:induction false} OneBack(d: Doc, e: Doc)
    requires d.before + d.after == e.before + e.after && |e.before| == if d.before == "" then 0 else |d.before| - 1
    ensures e == FlatPress(d, Back1)
  {
    TravelMoves(d, e);
    if d.before != "" { StepBack(d, 1); }
  }

  lemma {:induction false} OneForward(d: Doc, e: Doc)
    requires d.before + d.after == e.before + e.after && |e.before| == if d.after == "" then |d.before| else |d.before| + 1
    ensures e == FlatPress(d, Forward1)
  {
    TravelMoves(d, e);
    if d.after != "" { StepForward(d, 1); }
  }

  /** Left and right are one character of the flat text, across line ends too. */
  lemma {:induction false} LeftIsOneBack(b: Buffer)
    requires Valid(b)
    ensures Valid(Left(b)) && Abs(Left(b)) == FlatPress(Abs(b), Back1)
  {
    LeftOffset(b);
    AbsIsFlat(b);
    AbsIsFlat(Left(b));
    OneBack(Abs(b), Abs(Left(b)));
  }

  lemma {:induction false} RightIsOneForward(b: Buffer)
    requires Valid(b)
    ensures Valid(Right(b)) && Abs(Right(b)) == FlatPress(Abs(b), Forward1)
  {
    RightOffset(b);
    AbsIsFlat(b);
    AbsIsFlat(Right(b));
    OneForward(Abs(b), Abs(Right(b)));
  }

  // ----- Every key as flat keys --------------------------------------------

  function Room(b: Buffer): nat
    requires Valid(b)
  {
    LINE_MAX - 1 - |b.lines[b.cy]|
  }

  /** The flat keys that a key amounts to; none when a limit refuses it. */
  function FlatKeys(b: Buffer, key: Key): seq<FlatKey>
    requires Valid(b)
  {
    var l := b.lines[b.cy];
    match key
    case Char(c) =>
      if c == '\t' then Times(Insert(' '), if Room(b) < 4 then Room(b) else 4)
      else if Room(b) == 0 then [] else [Insert(c)]
    case Enter => if |b.lines| >= LINES_MAX then [] else [Insert('\n')]
    case Back => if b.cx == 0 < b.cy && |b.lines[b.cy - 1]| + |l| >= LINE_MAX then [] else [RemoveBefore]
    case Del =>
      if b.cx == |l| && b.cy + 1 < |b.lines| && |l| + |b.lines[b.cy + 1]| >= LINE_MAX then [] else [RemoveAfter]
    case CutLine =>
      var emptied := Emptied(l, b.cx);
      if b.cy + 1 < |b.lines| then emptied + [RemoveAfter]
      else if b.cy > 0 then emptied + [RemoveBefore] + Times(Back1, |b.lines[b.cy - 1]|)
      else emptied
    case PasteLine =>
      if |b.lines| >= LINES_MAX then [] else Times(Forward1, |l| - b.cx) + [Insert('\n')] + Inserts(b.clip)
    case _ => MovesKeepText(b, key); Travel(Offset(b), Offset(Press(b, key)))
  }

  lemma {:induction false} OneKey(d: Doc, key: FlatKey)
    ensures FlatRun(d, [key]) == FlatPress(d, key)
  {
    assert [key][..0] == [];
  }

  function Fit(n: nat, room: nat): nat { if room < n then room else n }

  lemma {:induction false} OneMoreTime(d: Doc, key: FlatKey, n: nat)
    ensures FlatRun(d, Times(key, n + 1)) == FlatPress(FlatRun(d, Times(key, n)), key)
  {
    assert Times(key, n + 1)[..n] == Times(key, n);
  }

  lemma {:induction false} InsertsOne(b: Buffer, c: char)
    requires Valid(b)
    ensures Valid(InsertChar(b, c)) && InsertChar(b, c).cy == b.cy
    ensures Room(InsertChar(b, c)) == if Room(b) > 0 then Room(b) - 1 else 0
    ensures Abs(InsertChar(b, c)) == if Room(b) > 0 then FlatPress(Abs(b), Insert(c)) else Abs(b)
  {
    if Room(b) > 0 { InsertCharIsInsertion(b, c); }
  }

  lemma {:induction false} TypingRefines(b: Buffer, c: char, n: nat)
    requires Valid(b)
    ensures Room(InsertMany(b, c, n)) == Room(b) - Fit(n, Room(b))
    ensures Abs(InsertMany(b, c, n)) == FlatRun(Abs(b), Times(Insert(c), Fit(n, Room(b))))
  {
    if n > 0 {
      TypingRefines(b, c, n - 1);
      InsertsOne(InsertMany(b, c, n - 1), c);
      OneMoreFits(Abs(b), Insert(c), n, Room(b), Abs(InsertMany(b, c, n - 1)), Abs(InsertMany(b, c, n)));
    }
  }

  lemma {:induction false} OneMoreFits(d: Doc, key: FlatKey, n: nat, room: nat, x: Doc, y: Doc)
    requires n > 0 && x == FlatRun(d, Times(key, Fit(n - 1, room)))
    requires y == if room > Fit(n - 1, room) then FlatPress(x, key) else x
    ensures y == FlatRun(d, Times(key, Fit(n, room)))
  {
    OneMoreTime(d, key, Fit(n - 1, room));
  }

  /** Going to a line's end and typing a newline and some text. */
  lemma {:induction false} PasteKeys(head: string, l: Line, x: nat, rest: string, clip: Line)
    requires x <= |l|
    ensures FlatRun(Doc(head + l[..x], l[x..] + rest), Times(Forward1, |l| - x) + [Insert('\n')] + Inserts(clip)) ==
            Doc(head + l + "\n" + clip, rest)
  {
    var d, e := Doc(head + l[..x], l[x..] + rest), Doc(head + l, rest);
    StepForward(d, |l| - x);
    assert d.after[..|l| - x] == l[x..] && d.after[|l| - x..] == rest;
    assert head + l[..x] + l[x..] == head + l;
    FlatRunConcat(d, Times(Forward1, |l| - x), [Insert('\n')]);
    OneKey(e, Insert('\n'));
    FlatRunConcat(d, Times(Forward1, |l| - x) + [Insert('\n')], Inserts(clip));
    InsertText(Doc(head + l + "\n", rest), clip);
  }

  lemma {:induction false} PasteRefines(b: Buffer)
    requires Valid(b)
    ensures Valid(Paste(b)) && Abs(Paste(b)) == FlatRun(Abs(b), FlatKeys(b, PasteLine))
  {
    PasteValid(b);
    if |b.lines| < LINES_MAX {
      PasteKeys(Closed(b.lines[..b.cy]), b.lines[b.cy], b.cx, Opened(b.lines[b.cy + 1..]), b.clip);
      PastedDoc(b);
    }
  }

  lemma {:induction false} PastedDoc(b: Buffer)
    requires Valid(b) && |b.lines| < LINES_MAX
    ensures Abs(Paste(b)) == Doc(Closed(b.lines[..b.cy]) + b.lines[b.cy] + "\n" + b.clip, Opened(b.lines[b.cy + 1..]))
  {
    var r := Paste(b);
    assert r.lines[..b.cy + 1] == b.lines[..b.cy] + [b.lines[b.cy]];
    ClosedSnoc(b.lines[..b.cy], b.lines[b.cy]);
    assert r.lines[b.cy + 2..] == b.lines[b.cy + 1..];
    assert b.clip[|b.clip|..] + Opened(b.lines[b.cy + 1..]) == Opened(b.lines[b.cy + 1..]);
  }

  function Emptied(l: Line, x: nat): seq<FlatKey>
    requires x <= |l|
  {
    Times(Back1, x) + Times(RemoveAfter, |l|)
  }

  /** The text of a cut line goes, wherever the cursor stood in it. */
  lemma {:induction false} EmptiesLine(head: string, l: Line, x: nat, rest: string)
    requires x <= |l|
    ensures FlatRun(Doc(head + l[..x], l[x..] + rest), Emptied(l, x)) == Doc(head, rest)
  {
    var d, home := Doc(head + l[..x], l[x..] + rest), Doc(head, l + rest);
    StepBack(d, x);
    assert d.before[..|head|] == head && d.before[|head|..] == l[..x];
    assert l[..x] + (l[x..] + rest) == l + rest;
    FlatRunConcat(d, Times(Back1, x), Times(RemoveAfter, |l|));
    RemoveForward(home, |l|);
    assert (l + rest)[|l|..] == rest;
  }

  lemma {:induction false} CutInnerDoc(b: Buffer)
    requires Valid(b) && b.cy + 1 < |b.lines|
    ensures Valid(Cut(b))
    ensures Abs(Cut(b)) == Doc(Closed(b.lines[..b.cy]), Opened(b.lines[b.cy + 1..])[1..])
    ensures Opened(b.lines[b.cy + 1..]) != ""
  {
    JoinAtRemovesNewline(b.lines, b.cy);
    var n, rest := b.lines[b.cy + 1], Opened(b.lines[b.cy + 2..]);
    Regroup("\n", n, rest);
    var r := Cut(b);
    assert r.lines[..b.cy] == b.lines[..b.cy] && r.lines[b.cy] == n && r.lines[b.cy + 1..] == b.lines[b.cy + 2..];
    assert Closed(b.lines[..b.cy]) + n[..0] == Closed(b.lines[..b.cy]) && n[0..] == n;
  }

  lemma {:induction false} CutLastDoc(b: Buffer)
    requires Valid(b) && 0 < b.cy == |b.lines| - 1
    ensures Valid(Cut(b)) && Abs(Cut(b)) == Doc(Closed(b.lines[..b.cy - 1]), b.lines[b.cy - 1])
  {
    var r, p := Cut(b), b.lines[b.cy - 1];
    assert r.lines == b.lines[..b.cy] && r.lines[..b.cy - 1] == b.lines[..b.cy - 1] && r.lines[b.cy..] == [];
    assert p[0..] + "" == p && Closed(b.lines[..b.cy - 1]) + p[..0] == Closed(b.lines[..b.cy - 1]);
  }

  /** Removing the break before an emptied last line, and going home. */
  lemma {:induction false} CutLastKeys(head: string, p: Line)
    ensures FlatRun(Doc(head + p + "\n", ""), [RemoveBefore] + Times(Back1, |p|)) == Doc(head, p)
  {
    var e, f := Doc(head + p + "\n", ""), Doc(head + p, "");
    FlatRunConcat(e, [RemoveBefore], Times(Back1, |p|));
    OneKey(e, RemoveBefore);
    assert FlatPress(e, RemoveBefore) == f;
    StepBack(f, |p|);
    assert (head + p)[..|head|] == head && (head + p)[|head|..] + "" == p;
  }

  /** The cut as flat keys, given what the lines around hold. */
  lemma {:induction false} CutInnerKeys(head: string, l: Line, x: nat, rest: string)
    requires x <= |l| && rest != ""
    ensures FlatRun(Doc(head + l[..x], l[x..] + rest), Emptied(l, x) + [RemoveAfter]) == Doc(head, rest[1..])
  {
    var d := Doc(head + l[..x], l[x..] + rest);
    EmptiesLine(head, l, x, rest);
    FlatRunConcat(d, Emptied(l, x), [RemoveAfter]);
    OneKey(Doc(head, rest), RemoveAfter);
  }

  lemma {:induction false} CutEndKeys(head: string, p: Line, l: Line, x: nat)
    requires x <= |l|
    ensures FlatRun(Doc(head + p + "\n" + l[..x], l[x..]), Emptied(l, x) + [RemoveBefore] + Times(Back1, |p|)) == Doc(head, p)
  {
    var d := Doc(head + p + "\n" + l[..x], l[x..]);
    assert l[x..] + "" == l[x..];
    EmptiesLine(head + p + "\n", l, x, "");
    CutLastKeys(head, p);
    FlatRunConcat(d, Emptied(l, x), [RemoveBefore] + Times(Back1, |p|));
    assert Emptied(l, x) + [RemoveBefore] + Times(Back1, |p|) == Emptied(l, x) + ([RemoveBefore] + Times(Back1, |p|));
  }

  lemma {:induction false} CutLastRefines(b: Buffer)
    requires Valid(b) && 0 < b.cy == |b.lines| - 1
    ensures Abs(Cut(b)) == FlatRun(Abs(b), FlatKeys(b, CutLine))
  {
    var l, p := b.lines[b.cy], b.lines[b.cy - 1];
    assert b.lines[b.cy + 1..] == [] && l[b.cx..] + "" == l[b.cx..];
    JoinAtRemovesNewline(b.lines, b.cy - 1);
    CutLastDoc(b);
    CutEndKeys(Closed(b.lines[..b.cy - 1]), p, l, b.cx);
  }

  lemma {:induction false} CutOnlyRefines(b: Buffer)
    requires Valid(b) && |b.lines| == 1
    ensures Abs(Cut(b)) == FlatRun(Abs(b), FlatKeys(b, CutLine))
  {
    EmptiesLine("", b.lines[0], b.cx, "");
    assert b.lines[..0] == [] && b.lines[1..] == [];
  }

  lemma {:induction false} CutRefines(b: Buffer)
    requires Valid(b)
    ensures Valid(Cut(b)) && Abs(Cut(b)) == FlatRun(Abs(b), FlatKeys(b, CutLine))
  {
    CutValid(b);
    if b.cy + 1 < |b.lines| {
      CutInnerDoc(b);
      CutInnerKeys(Closed(b.lines[..b.cy]), b.lines[b.cy], b.cx, Opened(b.lines[b.cy + 1..]));
    } else if b.cy > 0 {
      CutLastRefines(b);
    } else {
      CutOnlyRefines(b);
    }
  }

  lemma {:induction false} CharRefines(b: Buffer, c: char)
    requires Valid(b)
    ensures Abs(Type(b, c)) == FlatRun(Abs(b), FlatKeys(b, Char(c)))
  {
    if c == '\t' {
      TypingRefines(b, ' ', 4);
    } else if Room(b) > 0 {
      InsertCharIsInsertion(b, c);
      OneKey(Abs(b), Insert(c));
    }
  }

  lemma {:induction false} MoveRefines(b: Buffer, key: Key)
    requires Valid(b) && IsMove(key)
    ensures Valid(Press(b, key)) && Abs(Press(b, key)) == FlatRun(Abs(b), FlatKeys(b, key))
  {
    MovesKeepText(b, key);
    AbsIsFlat(b);
    AbsIsFlat(Press(b, key));
    TravelMoves(Abs(b), Abs(Press(b, key)));
  }

  lemma {:induction false} RemovalRefines(b: Buffer)
    requires Valid(b)
    ensures Abs(Backspace(b)) == FlatRun(Abs(b), FlatKeys(b, Back)) && Abs(Delete(b)) == FlatRun(Abs(b), FlatKeys(b, Del))
  {
    BackspaceIsRemoval(b);
    OneKey(Abs(b), RemoveBefore);
    DeleteIsRemoval(b);
    OneKey(Abs(b), RemoveAfter);
  }

  lemma {:induction false} EnterRefines(b: Buffer)
    requires Valid(b)
    ensures Abs(Newline(b)) == FlatRun(Abs(b), FlatKeys(b, Enter))
  {
    if |b.lines| < LINES_MAX {
      NewlineIsInsertion(b);
      OneKey(Abs(b), Insert('\n'));
    }
  }

  /** Each key does to the flat text exactly what its flat keys do. */
  lemma {:induction false} PressRefines(b: Buffer, key: Key)
    requires Valid(b)
    ensures Valid(Press(b, key)) && Abs(Press(b, key)) == FlatRun(Abs(b), FlatKeys(b, key))
  {
    PressValid(b, key);
    if IsMove(key) {
      MoveRefines(b, key);
    } else if key.Char? {
      CharRefines(b, key.c);
    } else if key.Enter? {
      EnterRefines(b);
    } else if key.CutLine? {
      CutRefines(b);
    } else if key.PasteLine? {
      PasteRefines(b);
    } else {
      RemovalRefines(b);
    }
  }

  // ----- Sessions ----------------------------------------------------------

  function Run(b: Buffer, keys: seq<Key>): (r: Buffer)
    requires Valid(b)
    ensures Valid(r)
    decreases |keys|
  {
    if keys == [] then b
    else
      var m := Run(b, keys[..|keys| - 1]);
      PressValid(m, keys[|keys| - 1]);
      Press(m, keys[|keys| - 1])
  }

  function FlatTrace(b: Buffer, keys: seq<Key>): seq<FlatKey>
    requires Valid(b)
    decreases |keys|
  {
    if keys == [] then []
    else FlatTrace(b, keys[..|keys| - 1]) + FlatKeys(Run(b, keys[..|keys| - 1]), keys[|keys| - 1])
  }

  /** Every session refines the flat editor: text and cursor are what the flat
      keys of the accepted keys make of the starting text. */
  lemma {:induction false} RunRefines(b: Buffer, keys: seq<Key>)
    requires Valid(b)
    ensures Abs(Run(b, keys)) == FlatRun(Abs(b), FlatTrace(b, keys))
    decreases |keys|
  {
    if keys != [] {
      var init, key := keys[..|keys| - 1], keys[|keys| - 1];
      RunRefines(b, init);
      PressRefines(Run(b, init), key);
      FlatRunConcat(Abs(b), FlatTrace(b, init), FlatKeys(Run(b, init), key));
    }
  }

  lemma {:induction false} PressMarks(b: Buffer, key: Key)
    requires Valid(b)
    ensures b.dirty ==> Press(b, key).dirty
    ensures !Press(b, key).dirty ==> Press(b, key).lines == b.lines && Press(b, key).finalNewline == b.finalNewline
  {}

  /** No edit goes unmarked: a session that ends unmodified leaves every line,
      and what a save would write, as it was. */
  lemma {:induction false} UnmarkedIsUnchanged(b: Buffer, keys: seq<Key>)
    requires Valid(b) && !Run(b, keys).dirty
    ensures Run(b, keys).lines == b.lines && Run(b, keys).finalNewline == b.finalNewline
    decreases |keys|
  {
    if keys != [] {
      PressMarks(Run(b, keys[..|keys| - 1]), keys[|keys| - 1]);
      UnmarkedIsUnchanged(b, keys[..|keys| - 1]);
    }
  }

  // ----- Undoing -----------------------------------------------------------

  /** Backspace takes back a typed character, lines and cursor. */
  lemma {:induction false} BackspaceUndoesType(b: Buffer, c: char)
    requires Valid(b) && c != '\t' && Room(b) > 0
    ensures Valid(Type(b, c)) && Backspace(Type(b, c)) == b.(dirty := true)
  {
    var l := b.lines[b.cy];
    var l' := l[..b.cx] + [c] + l[b.cx..];
    assert l'[..b.cx] + l'[b.cx + 1..] == l;
    assert b.lines[b.cy := l'][b.cy := l] == b.lines;
  }

  /** Backspace takes back a line break, lines and cursor; but from then on a
      save ends the text with a newline, whether or not it did before. */
  lemma {:induction false} BackspaceUndoesNewline(b: Buffer)
    requires Valid(b) && |b.lines| < LINES_MAX
    ensures Valid(Newline(b)) && Backspace(Newline(b)) == b.(dirty := true, finalNewline := true)
  {
    NewlineIsInsertion(b);
    var l, n := b.lines[b.cy], Newline(b);
    assert n.lines[b.cy] == l[..b.cx] && n.lines[b.cy + 1] == l[b.cx..];
    assert l[..b.cx] + l[b.cx..] == l;
    assert n.lines[..b.cy] == b.lines[..b.cy] && n.lines[b.cy + 2..] == b.lines[b.cy + 1..];
    assert JoinAt(n.lines, b.cy) == b.lines;
  }

  lemma {:induction false} MovesDownOne(lines: seq<Line>, y: nat)
    requires y + 1 < |lines|
    ensures var swapped := lines[y := lines[y + 1]][y + 1 := lines[y]];
            && |RemoveLine(lines, y)| > y
            && InsertLine(RemoveLine(lines, y), y + 1, lines[y]) == swapped && (swapped == lines <==> lines[y] == lines[y + 1])
  {
    var c, swapped := lines[..y] + lines[y + 1..], lines[y := lines[y + 1]][y + 1 := lines[y]];
    assert c[..y + 1] == lines[..y] + [lines[y + 1]];
    assert c[y + 1..] == lines[y + 2..];
    assert swapped[y] == lines[y + 1];
  }

  lemma {:induction false} StaysLast(lines: seq<Line>)
    requires 1 < |lines|
    ensures |RemoveLine(lines, |lines| - 1)| == |lines| - 1
    ensures InsertLine(RemoveLine(lines, |lines| - 1), |lines| - 1, lines[|lines| - 1]) == lines
  {}

  /** The lines after a cut and a paste. */
  function CutPasted(lines: seq<Line>, y: nat): seq<Line>
    requires y < |lines|
  {
    if |lines| == 1 then ["", lines[0]]
    else if y == |lines| - 1 then lines
    else lines[y := lines[y + 1]][y + 1 := lines[y]]
  }

  lemma {:induction false} CutPastedSame(lines: seq<Line>, y: nat)
    requires y < |lines|
    ensures CutPasted(lines, y) == lines <==> 1 < |lines| && (y == |lines| - 1 || lines[y] == lines[y + 1])
  {
    if y + 1 < |lines| { MovesDownOne(lines, y); }
  }

  /** Cutting and pasting puts the line one place further down: it restores the
      lines if and only if the line was the last of several or equal to the
      next one. */
  lemma {:induction false} PasteAfterCut(b: Buffer)
    requires Valid(b)
    ensures Valid(Cut(b)) && Paste(Cut(b)).lines == CutPasted(b.lines, b.cy)
    ensures Paste(Cut(b)).lines == b.lines <==>
            1 < |b.lines| && (b.cy == |b.lines| - 1 || b.lines[b.cy] == b.lines[b.cy + 1])
  {
    PastesCutLine(b);
    CutPastedSame(b.lines, b.cy);
  }

  lemma {:induction false} PastesCutLine(b: Buffer)
    requires Valid(b)
    ensures Valid(Cut(b)) && Paste(Cut(b)).lines == CutPasted(b.lines, b.cy)
  {
    CutValid(b);
    RemovedAndBack(b.lines, b.cy);
  }

  lemma {:induction false} RemovedAndBack(lines: seq<Line>, y: nat)
    requires y < |lines|
    ensures var rest := RemoveLine(lines, y);
            var at := if y >= |rest| then |rest| else y + 1;
            at <= |rest| && InsertLine(rest, at, lines[y]) == CutPasted(lines, y)
  {
    if y + 1 < |lines| {
      MovesDownOne(lines, y);
    } else if 0 < y {
      StaysLast(lines);
    } else {
      assert InsertLine([""], 1, lines[0]) == ["", lines[0]];
    }
  }

  // ----- The text determines the buffer ------------------------------------

  predicate NoBreaks(lines: seq<Line>) {
    forall i :: 0 <= i < |lines| ==> '\n' !in lines[i]
  }

  lemma {:induction false} OpenedInjective(a: seq<Line>, b: seq<Line>)
    requires NoBreaks(a) && NoBreaks(b) && Opened(a) == Opened(b)
    ensures a == b
    decreases |a|
  {
    assert a == [] <==> |Opened(a)| == 0;
    assert b == [] <==> |Opened(b)| == 0;
    if a != [] {
      assert a[0] + Opened(a[1..]) == Opened(a)[1..] && b[0] + Opened(b[1..]) == Opened(b)[1..];
      HeadInjective(a[0], Opened(a[1..]), b[0], Opened(b[1..]));
      assert NoBreaks(a[1..]) && NoBreaks(b[1..]);
      OpenedInjective(a[1..], b[1..]);
      assert a == [a[0]] + a[1..] && b == [b[0]] + b[1..];
    }
  }

  /** Where the first newline is, or the end. */
  function FirstBreak(s: string): (n: nat)
    ensures n <= |s|
  {
    if s == "" || s[0] == '\n' then 0 else 1 + FirstBreak(s[1..])
  }

  lemma {:induction false} LineEndsAtBreak(l: Line, p: string)
    requires '\n' !in l && (p == "" || p[0] == '\n')
    ensures FirstBreak(l + p) == |l|
  {
    if l == "" {
      assert l + p == p;
    } else {
      LineEndsAtBreak(l[1..], p);
      assert (l + p)[1..] == l[1..] + p && (l + p)[0] == l[0];
    }
  }

  lemma {:induction false} HeadInjective(l: Line, p: string, m: Line, q: string)
    requires '\n' !in l && '\n' !in m && l + p == m + q
    requires (p == "" || p[0] == '\n') && (q == "" || q[0] == '\n')
    ensures l == m && p == q
  {
    LineEndsAtBreak(l, p);
    LineEndsAtBreak(m, q);
    assert l == (l + p)[..|l|] && m == (m + q)[..|m|] && p == (l + p)[|l|..] && q == (m + q)[|m|..];
  }

  /** Lines without breaks in them are determined by their joined text. */
  lemma {:induction false} FlatInjective(a: seq<Line>, b: seq<Line>)
    requires a != [] && b != [] && NoBreaks(a) && NoBreaks(b) && Flat(a) == Flat(b)
    ensures a == b
  {
    HeadInjective(a[0], Opened(a[1..]), b[0], Opened(b[1..]));
    assert NoBreaks(a[1..]) && NoBreaks(b[1..]);
    OpenedInjective(a[1..], b[1..]);
    assert a == [a[0]] + a[1..] && b == [b[0]] + b[1..];
  }
}
