/** The line editor's storage (user/bin/nano.c): a fixed grid of characters with
    a length and a terminator per line, edited in place by shifting characters
    and lines. Every operation is tied to its function in module EditText. */
module Editor {
  import opened EditText
  import opened EditRuns
  import opened EditFile

  lemma {:induction false} ShiftStep(p: string, i: nat, m: nat)
    requires 0 < i <= m < |p|
    ensures var q := p[..i + 1] + p[i..m];
            q[i - 1] == p[i - 1] && q[i := q[i - 1]] == p[..i] + p[i - 1..m]
  {}

  lemma {:induction false} InsertedLine(p: string, q: string, n: nat, x: nat, c: char)
    requires x <= n && n + 2 == |p| && q == (p[..x + 1] + p[x..n + 1])[x := c]
    ensures q[..n + 1] == p[..n][..x] + [c] + p[..n][x..] && |q| == n + 2 && q[n + 1] == p[n]
  {}

  class Storage {
    const text: array2<char>
    const len: array<nat>

    ghost predicate Sized() {
      text.Length0 == LINES_MAX && text.Length1 == LINE_MAX && len.Length == LINES_MAX
    }

    /** Every line is shorter than its row and ends in a terminator. */
    ghost predicate Ok()
      reads text, len
    {
      Sized() && forall k :: 0 <= k < LINES_MAX ==> len[k] < LINE_MAX && text[k, len[k]] == '\0'
    }

    ghost function LineAt(k: nat): (l: Line)
      requires Ok() && k < LINES_MAX
      reads text, len
      ensures |l| == len[k]
      ensures forall j :: 0 <= j < |l| ==> l[j] == text[k, j]
    {
      seq(len[k], j requires 0 <= j < LINE_MAX && Sized() reads text => text[k, j])
    }

    ghost function Lines(): (s: seq<Line>)
      requires Ok()
      reads text, len
      ensures |s| == LINES_MAX
      ensures forall k :: 0 <= k < LINES_MAX ==> s[k] == LineAt(k)
    {
      seq(LINES_MAX, k requires 0 <= k < LINES_MAX && Ok() reads text, len => LineAt(k))
    }

    /** The first `x` characters of row `y`. */
    ghost function Part(y: nat, x: nat): (l: Line)
      requires Sized() && y < LINES_MAX && x <= LINE_MAX
      reads text
      ensures |l| == x
      ensures forall j :: 0 <= j < x ==> l[j] == text[y, j]
    {
      seq(x, j requires 0 <= j < LINE_MAX && Sized() reads text => text[y, j])
    }

    constructor ()
      ensures Ok() && fresh(text) && fresh(len) && forall k :: 0 <= k < LINES_MAX ==> len[k] == 0
    {
      text := new char[LINES_MAX, LINE_MAX]((_, _) => '\0');
      len := new nat[LINES_MAX](_ => 0);
    }

    /** One character written; the rest of the storage stays. */
    method Put(row: nat, i: nat, c: char, ghost n: nat)
      requires Sized() && row < LINES_MAX && i < n <= LINE_MAX
      modifies text
      ensures Part(row, n) == old(Part(row, n))[i := c]
      ensures forall k, j :: 0 <= k < LINES_MAX && 0 <= j < LINE_MAX && k != row ==> text[k, j] == old(text[k, j])
    {
      text[row, i] := c;
    }

    /** Characters `at..at + n` of a row one place to the right. */
    method ShiftRight(row: nat, at: nat, n: nat)
      requires Sized() && row < LINES_MAX && at + n + 1 <= LINE_MAX
      modifies text
      ensures Part(row, at + n + 1) == old(Part(row, at + n + 1))[..at + 1] + old(Part(row, at + n + 1))[at..at + n]
      ensures forall k, j :: 0 <= k < LINES_MAX && 0 <= j < LINE_MAX && k != row ==> text[k, j] == old(text[k, j])
    {
      ghost var p := Part(row, at + n + 1);
      var i := at + n;
      while i > at
        invariant at <= i <= at + n && Part(row, at + n + 1) == p[..i + 1] + p[i..at + n]
        invariant forall k, j :: 0 <= k < LINES_MAX && 0 <= j < LINE_MAX && k != row ==> text[k, j] == old(text[k, j])
      {
        ShiftStep(p, i, at + n);
        CopyBack(row, i, at + n + 1);
        i := i - 1;
      }
    }

    /** A character is copied from its left neighbour. */
    method CopyBack(row: nat, i: nat, ghost n: nat)
      requires Sized() && row < LINES_MAX && 0 < i < n <= LINE_MAX
      modifies text
      ensures Part(row, n) == old(Part(row, n))[i := old(Part(row, n))[i - 1]]
      ensures forall k, j :: 0 <= k < LINES_MAX && 0 <= j < LINE_MAX && k != row ==> text[k, j] == old(text[k, j])
    {
      Put(row, i, text[row, i - 1], n);
    }

    /** Characters `at + 1..at + 1 + n` of a row one place to the left. */
    method ShiftLeft(row: nat, at: nat, n: nat)
      requires Sized() && row < LINES_MAX && at + n + 1 <= LINE_MAX
      modifies text
      ensures forall j :: at <= j < at + n ==> text[row, j] == old(text[row, j + 1])
      ensures forall j :: 0 <= j < at ==> text[row, j] == old(text[row, j])
      ensures forall k, j :: 0 <= k < LINES_MAX && 0 <= j < LINE_MAX && k != row ==> text[k, j] == old(text[k, j])
    {
      for i := at to at + n
        invariant forall j :: at <= j < i ==> text[row, j] == old(text[row, j + 1])
        invariant forall j :: 0 <= j < at || i <= j < LINE_MAX ==> text[row, j] == old(text[row, j])
        invariant forall k, j :: 0 <= k < LINES_MAX && 0 <= j < LINE_MAX && k != row ==> text[k, j] == old(text[k, j])
      {
        text[row, i] := text[row, i + 1];
      }
    }

    /** The first `n` characters of row `src` to row `dst`, from column `at`. */
    method CopyRow(dst: nat, at: nat, src: nat, n: nat)
      requires Sized() && dst < LINES_MAX && src < LINES_MAX && dst != src && at + n <= LINE_MAX
      modifies text
      ensures forall j :: 0 <= j < n ==> text[dst, at + j] == old(text[src, j])
      ensures forall j :: 0 <= j < at ==> text[dst, j] == old(text[dst, j])
      ensures forall k, j :: 0 <= k < LINES_MAX && 0 <= j < LINE_MAX && k != dst ==> text[k, j] == old(text[k, j])
    {
      for i := 0 to n
        invariant forall j :: 0 <= j < i ==> text[dst, at + j] == old(text[src, j])
        invariant forall j :: 0 <= j < at ==> text[dst, j] == old(text[dst, j])
        invariant forall k, j :: 0 <= k < LINES_MAX && 0 <= j < LINE_MAX && k != dst ==> text[k, j] == old(text[k, j])
      {
        text[dst, at + i] := text[src, i];
      }
    }

    /** The first `n` characters of a buffer to row `dst`. */
    method StoreRow(dst: nat, buf: array<char>, n: nat)
      requires Sized() && dst < LINES_MAX && n <= LINE_MAX && n <= buf.Length
      modifies text
      ensures forall j :: 0 <= j < n ==> text[dst, j] == buf[j]
      ensures forall k, j :: 0 <= k < LINES_MAX && 0 <= j < LINE_MAX && k != dst ==> text[k, j] == old(text[k, j])
    {
      for i := 0 to n
        invariant forall j :: 0 <= j < i ==> text[dst, j] == buf[j]
        invariant forall k, j :: 0 <= k < LINES_MAX && 0 <= j < LINE_MAX && k != dst ==> text[k, j] == old(text[k, j])
      {
        text[dst, i] := buf[i];
      }
    }

    /** Characters `from..from + n` of a row to a buffer. */
    method FetchRow(row: nat, from: nat, buf: array<char>, n: nat)
      requires Sized() && row < LINES_MAX && from + n <= LINE_MAX && n <= buf.Length
      modifies buf
      ensures forall j :: 0 <= j < n ==> buf[j] == text[row, from + j]
    {
      for i := 0 to n
        invariant forall j :: 0 <= j < i ==> buf[j] == text[row, from + j]
      {
        buf[i] := text[row, from + i];
      }
    }

    // ----- A line being filled ---------------------------------------------

    /** In order but for row `y`, which has no length or terminator yet. */
    ghost predicate OkBut(y: nat)
      reads text, len
    {
      Sized() && forall k :: 0 <= k < LINES_MAX && k != y ==> len[k] < LINE_MAX && text[k, len[k]] == '\0'
    }

    /** The lines above row `y`. */
    ghost function Above(y: nat): (s: seq<Line>)
      requires OkBut(y) && y < LINES_MAX
      reads text, len
      ensures |s| == y
      ensures forall k :: 0 <= k < y ==> s[k] == Part(k, len[k])
    {
      seq(y, k requires 0 <= k < y && OkBut(y) reads text, len => Part(k, len[k]))
    }

    method PutChar(y: nat, x: nat, c: char)
      requires OkBut(y) && y < LINES_MAX && x + 1 < LINE_MAX
      modifies text
      ensures OkBut(y) && Above(y) == old(Above(y)) && Part(y, x + 1) == old(Part(y, x)) + [c]
    {
      text[y, x] := c;
      assert forall k :: 0 <= k < y ==> Part(k, len[k]) == old(Part(k, len[k]));
    }

    method EndLine(y: nat, x: nat)
      requires OkBut(y) && y < LINES_MAX && x < LINE_MAX
      modifies text, len
      ensures Ok() && Lines()[..y] == old(Above(y)) && Lines()[y] == old(Part(y, x))
    {
      text[y, x] := '\0';
      len[y] := x;
      assert Ok();
      assert LineAt(y) == old(Part(y, x));
      assert forall k :: 0 <= k < y ==> LineAt(k) == old(Part(k, len[k]));
    }

    method StartLine(y: nat)
      requires Ok() && y < LINES_MAX
      modifies text, len
      ensures OkBut(y) && Above(y) == old(Lines())[..y]
    {
      text[y, 0] := '\0';
      len[y] := 0;
      assert OkBut(y);
      assert forall k :: 0 <= k < y ==> Part(k, len[k]) == old(LineAt(k));
    }

    // ----- Whole lines -----------------------------------------------------

    method CopyLine(dst: nat, src: nat)
      requires Ok() && dst < LINES_MAX && src < LINES_MAX && dst != src
      modifies text, len
      ensures Ok() && Lines() == old(Lines())[dst := old(Lines())[src]]
    {
      len[dst] := len[src];
      CopyRow(dst, 0, src, len[src] + 1);
      assert forall j :: 0 <= j <= len[src] ==> text[dst, 0 + j] == old(text[src, j]);
      assert Ok();
      assert forall k :: 0 <= k < LINES_MAX && k != dst ==> LineAt(k) == old(LineAt(k));
      assert LineAt(dst) == old(LineAt(src));
    }

    method StoreLine(dst: nat, buf: array<char>, n: nat)
      requires Ok() && dst < LINES_MAX && n < LINE_MAX && n <= buf.Length
      modifies text, len
      ensures Ok() && Lines() == old(Lines())[dst := buf[..n]]
    {
      StoreRow(dst, buf, n);
      text[dst, n] := '\0';
      len[dst] := n;
      assert Ok();
      assert forall k :: 0 <= k < LINES_MAX && k != dst ==> LineAt(k) == old(LineAt(k));
      assert LineAt(dst) == buf[..n];
    }

    method CutShort(row: nat, x: nat)
      requires Ok() && row < LINES_MAX && x <= len[row]
      modifies text, len
      ensures Ok() && Lines() == old(Lines())[row := old(Lines())[row][..x]]
    {
      text[row, x] := '\0';
      len[row] := x;
      assert Ok();
      assert forall k :: 0 <= k < LINES_MAX && k != row ==> LineAt(k) == old(LineAt(k));
      assert LineAt(row) == old(LineAt(row))[..x];
    }

    /** A gap opened at column `x` of a line of length `n`, and filled. */
    method OpenGap(row: nat, x: nat, c: char, n: nat)
      requires Sized() && row < LINES_MAX && x <= n && n + 1 < LINE_MAX && text[row, n] == '\0'
      modifies text
      ensures Part(row, n + 1) == old(Part(row, n))[..x] + [c] + old(Part(row, n))[x..]
      ensures text[row, n + 1] == '\0'
      ensures forall k, j :: 0 <= k < LINES_MAX && 0 <= j < LINE_MAX && k != row ==> text[k, j] == old(text[k, j])
    {
      ghost var p, l := Part(row, n + 2), Part(row, n);
      ShiftRight(row, x, n - x + 1);
      Put(row, x, c, n + 2);
      assert l == p[..n];
      InsertedLine(p, Part(row, n + 2), n, x, c);
      assert Part(row, n + 1) == Part(row, n + 2)[..n + 1];
    }

    method InsertAt(row: nat, x: nat, c: char)
      requires Ok() && row < LINES_MAX && x <= len[row] && len[row] + 1 < LINE_MAX
      modifies text, len
      ensures Ok()
      ensures var l := old(Lines())[row]; Lines() == old(Lines())[row := l[..x] + [c] + l[x..]]
    {
      var n := len[row];
      assert Part(row, n) == LineAt(row);
      OpenGap(row, x, c, n);
      len[row] := n + 1;
      assert Ok();
      assert forall k :: 0 <= k < LINES_MAX && k != row ==> LineAt(k) == old(LineAt(k));
      assert LineAt(row) == Part(row, n + 1);
    }

    method RemoveAt(row: nat, x: nat)
      requires Ok() && row < LINES_MAX && x < len[row]
      modifies text, len
      ensures Ok()
      ensures var l := old(Lines())[row]; Lines() == old(Lines())[row := l[..x] + l[x + 1..]]
    {
      var n := len[row];
      ShiftLeft(row, x, n - x);
      len[row] := n - 1;
      assert Ok();
      assert forall k :: 0 <= k < LINES_MAX && k != row ==> LineAt(k) == old(LineAt(k));
      ghost var l := old(LineAt(row));
      assert LineAt(row) == l[..x] + l[x + 1..];
    }

    method AppendLine(row: nat, src: nat)
      requires Ok() && row < LINES_MAX && src < LINES_MAX && row != src && len[row] + len[src] < LINE_MAX
      modifies text, len
      ensures Ok() && Lines() == old(Lines())[row := old(Lines())[row] + old(Lines())[src]]
    {
      var n, m := len[row], len[src];
      CopyRow(row, n, src, m + 1);
      len[row] := n + m;
      assert text[row, n + m] == old(text[src, m]);
      assert Ok();
      assert forall k :: 0 <= k < LINES_MAX && k != row ==> LineAt(k) == old(LineAt(k));
      assert LineAt(row) == old(LineAt(row)) + old(LineAt(src));
    }
  }

  /** The storage while lines from `i` on, up to `n`, have moved down by one. */
  ghost function MovedDown(s: seq<Line>, i: nat, n: nat): seq<Line>
    requires i <= n < |s|
  {
    s[..i + 1] + s[i..n] + s[n + 1..]
  }

  lemma {:induction false} MovedDownStep(s: seq<Line>, i: nat, n: nat)
    requires 0 < i <= n < |s|
    ensures |MovedDown(s, i, n)| == |s| && MovedDown(s, i, n)[i - 1] == s[i - 1]
    ensures MovedDown(s, i, n)[i := s[i - 1]] == MovedDown(s, i - 1, n)
  {}

  lemma {:induction false} MovedDownIsInsert(s: seq<Line>, at: nat, n: nat, l: Line)
    requires at <= n < |s|
    ensures |MovedDown(s, at, n)| == |s| && MovedDown(s, at, n)[at := l][..n + 1] == InsertLine(s[..n], at, l)
  {}

  /** The storage while lines from `at + 1`, up to `i`, have moved up by one. */
  ghost function MovedUp(s: seq<Line>, at: nat, i: nat): seq<Line>
    requires at < i <= |s|
  {
    s[..at] + s[at + 1..i] + s[i - 1..]
  }

  lemma {:induction false} MovedUpStep(s: seq<Line>, at: nat, i: nat)
    requires at < i < |s|
    ensures |MovedUp(s, at, i)| == |s| && MovedUp(s, at, i)[i] == s[i]
    ensures MovedUp(s, at, i)[i - 1 := s[i]] == MovedUp(s, at, i + 1)
  {}

  lemma {:induction false} MovedUpIsRemove(s: seq<Line>, at: nat, n: nat)
    requires at < n <= |s| && 1 < n
    ensures |MovedUp(s, at, n)| == |s| && MovedUp(s, at, n)[..n - 1] == RemoveLine(s[..n], at)
  {}

  /** Cutting a line short and inserting its rest below splits the lines. */
  lemma {:induction false} SplitsLines(s: seq<Line>, n: nat, y: nat, x: nat)
    requires y < n <= |s| && x <= |s[y]|
    ensures InsertLine(s[y := s[y][..x]][..n], y + 1, s[y][x..]) == SplitAt(s[..n], y, x)
  {
    var t := s[y := s[y][..x]][..n];
    assert t[..y + 1] == s[..y] + [s[y][..x]] && t[y + 1..] == s[..n][y + 1..] && s[..n][..y] == s[..y];
  }

  /** Appending the next line and deleting it joins the two. */
  lemma {:induction false} JoinsLines(s: seq<Line>, n: nat, y: nat)
    requires y + 1 < n <= |s|
    ensures RemoveLine(s[y := s[y] + s[y + 1]][..n], y + 1) == JoinAt(s[..n], y)
  {
    var t := s[y := s[y] + s[y + 1]][..n];
    assert t[..y + 1] == s[..y] + [s[y] + s[y + 1]] && t[y + 2..] == s[..n][y + 2..] && s[..n][..y] == s[..y];
  }

  class Nano {
    const store: Storage
    const clip: array<char>
    var clipLen: nat
    var count: nat
    var cy: nat
    var cx: nat
    var finalNewline: bool
    var dirty: bool

    /** The storage is in order; the cursor may still be anywhere. */
    ghost predicate Ready()
      reads this, store.text, store.len
    {
      store.Ok() && clip.Length == LINE_MAX && clipLen < LINE_MAX && count <= LINES_MAX
    }

    ghost predicate Valid()
      reads this, store.text, store.len
    {
      Ready() && 0 < count && cy < count && cx <= store.len[cy]
    }

    ghost function View(): (b: Buffer)
      requires Valid()
      reads this, clip, store.text, store.len
      ensures EditText.Valid(b)
    {
      Buffer(store.Lines()[..count], cy, cx, finalNewline, dirty, clip[..clipLen])
    }

    constructor ()
      ensures Valid() && fresh(store.text) && fresh(store.len) && fresh(clip)
      ensures View() == Buffer([""], 0, 0, false, false, "")
    {
      store := new Storage();
      clip := new char[LINE_MAX](_ => '\0');
      clipLen, count, cy, cx := 0, 1, 0, 0;
      finalNewline, dirty := false, false;
      new;
      assert store.Lines()[..1] == [""];
    }

    method EnsureLine()
      requires Ready()
      modifies this`count, store.text, store.len
      ensures Ready() && 0 < count
      ensures old(count) > 0 ==> count == old(count) && store.Lines() == old(store.Lines())
      ensures old(count) == 0 ==> count == 1 && store.Lines()[..1] == [""]
    {
      if count == 0 {
        count := 1;
        store.CutShort(0, 0);
        assert store.Lines()[..1] == [""];
      }
    }

    method ClampToLines()
      requires Ready() && 0 < count
      modifies this`cy, this`cx
      ensures Valid()
      ensures View() == Clamp(Buffer(store.Lines()[..count], old(cy), old(cx), finalNewline, dirty, clip[..clipLen]))
    {
      if cy >= count { cy := count - 1; }
      if cx > store.len[cy] { cx := store.len[cy]; }
    }

    /** rn_clamp_cursor; on a cursor already in range it changes nothing. */
    method ClampCursor()
      requires Ready()
      modifies this`count, this`cy, this`cx, store.text, store.len
      ensures Valid()
      ensures old(count) > 0 ==>
        && store.Lines() == old(store.Lines())
        && View() == Clamp(Buffer(old(store.Lines())[..old(count)], old(cy), old(cx), finalNewline, dirty, clip[..clipLen]))
      ensures old(count) == 0 ==> View() == Buffer([""], 0, 0, finalNewline, dirty, clip[..clipLen])
      ensures old(Valid()) ==> View() == old(View())
    {
      EnsureLine();
      ClampToLines();
    }

    /** rn_insert_line_at. */
    method InsertLineAt(at: nat, buf: array<char>, n: nat) returns (ok: bool)
      requires Ready() && n <= buf.Length
      modifies this`count, store.text, store.len
      ensures Ready() && ok == (old(count) < LINES_MAX && at <= old(count) && n < LINE_MAX)
      ensures ok ==> count == old(count) + 1
      ensures ok ==> store.Lines()[..count] == InsertLine(old(store.Lines())[..old(count)], at, buf[..n])
      ensures !ok ==> count == old(count) && store.Lines() == old(store.Lines())
    {
      if count >= LINES_MAX || at > count || n >= LINE_MAX {
        return false;
      }
      ghost var s := store.Lines();
      var i := count;
      assert s == MovedDown(s, i, count);
      while i > at
        invariant at <= i <= count == old(count) && Ready()
        invariant store.Lines() == MovedDown(s, i, count)
      {
        MovedDownStep(s, i, count);
        store.CopyLine(i, i - 1);
        i := i - 1;
      }
      MovedDownIsInsert(s, at, count, buf[..n]);
      store.StoreLine(at, buf, n);
      count := count + 1;
      ok := true;
    }

    /** rn_delete_line_at. */
    method DeleteLineAt(at: nat)
      requires Ready() && 0 < count
      modifies this`count, store.text, store.len
      ensures Ready()
      ensures at < old(count) ==> count == if old(count) > 1 then old(count) - 1 else 1
      ensures at < old(count) ==> store.Lines()[..count] == RemoveLine(old(store.Lines())[..old(count)], at)
      ensures at >= old(count) ==> count == old(count) && store.Lines() == old(store.Lines())
    {
      if at >= count { return; }
      ghost var s := store.Lines();
      MoveLinesUp(at);
      if count > 1 {
        MovedUpIsRemove(s, at, count);
        count := count - 1;
      } else {
        EmptyOnly();
      }
    }

    method EmptyOnly()
      requires Ready() && count == 1
      modifies store.text, store.len
      ensures Ready() && store.Lines()[..1] == [""]
    {
      store.CutShort(0, 0);
      assert store.Lines()[..1] == [store.Lines()[0]];
    }

    method MoveLinesUp(at: nat)
      requires Ready() && at < count
      modifies store.text, store.len
      ensures Ready() && store.Lines() == MovedUp(old(store.Lines()), at, count)
    {
      ghost var s := store.Lines();
      assert s == MovedUp(s, at, at + 1);
      for i := at + 1 to count
        invariant Ready() && store.Lines() == MovedUp(s, at, i)
      {
        MovedUpStep(s, at, i);
        store.CopyLine(i - 1, i);
      }
    }

    /** rn_insert_char for a character that is not a tab. */
    method InsertOne(c: char)
      requires Valid()
      modifies this, store.text, store.len
      ensures Valid() && View() == EditText.InsertChar(old(View()), c)
    {
      ClampCursor();
      ghost var s := store.Lines();
      if store.len[cy] + 1 >= LINE_MAX {
        return;
      }
      store.InsertAt(cy, cx, c);
      assert store.Lines()[..count] == s[..count][cy := store.Lines()[cy]];
      cx := cx + 1;
      dirty := true;
    }

    /** rn_insert_char. */
    method InsertChar(c: char)
      requires Valid()
      modifies this, store.text, store.len
      ensures Valid() && View() == Type(old(View()), c)
    {
      ClampCursor();
      if c == '\t' {
        ghost var b := View();
        for i := 0 to 4
          invariant Valid() && View() == InsertMany(b, ' ', i)
        {
          InsertOne(' ');
        }
      } else {
        InsertOne(c);
      }
    }

    /** The cursor's line is cut short and its rest inserted below. */
    method SplitLine()
      requires Valid() && count < LINES_MAX
      modifies this`count, store.text, store.len
      ensures Ready() && count == old(count) + 1
      ensures store.Lines()[..count] == SplitAt(old(store.Lines())[..old(count)], cy, cx)
    {
      ghost var s := store.Lines();
      var tail := store.len[cy] - cx;
      var buf := new char[LINE_MAX];
      store.FetchRow(cy, cx, buf, tail);
      assert buf[..tail] == s[cy][cx..];
      store.CutShort(cy, cx);
      var _ := InsertLineAt(cy + 1, buf, tail);
      SplitsLines(s, old(count), cy, cx);
    }

    /** rn_insert_newline. */
    method InsertNewline()
      requires Valid()
      modifies this, store.text, store.len
      ensures Valid() && View() == Newline(old(View()))
    {
      ClampCursor();
      if count >= LINES_MAX {
        return;
      }
      SplitLine();
      cy, cx := cy + 1, 0;
      assert store.Lines()[cy] == store.Lines()[..count][cy];
      finalNewline, dirty := true, true;
    }

    /** The character before column `x` of the cursor's line goes. */
    method RemoveInLine(x: nat)
      requires Valid() && x < store.len[cy] && (x == cx || x + 1 == cx)
      modifies this`cx, this`dirty, store.text, store.len
      ensures Valid()
      ensures var b := old(View());
              var l := b.lines[b.cy];
              View() == b.(lines := b.lines[b.cy := l[..x] + l[x + 1..]], cx := x, dirty := true)
    {
      ghost var s := store.Lines();
      store.RemoveAt(cy, x);
      assert store.Lines()[..count] == s[..count][cy := store.Lines()[cy]];
      cx := x;
      dirty := true;
    }

    /** rn_backspace. */
    method Backspace()
      requires Valid()
      modifies this, store.text, store.len
      ensures Valid() && View() == EditText.Backspace(old(View()))
    {
      ClampCursor();
      if cx > 0 {
        RemoveInLine(cx - 1);
      } else if cy > 0 {
        BackspaceAtStart();
      }
    }

    /** rn_backspace at the start of a line that is not the first. */
    method BackspaceAtStart()
      requires Valid() && cx == 0 < cy
      modifies this, store.text, store.len
      ensures Valid() && View() == EditText.Backspace(old(View()))
    {
      var prev := store.len[cy - 1];
      if prev + store.len[cy] >= LINE_MAX {
        return;
      }
      JoinNext(cy - 1);
      cy, cx := cy - 1, prev;
      dirty := true;
    }

    /** Line `y + 1` onto the end of line `y`. */
    method JoinNext(y: nat)
      requires Ready() && y + 1 < count && store.len[y] + store.len[y + 1] < LINE_MAX
      modifies this`count, store.text, store.len
      ensures Ready() && count == old(count) - 1
      ensures store.Lines()[..count] == JoinAt(old(store.Lines())[..old(count)], y)
      ensures store.len[y] == old(store.len[y]) + old(store.len[y + 1])
    {
      ghost var s := store.Lines();
      store.AppendLine(y, y + 1);
      DeleteLineAt(y + 1);
      JoinsLines(s, old(count), y);
      assert store.Lines()[y] == store.Lines()[..count][y];
    }

    /** rn_delete. */
    method DeleteChar()
      requires Valid()
      modifies this, store.text, store.len
      ensures Valid() && View() == Delete(old(View()))
    {
      ClampCursor();
      var n := store.len[cy];
      if cx < n {
        RemoveInLine(cx);
        return;
      }
      if cy + 1 >= count {
        return;
      }
      if n + store.len[cy + 1] >= LINE_MAX {
        return;
      }
      JoinHere();
    }

    /** The next line joins the cursor's line, which ends at the cursor. */
    method JoinHere()
      requires Valid() && cx == store.len[cy] && cy + 1 < count && store.len[cy] + store.len[cy + 1] < LINE_MAX
      modifies this`count, this`dirty, store.text, store.len
      ensures Valid() && View() == old(View()).(lines := JoinAt(old(View()).lines, cy), dirty := true)
    {
      JoinNext(cy);
      dirty := true;
    }

    method CopyToClip()
      requires Valid()
      modifies this`clipLen, clip
      ensures Valid() && View() == old(View()).(clip := old(View()).lines[cy])
    {
      clipLen := store.len[cy];
      store.FetchRow(cy, 0, clip, clipLen + 1);
      assert clip[..clipLen] == store.Lines()[cy];
    }

    /** rn_cut_line. */
    method CutLine()
      requires Valid()
      modifies this, clip, store.text, store.len
      ensures Valid() && View() == Cut(old(View()))
    {
      ClampCursor();
      CopyToClip();
      DeleteCurrent();
    }

    /** The cursor's line goes; the cursor stays in range. */
    method DeleteCurrent()
      requires Valid()
      modifies this`count, this`cy, this`cx, this`dirty, store.text, store.len
      ensures Valid() && View() == Cut(old(View())).(clip := old(View()).clip)
    {
      DeleteLineAt(cy);
      ToLineStart();
      dirty := true;
    }

    /** The cursor goes to the start of its line, or of the last one. */
    method ToLineStart()
      requires Ready() && 0 < count
      modifies this`cy, this`cx
      ensures cx == 0 && cy == (if old(cy) >= count then count - 1 else old(cy)) && Valid()
    {
      if cy >= count { cy := count - 1; }
      cx := 0;
    }

    /** rn_paste_line. */
    method PasteLine()
      requires Valid()
      modifies this, store.text, store.len
      ensures Valid() && View() == Paste(old(View()))
    {
      ghost var s := store.Lines();
      var at := cy + 1;
      var ok := InsertLineAt(at, clip, clipLen);
      if !ok {
        assert store.Lines()[cy] == s[cy];
        return;
      }
      cy, cx := at, clipLen;
      assert store.Lines()[cy] == store.Lines()[..count][cy];
      dirty := true;
    }

    /** rn_move_left. */
    method MoveLeft()
      requires Valid()
      modifies this, store.text, store.len
      ensures Valid() && View() == Left(old(View()))
    {
      ClampCursor();
      if cx > 0 {
        cx := cx - 1;
      } else if cy > 0 {
        cy := cy - 1;
        cx := store.len[cy];
      }
    }

    /** rn_move_right. */
    method MoveRight()
      requires Valid()
      modifies this, store.text, store.len
      ensures Valid() && View() == Right(old(View()))
    {
      ClampCursor();
      if cx < store.len[cy] {
        cx := cx + 1;
      } else if cy + 1 < count {
        cy, cx := cy + 1, 0;
      }
    }

    /** The cursor to a row, its column cut to that row. */
    method MoveToRow(y: nat)
      requires Valid()
      modifies this, store.text, store.len
      ensures Valid() && View() == ToRow(old(View()), y)
    {
      cy := y;
      ClampCursor();
    }

    /** rn_home and rn_end. */
    method MoveToColumn(x: nat)
      requires Valid() && x <= store.len[cy]
      modifies this`cx
      ensures Valid() && View() == old(View()).(cx := x)
    {
      cx := x;
    }

    /** rn_move_up, rn_move_down, rn_page_up, rn_page_down, rn_home, rn_end. */
    method MoveTo(key: Key)
      requires Valid() && IsMove(key)
      modifies this, store.text, store.len
      ensures Valid() && View() == Press(old(View()), key)
    {
      if key.GoLeft? {
        MoveLeft();
      } else if key.GoRight? {
        MoveRight();
      } else if key.GoHome? {
        MoveToColumn(0);
      } else if key.GoEnd? {
        MoveToColumn(store.len[cy]);
      } else {
        MoveToRow(TargetRow(cy, count, key));
      }
    }

    /** The editing part of rn_handle_key. */
    method HandleKey(key: Key)
      requires Valid()
      modifies this, clip, store.text, store.len
      ensures Valid() && View() == Press(old(View()), key)
    {
      if key.Char? {
        InsertChar(key.c);
      } else if key.Enter? {
        InsertNewline();
      } else if key.Back? {
        Backspace();
      } else if key.Del? {
        DeleteChar();
      } else if key.CutLine? {
        CutLine();
      } else if key.PasteLine? {
        PasteLine();
      } else {
        MoveTo(key);
      }
    }
  }
}
