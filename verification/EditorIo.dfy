/** The line editor's file reads and writes (user/bin/nano.c): loading through
    reads of any size and saving through writes of any size. The descriptors
    stand for the kernel's own; a plan says what each call does. */
module EditorIo {
  import opened EditText
  import opened EditRuns
  import opened EditFile
  import opened Editor

  const READ_CHUNK: nat := 512
  const ERR_IO: int := -4

  // ----- Descriptors -------------------------------------------------------

  /** No call of the plan fails or, for a write, stalls. */
  predicate Healthy(plan: seq<int>, least: int) {
    forall i :: 0 <= i < |plan| ==> plan[i] >= least
  }

  /** A file being read. Each call gives at least one of the remaining bytes and
      at most what was asked for, or fails. */
  class ReadEnd {
    var rest: string
    var plan: seq<int>

    method Read(cap: nat) returns (got: int, data: string)
      requires 0 < cap
      modifies this
      ensures got < 0 ==> data == "" && rest == old(rest)
      ensures got >= 0 ==> got == |data| <= cap && old(rest) == data + rest && (data == "" <==> old(rest) == "")
      ensures Healthy(old(plan), 0) ==> got >= 0 && Healthy(plan, 0)
    {
      var want := if plan == [] then cap else plan[0];
      plan := if plan == [] then [] else plan[1..];
      if want < 0 {
        return want, "";
      }
      var n := if want == 0 then 1 else if want > cap then cap else want;
      if n > |rest| { n := |rest|; }
      got, data, rest := n, rest[..n], rest[n..];
    }
  }

  /** A file being written. Each call takes some of the bytes, none, or fails. */
  class WriteEnd {
    var out: string
    var plan: seq<int>

    method Write(s: string) returns (wrote: int)
      modifies this
      ensures wrote <= |s|
      ensures out == old(out) + if wrote > 0 then s[..wrote] else ""
      ensures s != "" && Healthy(old(plan), 1) ==> wrote > 0 && Healthy(plan, 1)
    {
      var want := if plan == [] then |s| else plan[0];
      plan := if plan == [] then [] else plan[1..];
      wrote := if want > |s| then |s| else want;
      out := out + if wrote > 0 then s[..wrote] else "";
    }
  }

  // ----- Saving ------------------------------------------------------------

  /** rn_write_all: everything on success; otherwise a part from the front. */
  method WriteAll(fd: WriteEnd, s: string) returns (rc: int)
    modifies fd
    ensures rc <= 0
    ensures old(fd.out) <= fd.out <= old(fd.out) + s
    ensures rc == 0 ==> fd.out == old(fd.out) + s
    ensures Healthy(old(fd.plan), 1) ==> rc == 0 && Healthy(fd.plan, 1)
  {
    ghost var start := fd.out;
    var off := 0;
    while off < |s|
      invariant off <= |s|
      invariant fd.out == start + s[..off]
      invariant Healthy(old(fd.plan), 1) ==> Healthy(fd.plan, 1)
    {
      var wrote := fd.Write(s[off..]);
      if wrote < 0 {
        return wrote;
      }
      if wrote == 0 {
        return ERR_IO;
      }
      assert s[..off] + s[off..][..wrote] == s[..off + wrote];
      off := off + wrote;
    }
    assert s[..off] == s;
    rc := 0;
  }

  /** What has been written when the first `y` lines are out. */
  function Written(lines: seq<Line>, finalNewline: bool, y: nat): string
    requires lines != [] && y <= |lines|
  {
    if y < |lines| then Closed(lines[..y]) else Saved(lines, finalNewline)
  }

  function Ending(lines: seq<Line>, finalNewline: bool, y: nat): string {
    if y + 1 < |lines| || finalNewline then "\n" else ""
  }

  lemma {:induction false} WrittenGrows(lines: seq<Line>, finalNewline: bool, y: nat)
    requires y < |lines|
    ensures Written(lines, finalNewline, y + 1) == Written(lines, finalNewline, y) + lines[y] + Ending(lines, finalNewline, y)
  {
    FlatIsClosed(lines);
    assert lines[..y + 1] == lines[..y] + [lines[y]];
    ClosedSnoc(lines[..y], lines[y]);
    if y + 1 == |lines| { assert lines[..y + 1] == lines; }
  }

  lemma {:induction false} WrittenIsPrefix(lines: seq<Line>, finalNewline: bool, y: nat)
    requires lines != [] && y <= |lines|
    ensures Written(lines, finalNewline, y) <= Saved(lines, finalNewline)
    decreases |lines| - y
  {
    if y < |lines| {
      WrittenGrows(lines, finalNewline, y);
      WrittenIsPrefix(lines, finalNewline, y + 1);
    }
  }

  /** One line of rn_write_buffer. */
  method WriteLine(fd: WriteEnd, line: Line, ending: string) returns (rc: int)
    modifies fd
    ensures rc <= 0
    ensures old(fd.out) <= fd.out <= old(fd.out) + line + ending
    ensures rc == 0 ==> fd.out == old(fd.out) + line + ending
    ensures Healthy(old(fd.plan), 1) ==> rc == 0 && Healthy(fd.plan, 1)
  {
    rc := 0;
    if |line| != 0 {
      rc := WriteAll(fd, line);
      if rc < 0 {
        return;
      }
    }
    if |ending| != 0 {
      rc := WriteAll(fd, ending);
    }
  }

  method FetchLine(store: Storage, y: nat) returns (line: Line)
    requires store.Ok() && y < LINES_MAX
    ensures line == store.Lines()[y]
  {
    line := "";
    for i := 0 to store.len[y]
      invariant line == store.LineAt(y)[..i]
    {
      line := line + [store.text[y, i]];
    }
  }

  /** A line written in part leaves part of the whole. */
  lemma {:induction false} PartOfWhole(start: string, lines: seq<Line>, finalNewline: bool, y: nat, out: string)
    requires y < |lines|
    requires start + Written(lines, finalNewline, y) <= out
    requires out <= start + Written(lines, finalNewline, y) + lines[y] + Ending(lines, finalNewline, y)
    ensures start <= out <= start + Saved(lines, finalNewline)
  {
    WrittenGrows(lines, finalNewline, y);
    WrittenIsPrefix(lines, finalNewline, y + 1);
    var w, l, e := Written(lines, finalNewline, y), lines[y], Ending(lines, finalNewline, y);
    assert start + w + l + e == start + (w + l + e);
  }

  lemma {:induction false} RowDone(start: string, lines: seq<Line>, finalNewline: bool, y: nat)
    requires y < |lines|
    ensures start + Written(lines, finalNewline, y) + lines[y] + Ending(lines, finalNewline, y) ==
            start + Written(lines, finalNewline, y + 1)
  {
    WrittenGrows(lines, finalNewline, y);
    var w, l, e := Written(lines, finalNewline, y), lines[y], Ending(lines, finalNewline, y);
    assert start + w + l + e == start + (w + l + e);
  }

  /** Line `y` of the buffer, when the lines before it are out. */
  method WriteRow(ed: Nano, fd: WriteEnd, y: nat, ghost start: string) returns (rc: int)
    requires ed.Valid() && y < ed.count
    requires fd.out == start + Written(ed.View().lines, ed.finalNewline, y)
    modifies fd
    ensures rc <= 0
    ensures start <= fd.out <= start + Saved(ed.View().lines, ed.finalNewline)
    ensures rc == 0 ==> fd.out == start + Written(ed.View().lines, ed.finalNewline, y + 1)
    ensures Healthy(old(fd.plan), 1) ==> rc == 0 && Healthy(fd.plan, 1)
  {
    ghost var lines := ed.View().lines;
    var line := FetchLine(ed.store, y);
    var ending := if y + 1 < ed.count || ed.finalNewline then "\n" else "";
    assert line == lines[y] && ending == Ending(lines, ed.finalNewline, y);
    rc := WriteRowText(fd, line, ending, lines, ed.finalNewline, y, start);
  }

  method WriteRowText(fd: WriteEnd, line: Line, ending: string, ghost lines: seq<Line>, ghost finalNewline: bool, ghost y: nat, ghost start: string)
    returns (rc: int)
    requires y < |lines| && line == lines[y] && ending == Ending(lines, finalNewline, y)
    requires fd.out == start + Written(lines, finalNewline, y)
    modifies fd
    ensures rc <= 0
    ensures start <= fd.out <= start + Saved(lines, finalNewline)
    ensures rc == 0 ==> fd.out == start + Written(lines, finalNewline, y + 1)
    ensures Healthy(old(fd.plan), 1) ==> rc == 0 && Healthy(fd.plan, 1)
  {
    rc := WriteLine(fd, line, ending);
    PartOfWhole(start, lines, finalNewline, y, fd.out);
    RowDone(start, lines, finalNewline, y);
  }

  /** rn_write_buffer: a save that succeeds has written the whole text; one that
      fails has written a part of it from the front. */
  method WriteBuffer(ed: Nano, fd: WriteEnd) returns (rc: int)
    requires ed.Valid()
    modifies fd
    ensures rc <= 0
    ensures old(fd.out) <= fd.out <= old(fd.out) + Saved(ed.View().lines, ed.finalNewline)
    ensures rc == 0 ==> fd.out == old(fd.out) + Saved(ed.View().lines, ed.finalNewline)
    ensures Healthy(old(fd.plan), 1) ==> rc == 0
  {
    ghost var start := fd.out;
    rc := 0;
    assert start + "" == start;
    for y := 0 to ed.count
      invariant rc == 0 && fd.out == start + Written(ed.View().lines, ed.finalNewline, y)
      invariant Healthy(old(fd.plan), 1) ==> Healthy(fd.plan, 1)
    {
      rc := WriteRow(ed, fd, y, start);
      if rc < 0 {
        return;
      }
    }
  }

  // ----- Loading -----------------------------------------------------------

  lemma {:induction false} LoadExtends(s: string, c: char)
    ensures LoadAll(s + [c]) == LoadChar(LoadAll(s), c)
  {
    assert (s + [c])[..|s + [c]| - 1] == s;
  }

  /** Once stopped, a load stays stopped. */
  lemma {:induction false} LoadStays(s: string, t: string)
    requires !LoadAll(s).Reading?
    ensures LoadAll(s + t) == LoadAll(s)
    decreases |t|
  {
    if t == "" {
      assert s + t == s;
    } else {
      var init := t[..|t| - 1];
      LoadStays(s, init);
      LoadExtends(s + init, t[|t| - 1]);
      assert s + t == s + init + [t[|t| - 1]];
    }
  }

  /** The storage holds what a load has read: rows above `y` and `x` characters. */
  ghost predicate Holds(ed: Nano, y: nat, x: nat, st: Load)
    reads ed, ed.store.text, ed.store.len
  {
    && ed.store.OkBut(y) && y < LINES_MAX && x < LINE_MAX && ed.count == y + 1
    && st == Reading(ed.store.Above(y), ed.store.Part(y, x), ed.finalNewline)
  }

  /** One character of rn_load_file. */
  method LoadStep(ed: Nano, y: nat, x: nat, c: char, ghost st: Load) returns (y': nat, x': nat, stop: bool, long: bool)
    requires Holds(ed, y, x, st)
    modifies ed`count, ed`finalNewline, ed.store.text, ed.store.len
    ensures stop <==> !LoadChar(st, c).Reading?
    ensures stop ==> LoadChar(st, c) == if long then LineTooLong else TooManyLines
    ensures !stop ==> Holds(ed, y', x', LoadChar(st, c))
  {
    y', x', stop, long := y, x, false, false;
    if c == '\r' {
      return;
    }
    if c == '\n' {
      if y + 1 >= LINES_MAX {
        stop := true;
        return;
      }
      ed.store.EndLine(y, x);
      ed.finalNewline := true;
      y', x' := y + 1, 0;
      ghost var lines := ed.store.Lines();
      assert lines[..y + 1] == st.done + [st.cur];
      ed.store.StartLine(y');
      ed.count := y' + 1;
    } else {
      ed.finalNewline := false;
      if x + 1 >= LINE_MAX {
        stop, long := true, true;
        return;
      }
      ed.store.PutChar(y, x, c);
      x' := x + 1;
    }
  }

  /** The characters of one read. */
  method LoadChunk(ed: Nano, y0: nat, x0: nat, data: string, ghost read: string)
    returns (y: nat, x: nat, stop: bool, long: bool)
    requires Holds(ed, y0, x0, LoadAll(read))
    modifies ed`count, ed`finalNewline, ed.store.text, ed.store.len
    ensures stop <==> !LoadAll(read + data).Reading?
    ensures stop ==> LoadAll(read + data) == if long then LineTooLong else TooManyLines
    ensures !stop ==> Holds(ed, y, x, LoadAll(read + data))
  {
    y, x, stop, long := y0, x0, false, false;
    ghost var seen := read;
    assert read + data[..0] == read;
    for i := 0 to |data|
      invariant !stop && seen == read + data[..i] && Holds(ed, y, x, LoadAll(seen))
    {
      LoadExtends(seen, data[i]);
      NextPart(read, data, i);
      y, x, stop, long := LoadStep(ed, y, x, data[i], LoadAll(seen));
      seen := seen + [data[i]];
      if stop {
        LoadStays(seen, data[i + 1..]);
        return;
      }
    }
    assert data[..|data|] == data;
  }

  lemma {:induction false} NextPart(read: string, data: string, i: nat)
    requires i < |data|
    ensures read + data[..i + 1] == read + data[..i] + [data[i]]
    ensures read + data[..i] + [data[i]] + data[i + 1..] == read + data
  {}

  datatype Outcome = Success | ReadFailed | Refused(long: bool)

  /** The end of rn_load_file: the last line is closed, and dropped when it is
      empty after a final newline. */
  method FinishLoad(ed: Nano, y: nat, x: nat, ghost st: Load)
    requires Holds(ed, y, x, st) && ed.clip.Length == LINE_MAX && ed.clipLen < LINE_MAX && ed.cy == 0 && ed.cx == 0
    modifies ed`count, ed.store.text, ed.store.len
    ensures ed.Valid() && ed.View().lines == Loaded(st) && ed.finalNewline == st.tail
  {
    ed.store.EndLine(y, x);
    ghost var lines := ed.store.Lines();
    assert lines[..y + 1] == st.done + [st.cur];
    if ed.count > 1 && ed.store.len[ed.count - 1] == 0 && ed.finalNewline {
      ed.count := ed.count - 1;
    }
  }

  /** The read loop of rn_load_file. */
  method ReadAll(ed: Nano, fd: ReadEnd) returns (r: Outcome, y: nat, x: nat)
    requires Holds(ed, 0, 0, LoadAll(""))
    modifies ed`count, ed`finalNewline, ed.store.text, ed.store.len, fd
    ensures r == Success ==> Holds(ed, y, x, LoadAll(old(fd.rest)))
    ensures r.Refused? ==> LoadAll(old(fd.rest)) == if r.long then LineTooLong else TooManyLines
    ensures Healthy(old(fd.plan), 0) ==> r != ReadFailed
  {
    ghost var read := "";
    y, x := 0, 0;
    while true
      invariant Holds(ed, y, x, LoadAll(read)) && old(fd.rest) == read + fd.rest
      invariant Healthy(old(fd.plan), 0) ==> Healthy(fd.plan, 0)
      decreases |fd.rest|
    {
      var got, data := fd.Read(READ_CHUNK);
      if got < 0 {
        return ReadFailed, y, x;
      }
      Regroup(read, data, fd.rest);
      if got == 0 {
        assert read + "" == read;
        return Success, y, x;
      }
      var stop, long;
      y, x, stop, long := LoadChunk(ed, y, x, data, read);
      read := read + data;
      if stop {
        LoadStays(read, fd.rest);
        return Refused(long), y, x;
      }
    }
  }

  /** rn_load_file once the file is open: whatever the sizes of the reads, the
      lines loaded, or the limit met, depend only on the contents. */
  method LoadFile(ed: Nano, fd: ReadEnd) returns (r: Outcome)
    requires ed.Ready() && ed.cy == 0 && ed.cx == 0
    modifies ed`count, ed`finalNewline, ed.store.text, ed.store.len, fd
    ensures r == Success ==>
      var st := LoadAll(old(fd.rest));
      st.Reading? && ed.Valid() && ed.View().lines == Loaded(st) && ed.finalNewline == st.tail
    ensures r.Refused? ==> LoadAll(old(fd.rest)) == if r.long then LineTooLong else TooManyLines
    ensures Healthy(old(fd.plan), 0) ==> r != ReadFailed
  {
    ed.count := 1;
    ed.finalNewline := false;
    ed.store.StartLine(0);
    var y, x;
    r, y, x := ReadAll(ed, fd);
    if r == Success {
      FinishLoad(ed, y, x, LoadAll(old(fd.rest)));
    }
  }
}
