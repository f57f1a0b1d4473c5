/** Loading a file into the line editor and saving it (user/bin/nano.c), as
    functions of the file's contents. */
module EditFile {
  import opened EditText
  import opened EditRuns

  /** Carriage returns are dropped on loading. */
  function StripCr(s: string): string {
    if s == "" then "" else StripCr(s[..|s| - 1]) + if s[|s| - 1] == '\r' then "" else [s[|s| - 1]]
  }

  // ----- Loading -----------------------------------------------------------

  /** The finished lines, the line being read and whether a newline came last;
      or what stopped the load. */
  datatype Load = Reading(done: seq<Line>, cur: Line, tail: bool) | TooManyLines | LineTooLong

  function LoadChar(st: Load, c: char): Load {
    if !st.Reading? || c == '\r' then st
    else if c == '\n' then
      if |st.done| + 1 >= LINES_MAX then TooManyLines else Reading(st.done + [st.cur], "", true)
    else if |st.cur| + 1 >= LINE_MAX then LineTooLong
    else Reading(st.done, st.cur + [c], false)
  }

  function LoadAll(s: string): Load {
    if s == "" then Reading([], "", false) else LoadChar(LoadAll(s[..|s| - 1]), s[|s| - 1])
  }

  /** The loaded lines: an empty last line after a final newline is not kept. */
  function Loaded(st: Load): (lines: seq<Line>)
    requires st.Reading?
    ensures lines != []
  {
    if st.done != [] && st.cur == "" && st.tail then st.done else st.done + [st.cur]
  }

  /** What a save writes. */
  function Saved(lines: seq<Line>, finalNewline: bool): string
    requires lines != []
  {
    Flat(lines) + if finalNewline then "\n" else ""
  }

  lemma {:induction false} FlatIsClosed(lines: seq<Line>)
    requires lines != []
    ensures Flat(lines) == Closed(lines[..|lines| - 1]) + lines[|lines| - 1]
    ensures Flat(lines) + "\n" == Closed(lines)
  {
    FlatSplits(lines, |lines| - 1);
    assert lines[|lines|..] == [];
  }

  /** After any part of a file, the lines so far hold that part without its
      carriage returns, within the limits. */
  lemma {:induction false} LoadKeepsText(s: string)
    ensures var st := LoadAll(s);
            st.Reading? ==>
              && Closed(st.done) + st.cur == StripCr(s)
              && Fits(st.done + [st.cur]) && NoBreaks(st.done + [st.cur])
              && (st.tail <==> st.done != [] && st.cur == "")
  {
    if s != "" {
      var init, c := s[..|s| - 1], s[|s| - 1];
      LoadKeepsText(init);
      var st := LoadAll(init);
      if LoadAll(s).Reading? {
        ClosedSnoc(st.done, st.cur);
        Regroup(Closed(st.done), st.cur, [c]);
        StepFits(st, c);
      }
    }
  }

  lemma {:induction false} StepFits(st: Load, c: char)
    requires st.Reading? && LoadChar(st, c).Reading?
    requires Fits(st.done + [st.cur]) && NoBreaks(st.done + [st.cur])
    ensures var t := LoadChar(st, c); Fits(t.done + [t.cur]) && NoBreaks(t.done + [t.cur])
  {
    var a, t := st.done + [st.cur], LoadChar(st, c);
    assert forall i :: 0 <= i < |st.done| ==> a[i] == st.done[i];
    assert a[|st.done|] == st.cur;
  }

  /** Saving an unedited file writes the file without its carriage returns, with
      a final newline exactly when the file had one. */
  lemma {:induction false} SaveUndoesLoad(s: string)
    requires LoadAll(s).Reading?
    ensures Saved(Loaded(LoadAll(s)), LoadAll(s).tail) == StripCr(s)
  {
    LoadKeepsText(s);
    var st := LoadAll(s);
    var all := st.done + [st.cur];
    FlatIsClosed(all);
    assert all[..|all| - 1] == st.done;
    if st.tail { FlatIsClosed(st.done); }
  }

  // ----- Which files load --------------------------------------------------

  /** The lines of a text. */
  function Split(t: string): (r: seq<Line>)
    ensures r != []
  {
    if t == "" then [""]
    else
      var r, c := Split(t[..|t| - 1]), t[|t| - 1];
      if c == '\n' then r + [""] else r[|r| - 1 := r[|r| - 1] + [c]]
  }

  lemma {:induction false} SplitIsFlat(t: string)
    ensures Flat(Split(t)) == t && NoBreaks(Split(t))
  {
    if t != "" {
      var init, c := t[..|t| - 1], t[|t| - 1];
      SplitIsFlat(init);
      if c == '\n' { FlatNewLine(Split(init)); } else { FlatMore(Split(init), c); }
    }
  }

  lemma {:induction false} FlatNewLine(r: seq<Line>)
    requires r != [] && NoBreaks(r)
    ensures Flat(r + [""]) == Flat(r) + "\n" && NoBreaks(r + [""])
  {
    FlatIsClosed(r);
    FlatIsClosed(r + [""]);
    assert (r + [""])[..|r|] == r;
  }

  lemma {:induction false} FlatMore(r: seq<Line>, c: char)
    requires r != [] && NoBreaks(r) && c != '\n'
    ensures var more := r[|r| - 1 := r[|r| - 1] + [c]]; Flat(more) == Flat(r) + [c] && NoBreaks(more)
  {
    var more := r[|r| - 1 := r[|r| - 1] + [c]];
    FlatIsClosed(r);
    FlatIsClosed(more);
    assert more[..|r| - 1] == r[..|r| - 1];
    Regroup(Closed(r[..|r| - 1]), r[|r| - 1], [c]);
  }

  /** Splitting and joining are inverse on lines without breaks. */
  lemma {:induction false} SplitUndoesFlat(lines: seq<Line>)
    requires lines != [] && NoBreaks(lines)
    ensures Split(Flat(lines)) == lines
  {
    SplitIsFlat(Flat(lines));
    FlatInjective(Split(Flat(lines)), lines);
  }

  lemma {:induction false} SplitGrows(t: string, c: char)
    requires !Fits(Split(t))
    ensures !Fits(Split(t + [c]))
  {
    assert (t + [c])[..|t|] == t;
    var r, g := Split(t), Split(t + [c]);
    if |r| <= LINES_MAX {
      var i :| 0 <= i < |r| && |r[i]| >= LINE_MAX;
      assert |g[i]| >= |r[i]|;
    }
  }

  /** A file loads if and only if, carriage returns aside, it has at most 1024
      lines (counting what follows its last newline) of at most 511 characters. */
  lemma {:induction false} LoadsExactlyWhatFits(s: string)
    ensures LoadAll(s).Reading? <==> Fits(Split(StripCr(s)))
    ensures LoadAll(s).Reading? ==> LoadAll(s).done + [LoadAll(s).cur] == Split(StripCr(s))
  {
    if s != "" {
      var init, c := s[..|s| - 1], s[|s| - 1];
      LoadsExactlyWhatFits(init);
      var st, t := LoadAll(init), StripCr(init);
      assert t + "" == t;
      if c != '\r' {
        assert (t + [c])[..|t|] == t;
        if st.Reading? { StepSplits(st, t, c); } else { SplitGrows(t, c); }
      }
    }
  }

  lemma {:induction false} StepSplits(st: Load, t: string, c: char)
    requires st.Reading? && c != '\r' && st.done + [st.cur] == Split(t) && Fits(Split(t))
    ensures LoadChar(st, c).Reading? <==> Fits(Split(t + [c]))
    ensures var n := LoadChar(st, c); n.Reading? ==> n.done + [n.cur] == Split(t + [c])
  {
    assert (t + [c])[..|t|] == t;
    var r, g := Split(t), Split(t + [c]);
    assert r[..|r| - 1] == st.done && r[|r| - 1] == st.cur;
    if c == '\n' {
      assert g == r + [""] && |g| == |st.done| + 2;
    } else {
      assert g == st.done + [st.cur + [c]] && |g[|r| - 1]| == |st.cur| + 1;
      assert forall i :: 0 <= i < |r| - 1 ==> g[i] == r[i];
    }
  }

  // ----- Reading back what was saved ---------------------------------------

  predicate Plain(lines: seq<Line>) {
    forall i :: 0 <= i < |lines| ==> '\n' !in lines[i] && '\r' !in lines[i]
  }

  lemma {:induction false} StripNothing(s: string)
    requires '\r' !in s
    ensures StripCr(s) == s
  {
    if s != "" {
      assert s[|s| - 1] in s;
      StripNothing(s[..|s| - 1]);
      assert s == s[..|s| - 1] + [s[|s| - 1]];
    }
  }

  lemma {:induction false} OpenedPlain(lines: seq<Line>)
    requires Plain(lines)
    ensures '\r' !in Opened(lines)
    decreases |lines|
  {
    if lines != [] {
      assert forall i :: 0 <= i < |lines[1..]| ==> lines[1..][i] == lines[i + 1];
      OpenedPlain(lines[1..]);
    }
  }

  lemma {:induction false} SavedPlain(lines: seq<Line>, finalNewline: bool)
    requires lines != [] && Plain(lines)
    ensures '\r' !in Saved(lines, finalNewline) && StripCr(Saved(lines, finalNewline)) == Saved(lines, finalNewline)
  {
    assert forall i :: 0 <= i < |lines[1..]| ==> lines[1..][i] == lines[i + 1];
    OpenedPlain(lines[1..]);
    StripNothing(Saved(lines, finalNewline));
  }

  lemma {:induction false} SavedSplits(lines: seq<Line>, finalNewline: bool)
    requires lines != [] && NoBreaks(lines)
    ensures Split(Saved(lines, finalNewline)) == lines + if finalNewline then [""] else []
  {
    if finalNewline {
      var all := lines + [""];
      FlatIsClosed(all);
      FlatIsClosed(lines);
      assert all[..|all| - 1] == lines && Closed(lines) + "" == Closed(lines);
      SplitUndoesFlat(all);
    } else {
      assert Flat(lines) + "" == Flat(lines) && lines + [] == lines;
      SplitUndoesFlat(lines);
    }
  }

  /** What was saved can be opened again if and only if the lines and a final
      newline still fit; a full buffer of 1024 lines with one does not. The same
      lines and flag come back if and only if the text does not end in an empty
      line of its own that a final newline now stands for. */
  lemma {:induction false} LoadUndoesSave(lines: seq<Line>, finalNewline: bool)
    requires lines != [] && Plain(lines) && Fits(lines)
    ensures var st := LoadAll(Saved(lines, finalNewline));
            && (st.Reading? <==> |lines| + (if finalNewline then 1 else 0) <= LINES_MAX)
            && (st.Reading? ==> ((Loaded(st) == lines && st.tail == finalNewline) <==>
                 (finalNewline || |lines| == 1 || lines[|lines| - 1] != "")))
  {
    var s := Saved(lines, finalNewline);
    SavedPlain(lines, finalNewline);
    SavedSplits(lines, finalNewline);
    LoadsExactlyWhatFits(s);
    LoadKeepsText(s);
    SplitFits(lines, finalNewline);
    if LoadAll(s).Reading? { LoadedSame(lines, finalNewline, LoadAll(s)); }
  }

  lemma {:induction false} SplitFits(lines: seq<Line>, finalNewline: bool)
    requires Fits(lines)
    ensures Fits(lines + if finalNewline then [""] else []) <==> |lines| + (if finalNewline then 1 else 0) <= LINES_MAX
  {}

  lemma {:induction false} LoadedSame(lines: seq<Line>, finalNewline: bool, st: Load)
    requires lines != [] && st.Reading? && st.done + [st.cur] == lines + (if finalNewline then [""] else [])
    requires st.tail <==> st.done != [] && st.cur == ""
    ensures (Loaded(st) == lines && st.tail == finalNewline) <==> (finalNewline || |lines| == 1 || lines[|lines| - 1] != "")
  {
    var all := st.done + [st.cur];
    assert all[..|all| - 1] == st.done && all[|all| - 1] == st.cur;
    if finalNewline {
      assert all[..|all| - 1] == lines;
    } else {
      assert all == lines;
    }
  }
}
