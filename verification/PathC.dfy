/** The C normaliser (kernel/vfs/path.c), working in place on the caller's
    buffer. */
module PathC {
  import opened Path

  /** strnlen(in, max) over the memory at `in`. */
  method StrNLen(s: array<u8>, max: nat) returns (n: nat)
    requires 0 in s[..] || max <= s.Length
    ensures n <= s.Length && n <= max
    ensures forall i :: 0 <= i < n ==> s[i] != 0
    ensures n < max ==> n < s.Length && s[n] == 0
  {
    n := 0;
    while n < max && s[n] != 0
      invariant n <= max && n <= s.Length
      invariant forall i :: 0 <= i < n ==> s[i] != 0
      invariant n < max ==> n < s.Length
    {
      n := n + 1;
      assert n == s.Length ==> 0 !in s[..];
    }
  }

  method PopComponent(out: array<u8>, pos0: nat, ghost st: seq<Name>) returns (ok: bool, pos: nat)
    requires pos0 <= out.Length && StackOk(st) && out[..pos0] == Render(st)
    modifies out
    ensures ok <==> st != []
    ensures !ok ==> pos == pos0 && out[..] == old(out[..])
    ensures ok ==> pos < pos0 && out[..pos] == Render(st[..|st| - 1]) && out[pos] == 0
  {
    RenderIsLong(st);
    pos := pos0;
    if pos <= 1 { return false, pos; }
    LastName(st);
    ghost var r, p := Render(st), |Body(st[..|st| - 1])| + 1;
    while pos > 1 && out[pos - 1] != SLASH
      invariant p <= pos <= pos0
      invariant out[..] == old(out[..])
    {
      assert out[pos - 1] == r[pos - 1];
      pos := pos - 1;
    }
    assert out[pos - 1] == r[pos - 1];
    if pos > 1 && out[pos - 1] == SLASH { pos := pos - 1; }
    assert out[..pos] == r[..pos];
    out[pos] := 0;
    ok := true;
  }

  method AppendComponent(out: array<u8>, outSize: nat, pos0: nat, comp: seq<u8>, ghost st: seq<Name>)
    returns (ok: bool, pos: nat)
    requires pos0 <= outSize <= out.Length && StackOk(st) && out[..pos0] == Render(st)
    modifies out
    ensures comp == [] ==> ok && pos == pos0 && out[..] == old(out[..])
    ensures comp != [] ==> (ok <==> NameOk(comp) && |Render(st + [comp])| < outSize)
    ensures comp != [] && ok ==> pos < outSize && out[..pos] == Render(st + [comp]) && out[pos] == 0
  {
    pos := pos0;
    if |comp| == 0 { return true, pos; }
    RenderSnoc(st, comp);
    RenderIsLong(st);
    var len := |comp|;
    if len >= NAME_MAX { return false, pos; }
    var i := 0;
    while i < len
      invariant 0 <= i <= len
      invariant forall k :: 0 <= k < i ==> ByteAllowed(comp[k])
    {
      if !ByteAllowed(comp[i]) { return false, pos; }
      i := i + 1;
    }
    var slash := if pos > 1 then 1 else 0;
    var need := slash + len + 1;
    if need > outSize || pos > outSize - need { return false, pos; }
    pos := WriteName(out, pos, comp, st);
    ok := true;
  }

  /** A slash unless the output is the root, the name, and the terminator. */
  method WriteName(out: array<u8>, pos0: nat, comp: seq<u8>, ghost st: seq<Name>) returns (pos: nat)
    requires StackOk(st) && comp != [] && pos0 <= out.Length && out[..pos0] == Render(st)
    requires pos0 + (if pos0 > 1 then 1 else 0) + |comp| < out.Length
    modifies out
    ensures pos == pos0 + (if pos0 > 1 then 1 else 0) + |comp|
    ensures out[..pos] == Render(st + [comp]) && out[pos] == 0
  {
    RenderSnoc(st, comp);
    RenderIsLong(st);
    pos := pos0;
    if pos > 1 {
      PutLast(out, pos, SLASH);
      pos := pos + 1;
    }
    CopyName(out, pos, comp);
    pos := pos + |comp|;
    PutLast(out, pos, 0);
  }

  method CopyName(out: array<u8>, pos: nat, comp: seq<u8>)
    requires pos + |comp| <= out.Length
    modifies out
    ensures out[..pos + |comp|] == old(out[..pos]) + comp
  {
    forall k | 0 <= k < |comp| { out[pos + k] := comp[k]; }
  }

  /** The two scanning loops of path_normalize. */
  method ScanComponent(tmp: seq<u8>, i0: nat) returns (start: nat, end: nat)
    requires i0 <= |tmp|
    ensures start == SkipSlashes(tmp, i0) && end == NameEnd(tmp, start)
  {
    var i := i0;
    while i < |tmp| && tmp[i] == SLASH
      invariant i0 <= i <= |tmp|
      invariant SkipSlashes(tmp, i0) == SkipSlashes(tmp, i)
    {
      i := i + 1;
    }
    start := i;
    while i < |tmp| && tmp[i] != SLASH
      invariant start <= i <= |tmp|
      invariant NameEnd(tmp, start) == NameEnd(tmp, i)
    {
      i := i + 1;
    }
    end := i;
  }

  /** The rest of the outer loop's body: what the component does to the output. */
  method ApplyComponent(comp: seq<u8>, out: array<u8>, outSize: nat, pos0: nat, ghost st: seq<Name>)
    returns (ok: bool, pos: nat, ghost st': seq<Name>)
    requires SlashFree(comp) && pos0 < outSize <= out.Length
    requires StackOk(st) && out[..pos0] == Render(st) && out[pos0] == 0
    modifies out
    ensures comp == [] || comp == [DOT] ==> ok && st' == st
    ensures comp == [DOT, DOT] ==> (ok <==> st != []) && (ok ==> st' == st[..|st| - 1])
    ensures comp != [] && !IsDots(comp) ==> (ok <==> NameOk(comp) && |Render(st + [comp])| < outSize) && (ok ==> st' == st + [comp])
    ensures ok ==> pos < outSize && StackOk(st') && out[..pos] == Render(st') && out[pos] == 0
  {
    var len := |comp|;
    pos, st', ok := pos0, st, true;
    if len == 0 || (len == 1 && comp[0] == DOT) { return; }
    if len == 2 && comp[0] == DOT && comp[1] == DOT {
      assert comp == [DOT, DOT];
      ok, pos := PopComponent(out, pos, st);
      if ok { st' := st[..|st| - 1]; }
      return;
    }
    ok, pos := AppendComponent(out, outSize, pos, comp, st);
    if ok { st' := st + [comp]; }
  }

  /** path_normalize. It succeeds exactly on the paths that have a normal form
      in the given space and then holds that form, terminated. The output is
      cleared before the input is read, so normalising a buffer in place always
      fails, although the input is copied first. */
  method PathNormalize(inp: array<u8>, out: array<u8>, outSize: nat) returns (ok: bool)
    requires outSize <= out.Length
    requires 0 in inp[..] || PATH_MAX <= inp.Length
    modifies out
    ensures inp == out ==> !ok
    ensures inp != out ==> (ok <==> outSize >= 2 && Normal(CStr(old(inp[..])), outSize).Some?)
    ensures ok ==> var r := Render(Normal(CStr(old(inp[..])), outSize).value);
                   |r| < outSize && out[..|r|] == r && out[|r|] == 0
    ensures !ok && outSize > 0 ==> out[0] == 0
  {
    ghost var original := inp[..];
    if outSize > 0 { out[0] := 0; }
    if outSize < 2 { return false; }
    assert inp == out ==> inp[..][0] == 0;
    var inLen := StrNLen(inp, PATH_MAX);
    if inp != out { Measured(original, inLen); }
    if inLen == 0 || inLen >= PATH_MAX || inp[0] != SLASH {
      return false;
    }
    ok := NormalizeText(inp[..inLen], out, outSize);
  }

  /** What strnlen says about the string. */
  lemma {:induction false} Measured(b: seq<u8>, n: nat)
    requires n <= |b| && n <= PATH_MAX && (forall i :: 0 <= i < n ==> b[i] != 0) && (n < PATH_MAX ==> n < |b| && b[n] == 0)
    ensures if n < PATH_MAX then CStr(b) == b[..n] else |CStr(b)| >= PATH_MAX
  {
    if n < PATH_MAX { CStrUnique(b, n); } else { CStrIsLong(b, PATH_MAX); }
  }

  /** The copied path, component by component. */
  method NormalizeText(tmp: seq<u8>, out: array<u8>, outSize: nat) returns (ok: bool)
    requires 2 <= outSize <= out.Length && 0 < |tmp| < PATH_MAX && tmp[0] == SLASH
    modifies out
    ensures ok <==> Normal(tmp, outSize).Some?
    ensures ok ==> var r := Render(Normal(tmp, outSize).value); |r| < outSize && out[..|r|] == r && out[|r|] == 0
    ensures !ok ==> out[0] == 0
  {
    out[0] := SLASH;
    out[1] := 0;
    var pos: nat, i: nat := 1, 0;
    ghost var st := [];
    while i < |tmp|
      invariant 0 <= i <= |tmp|
      invariant pos < outSize && StackOk(st) && out[..pos] == Render(st) && out[pos] == 0
      invariant Resolve([], Components(tmp, 0), outSize) == Resolve(st, Components(tmp, i), outSize)
    {
      ResolveStep(tmp, i, st, outSize);
      var start, end := ScanComponent(tmp, i);
      ok, pos, st := ApplyComponent(tmp[start..end], out, outSize, pos, st);
      if !ok {
        out[0] := 0;
        return false;
      }
      i := end;
    }
    assert Components(tmp, i) == [];
    ok := true;
  }

  lemma {:induction false} CStrIsLong(b: seq<u8>, n: nat)
    requires n <= |b| && forall i :: 0 <= i < n ==> b[i] != 0
    ensures |CStr(b)| >= n
  {}

  /** `base` and `leaf` with a slash between them, unless `base` ends in one. */
  function JoinText(base: seq<u8>, leaf: seq<u8>): seq<u8>
    requires base != []
  {
    if base[|base| - 1] == SLASH then base + leaf else base + [SLASH] + leaf
  }

  /** The string at `p` once the output has been cleared. */
  ghost function StringAt(p: array<u8>, content: seq<u8>, out: array<u8>, outSize: nat): seq<u8> {
    if p == out && outSize > 0 then [] else CStr(content)
  }

  /** path_join: joins and normalises. Path.JoinResolves says what that means
      for a normalised base. */
  method PathJoin(base: array<u8>, leaf: array<u8>, out: array<u8>, outSize: nat) returns (ok: bool)
    requires outSize <= out.Length
    requires 0 in base[..] || PATH_MAX <= base.Length
    requires 0 in leaf[..] || PATH_MAX <= leaf.Length
    modifies out
    ensures var b := StringAt(base, old(base[..]), out, outSize);
            var l := StringAt(leaf, old(leaf[..]), out, outSize);
            && (ok <==> 0 < |b| < PATH_MAX && |l| < PATH_MAX && outSize >= 2
                        && Normal(JoinText(b, l), outSize).Some?)
            && (ok ==> var r := Render(Normal(JoinText(b, l), outSize).value);
                       |r| < outSize && out[..|r|] == r && out[|r|] == 0)
    ensures !ok && outSize > 0 ==> out[0] == 0
  {
    ghost var b := StringAt(base, base[..], out, outSize);
    ghost var l := StringAt(leaf, leaf[..], out, outSize);
    ClearOutput(out, outSize, base);
    ClearOutput(out, outSize, leaf);
    if outSize > 0 { out[0] := 0; }
    var bl := MeasuredString(base, b);
    var ll := MeasuredString(leaf, l);
    if bl == 0 || bl >= PATH_MAX || ll >= PATH_MAX { return false; }
    var tmp := new u8[2 * PATH_MAX];
    var pos := JoinInto(tmp, base, bl, leaf, ll);
    CStrUnique(tmp[..], pos);
    assert 0 == tmp[..][pos];
    ok := PathNormalize(tmp, out, outSize);
  }

  /** Clearing the output empties the string at `p` when that is the output, and
      keeps it otherwise. */
  lemma {:induction false} ClearOutput(out: array<u8>, outSize: nat, p: array<u8>)
    requires outSize <= out.Length
    ensures p == out && outSize > 0 ==> CStr(p[..][0 := 0]) == [] && 0 in p[..][0 := 0]
  {
    if p == out && outSize > 0 { assert p[..][0 := 0][0] == 0; }
  }

  method JoinInto(tmp: array<u8>, base: array<u8>, bl: nat, leaf: array<u8>, ll: nat) returns (pos: nat)
    requires 0 < bl <= base.Length && ll <= leaf.Length && bl + ll + 2 <= tmp.Length
    requires tmp != base && tmp != leaf
    requires forall i :: 0 <= i < bl ==> base[i] != 0
    requires forall i :: 0 <= i < ll ==> leaf[i] != 0
    modifies tmp
    ensures pos < tmp.Length && tmp[..pos] == JoinText(base[..bl], leaf[..ll]) && tmp[pos] == 0
    ensures forall i :: 0 <= i < pos ==> tmp[i] != 0
  {
    pos := JoinHead(tmp, base, bl);
    ghost var head := tmp[..pos];
    CopyArray(tmp, pos, leaf, ll);
    pos := pos + ll;
    NoZeros(head, base[..bl], leaf[..ll], tmp[..pos]);
    PutLast(tmp, pos, 0);
  }

  /** The base, with a slash after it unless it ends in one. */
  method JoinHead(tmp: array<u8>, base: array<u8>, bl: nat) returns (pos: nat)
    requires 0 < bl <= base.Length && bl < tmp.Length && tmp != base
    modifies tmp
    ensures pos <= bl + 1 && tmp[..pos] == if base[bl - 1] == SLASH then base[..bl] else base[..bl] + [SLASH]
  {
    CopyArray(tmp, 0, base, bl);
    pos := bl;
    assert tmp[..bl] == base[..bl];
    if tmp[pos - 1] != SLASH {
      PutLast(tmp, pos, SLASH);
      pos := pos + 1;
    }
  }

  method PutLast(tmp: array<u8>, pos: nat, c: u8)
    requires pos < tmp.Length
    modifies tmp
    ensures tmp[..pos] == old(tmp[..pos]) && tmp[..pos + 1] == old(tmp[..pos]) + [c] && tmp[pos] == c
  {
    tmp[pos] := c;
  }

  method CopyArray(dst: array<u8>, at: nat, src: array<u8>, n: nat)
    requires dst != src && n <= src.Length && at + n <= dst.Length
    modifies dst
    ensures dst[..at + n] == old(dst[..at]) + src[..n]
  {
    forall i | 0 <= i < n { dst[at + i] := src[i]; }
  }

  lemma {:induction false} NoZeros(head: seq<u8>, base: seq<u8>, leaf: seq<u8>, all: seq<u8>)
    requires 0 !in base && 0 !in leaf && all == head + leaf && (head == base || head == base + [SLASH])
    ensures forall i :: 0 <= i < |all| ==> all[i] != 0
  {
    assert 0 !in head && 0 !in all;
  }

  /** strnlen with the string it measures named. */
  method MeasuredString(p: array<u8>, ghost s: seq<u8>) returns (n: nat)
    requires 0 in p[..] || PATH_MAX <= p.Length
    requires s == CStr(p[..])
    ensures n <= PATH_MAX && (n < PATH_MAX <==> |s| < PATH_MAX)
    ensures n < PATH_MAX ==> n <= p.Length && p[..n] == s
    ensures forall i :: 0 <= i < n && i < p.Length ==> p[i] != 0
  {
    n := StrNLen(p, PATH_MAX);
    if n < PATH_MAX { CStrUnique(p[..], n); } else { CStrIsLong(p[..], PATH_MAX); }
  }

  /** path_next_component: takes components off the front of a path. A failure
      means there is no room at all, there is none left, or the next one does not
      fit or has a byte that is not allowed; in the last case it is skipped. */
  method NextComponent(s: seq<u8>, cursor: nat, size: nat) returns (found: bool, comp: seq<u8>, next: nat)
    requires cursor <= |s|
    ensures cursor <= next <= |s|
    ensures found <==> var c := Components(s, cursor); c != [] && |c[0]| < size && BytesAllowed(c[0])
    ensures found ==> comp == Components(s, cursor)[0]
    ensures size == 0 ==> next == cursor
    ensures size > 0 ==> Components(s, next) == if Components(s, cursor) == [] then [] else Components(s, cursor)[1..]
  {
    if size == 0 { return false, [], cursor; }
    var start, end := ScanComponent(s, cursor);
    found, comp, next := false, [], end;
    if start == |s| { return; }
    var c := s[start..end];
    assert Components(s, cursor) == [c] + Components(s, end);
    if end - start >= size { return; }
    var i := 0;
    while i < |c|
      invariant 0 <= i <= |c|
      invariant forall k :: 0 <= k < i ==> ByteAllowed(c[k])
    {
      if !ByteAllowed(c[i]) { return; }
      i := i + 1;
    }
    found, comp := true, c;
  }
}
