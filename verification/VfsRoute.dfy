/** The Rust side of path handling: its own normaliser and the mount router
    (kernel/rust/vfs_route.rs). Every access the source makes through an
    unchecked pointer is an ordinary array or sequence access here, so it is
    proved to be in bounds. */
module VfsRoute {
  import opened Path

  const MAX_MOUNTS: nat := 16

  /** A slice or fixed array read up to its terminator. */
  method CStrLen(b: seq<u8>) returns (n: nat)
    ensures n == |CStr(b)|
  {
    n := 0;
    while n < |b| && b[n] != 0
      invariant n <= |b| && forall i :: 0 <= i < n ==> b[i] != 0
    {
      n := n + 1;
    }
    CStrUnique(b, n);
  }

  // ----- Normaliser --------------------------------------------------------

  method AppendComponent(out: array<u8>, pos0: nat, input: seq<u8>, start: nat, len: nat, ghost st: seq<Name>)
    returns (ok: bool, pos: nat)
    requires out.Length == PATH_MAX && pos0 < PATH_MAX && start + len <= |input|
    requires StackOk(st) && out[..pos0] == Render(st)
    modifies out
    ensures len == 0 ==> ok && pos == pos0 && out[..] == old(out[..])
    ensures len > 0 ==> var n := input[start..start + len];
                        && (ok <==> NameOk(n) && |Render(st + [n])| < PATH_MAX)
                        && (ok ==> pos < PATH_MAX && out[..pos] == Render(st + [n]) && out[pos] == 0)
  {
    ghost var n := input[start..start + len];
    RenderSnoc(st, n);
    RenderIsLong(st);
    pos := pos0;
    if len == 0 { return true, pos; }
    if len >= NAME_MAX { return false, pos; }
    var slash := if pos > 1 then 1 else 0;
    var afterSlash := pos + slash;
    var end := afterSlash + len;
    if end >= PATH_MAX { return false, pos; }
    ok := CheckBytes(input, start, len);
    if !ok { return false, pos; }
    if slash != 0 {
      out[pos] := SLASH;
      pos := afterSlash;
    }
    ghost var head := out[..pos];
    assert head == if st == [] then [SLASH] else Render(st) + [SLASH];
    CopyBytes(out, pos, input, start, len);
    pos := end;
  }

  method CheckBytes(input: seq<u8>, start: nat, len: nat) returns (ok: bool)
    requires start + len <= |input|
    ensures ok <==> BytesAllowed(input[start..start + len])
  {
    ghost var n := input[start..start + len];
    var j := 0;
    while j < len
      invariant 0 <= j <= len
      invariant forall k :: 0 <= k < j ==> ByteAllowed(n[k])
    {
      assert n[j] == input[start + j];
      if !ByteAllowed(input[start + j]) { return false; }
      j := j + 1;
    }
    ok := true;
  }

  /** The component's bytes and a terminator, from `pos` on. */
  method CopyBytes(out: array<u8>, pos: nat, input: seq<u8>, start: nat, len: nat)
    requires pos + len < out.Length && start + len <= |input|
    modifies out
    ensures out[..pos + len] == old(out[..pos]) + input[start..start + len] && out[pos + len] == 0
  {
    ghost var head, n := out[..pos], input[start..start + len];
    var j := 0;
    while j < len
      invariant 0 <= j <= len
      invariant out[..pos + j] == head + n[..j]
    {
      out[pos + j] := input[start + j];
      j := j + 1;
      assert out[..pos + j] == out[..pos + j - 1] + [n[j - 1]];
      assert n[..j] == n[..j - 1] + [n[j - 1]];
    }
    assert n[..len] == n;
    ghost var done := out[..pos + len];
    out[pos + len] := 0;
    assert out[..pos + len] == done;
  }

  method PopComponent(out: array<u8>, pos0: nat, ghost st: seq<Name>) returns (ok: bool, pos: nat)
    requires out.Length == PATH_MAX && pos0 < PATH_MAX && StackOk(st) && out[..pos0] == Render(st)
    modifies out
    ensures ok <==> st != []
    ensures !ok ==> pos == pos0 && out[..] == old(out[..])
    ensures ok ==> pos < pos0 && out[..pos] == Render(st[..|st| - 1]) && out[pos] == 0
  {
    RenderIsLong(st);
    pos := pos0;
    if pos <= 1 { return false, pos; }
    LastName(st);
    ghost var r, p := Render(st), |Body(st[..|st| - 1])| + 1;
    while pos > 1 && out[pos - 1] != SLASH
      invariant p <= pos <= pos0
      invariant out[..] == old(out[..])
    {
      assert out[pos - 1] == r[pos - 1];
      pos := pos - 1;
    }
    assert out[pos - 1] == r[pos - 1];
    if pos > 1 && out[pos - 1] == SLASH { pos := pos - 1; }
    assert out[..pos] == r[..pos];
    out[pos] := 0;
    ok := true;
  }

  /** The component input[start..end], as the body of the normalising loop
      treats it. */
  method ApplyComponent(out: array<u8>, pos0: nat, input: seq<u8>, start: nat, end: nat, ghost st: seq<Name>)
    returns (ok: bool, pos: nat, ghost st': seq<Name>)
    requires out.Length == PATH_MAX && start <= end <= |input| && SlashFree(input[start..end])
    requires pos0 < PATH_MAX && StackOk(st) && out[..pos0] == Render(st) && out[pos0] == 0
    modifies out
    ensures var c := input[start..end];
            && (c == [] || c == [DOT] ==> ok && st' == st)
            && (c == [DOT, DOT] ==> (ok <==> st != []) && (ok ==> st' == st[..|st| - 1]))
            && (c != [] && !IsDots(c) ==> (ok <==> NameOk(c) && |Render(st + [c])| < PATH_MAX)
                                          && (ok ==> st' == st + [c]))
    ensures ok ==> pos < PATH_MAX && StackOk(st') && out[..pos] == Render(st') && out[pos] == 0
  {
    var clen := end - start;
    ok, pos, st' := true, pos0, st;
    if clen == 0 { return; }
    var isDot := clen == 1 && input[start] == DOT;
    if isDot { return; }
    var isDotDot := clen == 2 && input[start] == DOT && input[start + 1] == DOT;
    if isDotDot {
      assert input[start..end] == [DOT, DOT];
      ok, pos := PopComponent(out, pos, st);
      if ok { st' := st[..|st| - 1]; }
      return;
    }
    ghost var c := input[start..end];
    assert c == input[start..start + clen] && c != [] && !IsDots(c);
    ok, pos := AppendComponent(out, pos, input, start, clen, st);
    if ok {
      st' := st + [c];
      assert StackOk(st');
    }
  }

  /** The two scanning loops of normalize. */
  method ScanComponent(input: seq<u8>, len: nat, i0: nat) returns (start: nat, end: nat)
    requires i0 <= len == |CStr(input)|
    ensures start == SkipSlashes(CStr(input), i0) && end == NameEnd(CStr(input), start)
    ensures input[start..end] == CStr(input)[start..end]
  {
    ghost var s := CStr(input);
    assert s == input[..len];
    start := SkipRun(input, len, i0);
    end := NameRun(input, len, start);
  }

  method SkipRun(input: seq<u8>, len: nat, i0: nat) returns (i: nat)
    requires i0 <= len <= |input|
    ensures i == SkipSlashes(input[..len], i0)
  {
    i := i0;
    while i < len && input[i] == SLASH
      invariant i0 <= i <= len && SkipSlashes(input[..len], i0) == SkipSlashes(input[..len], i)
    {
      i := i + 1;
    }
  }

  method NameRun(input: seq<u8>, len: nat, i0: nat) returns (i: nat)
    requires i0 <= len <= |input|
    ensures i == NameEnd(input[..len], i0)
  {
    i := i0;
    while i < len && input[i] != SLASH
      invariant i0 <= i <= len && NameEnd(input[..len], i0) == NameEnd(input[..len], i)
    {
      i := i + 1;
    }
  }

  lemma {:induction false} TerminatedRender(b: seq<u8>, pos: nat, st: seq<Name>)
    requires StackOk(st) && pos < |b| && b[..pos] == Render(st) && b[pos] == 0
    ensures CStr(b) == Render(st)
  {
    NoZeroInBody(st);
    assert forall k :: 0 <= k < pos ==> b[k] == Render(st)[k];
    CStrUnique(b, pos);
  }

  /** One turn of the normalising loop. */
  method NextStep(input: seq<u8>, len: nat, i0: nat, out: array<u8>, pos0: nat, ghost st: seq<Name>)
    returns (ok: bool, i: nat, pos: nat, ghost st': seq<Name>)
    requires i0 < len == |CStr(input)| && out.Length == PATH_MAX
    requires pos0 < PATH_MAX && StackOk(st) && out[..pos0] == Render(st) && out[pos0] == 0
    modifies out
    ensures i0 < i <= len
    ensures Resolve(st, Components(CStr(input), i0), PATH_MAX)
            == if ok then Resolve(st', Components(CStr(input), i), PATH_MAX) else None
    ensures ok ==> pos < PATH_MAX && StackOk(st') && out[..pos] == Render(st') && out[pos] == 0
  {
    ResolveStep(CStr(input), i0, st, PATH_MAX);
    var start;
    start, i := ScanComponent(input, len, i0);
    ok, pos, st' := ApplyComponent(out, pos0, input, start, i, st);
  }

  /** normalize: a second implementation of the same specification at the fixed
      capacity of a path buffer. */
  method Normalize(input: seq<u8>) returns (ok: bool, out: array<u8>)
    ensures fresh(out) && out.Length == PATH_MAX
    ensures ok <==> Normal(CStr(input), PATH_MAX).Some?
    ensures ok ==> CStr(out[..]) == Render(Normal(CStr(input), PATH_MAX).value)
                   && |CStr(out[..])| < PATH_MAX
  {
    out := new u8[PATH_MAX](_ => 0);
    var len := CStrLen(input);
    if len == 0 || len >= PATH_MAX || input[0] != SLASH { return false, out; }
    ghost var s := CStr(input);
    out[0] := SLASH;
    out[1] := 0;
    var pos: nat, i: nat := 1, 0;
    ghost var st := [];
    while i < len
      invariant 0 <= i <= len == |s|
      invariant pos < PATH_MAX && StackOk(st) && out[..pos] == Render(st) && out[pos] == 0
      invariant Resolve([], Components(s, 0), PATH_MAX) == Resolve(st, Components(s, i), PATH_MAX)
    {
      ok, i, pos, st := NextStep(input, len, i, out, pos, st);
      if !ok { return false, out; }
    }
    assert Components(s, i) == [];
    TerminatedRender(out[..], pos, st);
    ok := true;
  }

  lemma {:induction false} NoZeroInBody(st: seq<Name>)
    requires StackOk(st)
    ensures 0 !in Body(st)
  {
    if st != [] {
      var init, last := st[..|st| - 1], st[|st| - 1];
      NoZeroInBody(init);
      assert 0 !in last by { assert BytesAllowed(last); }
    }
  }

  // ----- Router ------------------------------------------------------------

  /** One row of the mount table: a flag and a fixed path buffer. */
  datatype MountView = MountView(active: u8, path: seq<u8>)

  predicate TableShape(mounts: seq<MountView>) {
    |mounts| == MAX_MOUNTS && forall i :: 0 <= i < |mounts| ==> |mounts[i].path| == PATH_MAX
  }

  /** The bytes of `mount` are a prefix of those of `path` that ends at a
      component boundary; the root matches everything and the empty path
      nothing. */
  predicate Covers(mount: seq<u8>, path: seq<u8>) {
    && mount != []
    && (mount == [SLASH] || (mount <= path && (|path| == |mount| || path[|mount|] == SLASH)))
  }

  /** What remains of `path` below `mount`. */
  function Below(mount: seq<u8>, path: seq<u8>): seq<u8>
    requires Covers(mount, path)
  {
    if mount == [SLASH] then path
    else if |path| == |mount| then [SLASH]
    else path[|mount|..]
  }

  function Depth(path: seq<u8>): nat { |Components(path, 0)| }

  lemma {:induction false} DepthStep(s: seq<u8>, i: nat)
    requires i < |s|
    ensures Depth(s[..i + 1]) == Depth(s[..i])
              + if s[i] != SLASH && (i == 0 || s[i - 1] == SLASH) then 1 else 0
  {
    var p := s[..i];
    assert s[..i + 1] == p + [s[i]];
    if s[i] == SLASH {
      ComponentsConcat(p, [], 0);
      assert p + [SLASH] + [] == p + [SLASH];
      SkipSlashesAt([], 0, 0);
    } else {
      LastRun(p, s[i]);
    }
  }

  /** A byte that is no slash opens a component or lengthens the last one. */
  lemma {:induction false} LastRun(p: seq<u8>, c: u8)
    requires c != SLASH
    ensures Depth(p + [c]) == Depth(p) + if p == [] || p[|p| - 1] == SLASH then 1 else 0
  {
    var k := RunStart(p);
    var run := p[k..];
    if k == 0 {
      assert p == run;
      SingleName(run + [c]);
      if run != [] { SingleName(run); } else { SkipSlashesAt(run, 0, 0); }
    } else {
      var a := p[..k - 1];
      assert p == a + [SLASH] + run;
      assert p + [c] == a + [SLASH] + (run + [c]);
      ComponentsConcat(a, run, 0);
      ComponentsConcat(a, run + [c], 0);
      SingleName(run + [c]);
      if run != [] { SingleName(run); } else { SkipSlashesAt(run, 0, 0); }
    }
  }

  /** Start of the slash-free run that ends `p`. */
  function RunStart(p: seq<u8>): (k: nat)
    ensures k <= |p| && SlashFree(p[k..]) && (k > 0 ==> p[k - 1] == SLASH)
  {
    if p == [] || p[|p| - 1] == SLASH then |p|
    else
      var k := RunStart(p[..|p| - 1]);
      assert p[k..] == p[..|p| - 1][k..] + [p[|p| - 1]];
      k
  }

  method PathDepth(path: seq<u8>) returns (d: nat)
    ensures d == Depth(CStr(path))
  {
    var len := CStrLen(path);
    ghost var s := CStr(path);
    if len == 1 && path[0] == SLASH {
      assert s == [SLASH];
      SkipSlashesAt(s, 0, 1);
      return 0;
    }
    d := 0;
    var inComponent := false;
    var i := 0;
    SkipSlashesAt(s[..0], 0, 0);
    while i < len
      invariant 0 <= i <= len == |s|
      invariant d == Depth(s[..i])
      invariant inComponent <==> i > 0 && s[i - 1] != SLASH
    {
      DepthStep(s, i);
      if path[i] == SLASH {
        inComponent := false;
      } else if !inComponent {
        inComponent := true;
        d := d + 1;
      }
      i := i + 1;
    }
    assert s[..len] == s;
  }

  /** mount_matches; the path is terminated inside its buffer, the mount need
      not be. */
  method MountMatches(mount: seq<u8>, path: seq<u8>) returns (r: bool)
    requires |mount| == PATH_MAX && |path| == PATH_MAX && |CStr(path)| < PATH_MAX
    ensures r <==> Covers(CStr(mount), CStr(path))
  {
    var ml := CStrLen(mount);
    ghost var m, p := CStr(mount), CStr(path);
    if ml == 0 { return false; }
    if ml == 1 && mount[0] == SLASH {
      assert m == [SLASH];
      return true;
    }
    assert m != [SLASH];
    var pl := CStrLen(path);
    if ml > pl { return false; }
    assert m == mount[..ml] && p == path[..pl];
    var same := SameBytes(mount, path, ml);
    if !same { return false; }
    assert m <= p && (ml < pl ==> p[ml] == path[ml] != 0);
    r := path[ml] == 0 || path[ml] == SLASH;
  }

  /** The comparing loop of mount_matches. */
  method SameBytes(a: seq<u8>, b: seq<u8>, n: nat) returns (same: bool)
    requires n <= |a| && n <= |b|
    ensures same <==> a[..n] == b[..n]
  {
    var i := 0;
    while i < n
      invariant 0 <= i <= n && a[..i] == b[..i]
    {
      if a[i] != b[i] {
        assert a[..n][i] != b[..n][i];
        return false;
      }
      i := i + 1;
    }
    same := true;
  }

  /** compute_relative. */
  method ComputeRelative(mount: seq<u8>, norm: seq<u8>) returns (out: array<u8>)
    requires |mount| == PATH_MAX && |norm| == PATH_MAX && |CStr(norm)| < PATH_MAX
    ensures fresh(out) && out.Length == PATH_MAX
    ensures Covers(CStr(mount), CStr(norm)) ==> CStr(out[..]) == Below(CStr(mount), CStr(norm))
  {
    ghost var m, p := CStr(mount), CStr(norm);
    out := new u8[PATH_MAX](_ => 0);
    var ml := CStrLen(mount);
    if ml == 1 && mount[0] == SLASH {
      assert m == [SLASH];
      forall i | 0 <= i < PATH_MAX { out[i] := norm[i]; }
      assert out[..] == norm;
      return;
    }
    assert m != [SLASH];
    if ml < PATH_MAX && norm[ml] == 0 {
      SetRoot(out);
      return;
    }
    var dst := CopyTail(norm, ml, out);
    if dst == 0 { SetRoot(out); }
    if Covers(m, p) { TailOfPath(norm, ml, dst); }
  }

  method SetRoot(out: array<u8>)
    requires out.Length == PATH_MAX
    modifies out
    ensures CStr(out[..]) == [SLASH]
  {
    out[0] := SLASH;
    out[1] := 0;
    CStrUnique(out[..], 1);
    assert out[..][..1] == [SLASH];
  }

  /** The copying loop of compute_relative. */
  method CopyTail(norm: seq<u8>, ml: nat, out: array<u8>) returns (dst: nat)
    requires |norm| == PATH_MAX && ml <= PATH_MAX && out.Length == PATH_MAX
    requires forall i :: 0 <= i < PATH_MAX ==> out[i] == 0
    modifies out
    ensures ml + dst <= PATH_MAX && (ml + dst == PATH_MAX || norm[ml + dst] == 0 || dst + 1 == PATH_MAX)
    ensures forall i :: ml <= i < ml + dst ==> norm[i] != 0
    ensures dst < PATH_MAX ==> CStr(out[..]) == norm[ml..ml + dst]
  {
    var src := ml;
    dst := 0;
    while src < PATH_MAX && norm[src] != 0 && dst + 1 < PATH_MAX
      invariant ml <= src <= PATH_MAX && dst == src - ml && (dst < PATH_MAX || dst == 0)
      invariant out[..dst] == norm[ml..src]
      invariant forall i :: ml <= i < src ==> norm[i] != 0
      invariant forall i :: dst <= i < PATH_MAX ==> out[i] == 0
    {
      out[dst] := norm[src];
      dst := dst + 1;
      src := src + 1;
      assert out[..dst] == out[..dst - 1] + [norm[src - 1]];
    }
    assert forall i :: 0 <= i < dst ==> out[i] == norm[ml..src][i] == norm[ml + i];
    CStrUnique(out[..], dst);
  }

  lemma {:induction false} TailOfPath(norm: seq<u8>, ml: nat, dst: nat)
    requires |norm| == PATH_MAX && |CStr(norm)| < PATH_MAX && 0 < ml <= |CStr(norm)|
    requires ml + dst <= PATH_MAX && (ml + dst == PATH_MAX || norm[ml + dst] == 0 || dst + 1 == PATH_MAX)
    requires forall i :: ml <= i < ml + dst ==> norm[i] != 0
    ensures ml + dst == |CStr(norm)| && norm[ml..ml + dst] == CStr(norm)[ml..]
  {
    var p := CStr(norm);
    assert norm[|p|] == 0;
    assert forall i :: 0 <= i < |p| ==> p[i] == norm[i] != 0;
  }

  datatype RouteOut =
    | Routed(index: nat, normalized: seq<u8>, relative: seq<u8>)
    | NoEntry
    | Invalid

  /** Mount `i` is active and covers the path. */
  predicate Candidate(mounts: seq<MountView>, i: nat, path: seq<u8>) {
    i < |mounts| && mounts[i].active != 0 && Covers(CStr(mounts[i].path), path)
  }

  /** `i` is the deepest candidate below `n`, the last one among equals. */
  predicate Best(mounts: seq<MountView>, n: nat, i: nat, path: seq<u8>)
    requires n <= |mounts|
  {
    && i < n && Candidate(mounts, i, path)
    && forall j :: 0 <= j < n && Candidate(mounts, j, path) ==>
         MountDepth(mounts, j) < MountDepth(mounts, i) || (MountDepth(mounts, j) == MountDepth(mounts, i) && j <= i)
  }

  function MountDepth(mounts: seq<MountView>, i: nat): nat
    requires i < |mounts|
  {
    Depth(CStr(mounts[i].path))
  }

  method Route(mounts: seq<MountView>, input: seq<u8>) returns (r: RouteOut)
    requires TableShape(mounts)
    ensures r.Invalid? <==> Normal(CStr(input), PATH_MAX).None?
    ensures !r.Invalid? ==>
              var path := Render(Normal(CStr(input), PATH_MAX).value);
              && (r.NoEntry? <==> forall i :: 0 <= i < MAX_MOUNTS ==> !Candidate(mounts, i, path))
              && (r.Routed? ==> && Best(mounts, MAX_MOUNTS, r.index, path)
                                && CStr(r.normalized) == path
                                && CStr(r.relative) == Below(CStr(mounts[r.index].path), path))
  {
    var ok, norm := Normalize(input);
    if !ok { return Invalid; }
    var path := norm[..];
    var best := PickMount(mounts, path);
    if best.None? { return NoEntry; }
    var idx := best.value;
    var rel := ComputeRelative(mounts[idx].path, path);
    r := Routed(idx, path, rel[..]);
  }

  /** The best of the first `n` rows, or that there is none. */
  ghost predicate Picked(mounts: seq<MountView>, n: nat, best: Option<(nat, nat)>, path: seq<u8>)
    requires n <= |mounts|
  {
    match best
    case None => forall j :: 0 <= j < n ==> !Candidate(mounts, j, path)
    case Some((i, d)) => Best(mounts, n, i, path) && d == MountDepth(mounts, i)
  }

  lemma {:induction false} PickedSkip(mounts: seq<MountView>, n: nat, best: Option<(nat, nat)>, path: seq<u8>)
    requires n < |mounts| && Picked(mounts, n, best, path)
    requires Candidate(mounts, n, path) ==> best.Some? && MountDepth(mounts, n) < best.value.1
    ensures Picked(mounts, n + 1, best, path)
  {}

  lemma {:induction false} PickedTake(mounts: seq<MountView>, n: nat, best: Option<(nat, nat)>, path: seq<u8>)
    requires n < |mounts| && Picked(mounts, n, best, path)
    requires Candidate(mounts, n, path)
    requires best.Some? ==> best.value.1 <= MountDepth(mounts, n)
    ensures Picked(mounts, n + 1, Some((n, MountDepth(mounts, n))), path)
  {}

  /** The selection loop of route. */
  method PickMount(mounts: seq<MountView>, path: seq<u8>) returns (r: Option<nat>)
    requires TableShape(mounts) && |path| == PATH_MAX && |CStr(path)| < PATH_MAX
    ensures r.None? <==> forall i :: 0 <= i < MAX_MOUNTS ==> !Candidate(mounts, i, CStr(path))
    ensures r.Some? ==> Best(mounts, MAX_MOUNTS, r.value, CStr(path))
  {
    ghost var p := CStr(path);
    var best: Option<(nat, nat)> := None;
    var i := 0;
    while i < MAX_MOUNTS
      invariant 0 <= i <= MAX_MOUNTS
      invariant Picked(mounts, i, best, p)
    {
      var m := mounts[i];
      var matches := false;
      if m.active != 0 { matches := MountMatches(m.path, path); }
      assert matches <==> Candidate(mounts, i, p);
      var take := false;
      var depth := 0;
      if matches {
        depth := PathDepth(m.path);
        take := best.None? || depth >= best.value.1;
      }
      if take {
        PickedTake(mounts, i, best, p);
        best := Some((i, depth));
      } else {
        PickedSkip(mounts, i, best, p);
      }
      i := i + 1;
    }
    r := if best.None? then None else Some(best.value.0);
  }

  // ----- What routing means in components ----------------------------------

  lemma {:induction false} RenderParts(a: seq<Name>, b: seq<Name>)
    requires StackOk(a) && StackOk(b) && a != []
    ensures Render(a + b) == Render(a) + Body(b)
  {
    BodyConcat(a, b);
  }

  lemma {:induction false} PrefixCovers(mount: seq<Name>, path: seq<Name>)
    requires StackOk(mount) && StackOk(path) && mount <= path
    ensures Covers(Render(mount), Render(path))
  {
    var rest := path[|mount|..];
    assert path == mount + rest;
    if mount != [] {
      RenderIsLong(mount);
      RenderParts(mount, rest);
      if rest != [] { BodyStartsWithSlash(rest); }
    }
  }

  /** On normalised paths a mount covers a path exactly when its components are
      a prefix of the path's. */
  lemma {:induction false} CoversIsPrefix(mount: seq<Name>, path: seq<Name>)
    requires StackOk(mount) && StackOk(path)
    ensures Covers(Render(mount), Render(path)) <==> mount <= path
  {
    if mount <= path {
      PrefixCovers(mount, path);
    } else if Covers(Render(mount), Render(path)) {
      CoveredSplits(mount, path);
    }
  }

  /** What a prefix that ends at a boundary covers starts with its components. */
  lemma {:induction false} CoveredComponents(m: seq<u8>, p: seq<u8>)
    requires m <= p && (|p| == |m| || p[|m|] == SLASH)
    ensures Components(m, 0) <= Components(p, 0)
  {
    if |p| == |m| {
      assert p == m;
    } else {
      assert p == m + [SLASH] + p[|m| + 1..];
      ComponentsConcat(m, p[|m| + 1..], 0);
    }
  }

  lemma {:induction false} CoveredSplits(mount: seq<Name>, path: seq<Name>)
    requires StackOk(mount) && StackOk(path) && mount != []
    requires Covers(Render(mount), Render(path))
    ensures mount <= path
  {
    RenderIsLong(mount);
    CoveredComponents(Render(mount), Render(path));
    SplitUndoesJoin(mount);
    SplitUndoesJoin(path);
  }

  /** Below a covering mount the path's remaining components are exactly those
      after the mount's. */
  lemma {:induction false} BelowIsRemainder(mount: seq<Name>, path: seq<Name>)
    requires StackOk(mount) && StackOk(path) && mount <= path
    ensures Covers(Render(mount), Render(path))
    ensures Below(Render(mount), Render(path)) == Render(path[|mount|..])
  {
    CoversIsPrefix(mount, path);
    RenderIsLong(mount);
    var rest := path[|mount|..];
    assert path == mount + rest;
    assert StackOk(rest);
    if mount == [] {
      assert rest == path;
    } else {
      RenderParts(mount, rest);
      if rest == [] { assert Body(rest) == []; } else { BodyStartsWithSlash(rest); }
    }
  }

  /** A table whose active rows hold normalised paths, by their components. */
  ghost predicate NormalTable(mounts: seq<MountView>, stacks: seq<seq<Name>>) {
    && TableShape(mounts) && |stacks| == MAX_MOUNTS
    && forall i :: 0 <= i < MAX_MOUNTS && mounts[i].active != 0 ==>
         StackOk(stacks[i]) && CStr(mounts[i].path) == Render(stacks[i])
  }

  /** Routing picks the longest mounted component prefix of the path, the last
      table row among mounts of the same path, and hands the file system the
      components that remain. */
  lemma {:induction false} RoutePicksLongestPrefix(mounts: seq<MountView>, stacks: seq<seq<Name>>, path: seq<Name>, idx: nat)
    requires NormalTable(mounts, stacks) && StackOk(path)
    requires Best(mounts, MAX_MOUNTS, idx, Render(path))
    ensures stacks[idx] <= path
    ensures forall j :: 0 <= j < MAX_MOUNTS && mounts[j].active != 0 && stacks[j] <= path ==>
              |stacks[j]| < |stacks[idx]| || (stacks[j] == stacks[idx] && j <= idx)
    ensures Below(CStr(mounts[idx].path), Render(path)) == Render(path[|stacks[idx]|..])
  {
    CoversIsPrefix(stacks[idx], path);
    BelowIsRemainder(stacks[idx], path);
    forall j | 0 <= j < MAX_MOUNTS && mounts[j].active != 0 && stacks[j] <= path
      ensures |stacks[j]| < |stacks[idx]| || (stacks[j] == stacks[idx] && j <= idx)
    {
      LosesToBest(mounts, stacks, path, idx, j);
    }
  }

  lemma {:induction false} NormalDepth(mounts: seq<MountView>, stacks: seq<seq<Name>>, i: nat)
    requires NormalTable(mounts, stacks) && i < MAX_MOUNTS && mounts[i].active != 0
    ensures MountDepth(mounts, i) == |stacks[i]|
  {
    SplitUndoesJoin(stacks[i]);
  }

  lemma {:induction false} LosesToBest(mounts: seq<MountView>, stacks: seq<seq<Name>>, path: seq<Name>, idx: nat, j: nat)
    requires NormalTable(mounts, stacks) && StackOk(path) && Best(mounts, MAX_MOUNTS, idx, Render(path))
    requires j < MAX_MOUNTS && mounts[j].active != 0 && stacks[j] <= path && stacks[idx] <= path
    ensures |stacks[j]| < |stacks[idx]| || (stacks[j] == stacks[idx] && j <= idx)
  {
    CoversIsPrefix(stacks[j], path);
    NormalDepth(mounts, stacks, j);
    NormalDepth(mounts, stacks, idx);
    assert Candidate(mounts, j, Render(path));
  }
}
