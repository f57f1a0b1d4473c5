/** The path acceptance policy (kernel/rust/path_policy.rs) and how it relates
    to normalisation. */
module PathPolicy {
  import opened Path

  datatype PathError = Null | Empty | TooLong | NotAbsolute | BadByte | ComponentTooLong | DotComponent

  datatype Verdict = Accepted | Rejected(error: PathError)

  /** Components the policy lets through. */
  predicate NamesAccepted(names: seq<Name>, rejectDots: bool) {
    forall i :: 0 <= i < |names| ==> |names[i]| < NAME_MAX && (rejectDots ==> !IsDots(names[i]))
  }

  /** What the policy accepts of a terminated string. */
  predicate ShapeOk(s: seq<u8>, absolute: bool, rejectDots: bool) {
    && 0 < |s| < PATH_MAX
    && (absolute ==> s[0] == SLASH)
    && BytesAllowed(s)
    && NamesAccepted(Components(s, 0), rejectDots)
  }

  method CStrLen(b: seq<u8>) returns (r: Option<nat>, e: PathError)
    ensures r.Some? <==> 0 < |CStr(b)| < |b|
    ensures r.Some? ==> r.value == |CStr(b)|
    ensures r.None? ==> e == if |CStr(b)| < |b| then Empty else TooLong
  {
    var i := 0;
    while i < |b|
      invariant 0 <= i <= |b| && forall k :: 0 <= k < i ==> b[k] != 0
    {
      if b[i] == 0 {
        CStrUnique(b, i);
        return if i == 0 then None else Some(i), Empty;
      }
      i := i + 1;
    }
    CStrUnique(b, i);
    return None, TooLong;
  }

  function ValidateComponent(b: seq<u8>, start: nat, len: nat): (v: Verdict)
    requires len > 0 ==> start + len <= |b|
    ensures v.Accepted? <==> len == 0 || (len < NAME_MAX && !IsDots(b[start..start + len]))
  {
    if len == 0 then Accepted
    else if len >= NAME_MAX then Rejected(ComponentTooLong)
    else if (len == 1 && b[start] == DOT) || (len == 2 && b[start] == DOT && b[start + 1] == DOT) then
      assert b[start..start + len] == if len == 1 then [DOT] else [DOT, DOT];
      Rejected(DotComponent)
    else
      Accepted
  }

  /** The run s[k..i] is the component being read. */
  predicate RunAt(s: seq<u8>, k: nat, i: nat) {
    k <= i <= |s| && SlashFree(s[k..i]) && (k > 0 ==> s[k - 1] == SLASH)
  }

  lemma {:induction false} RunSplits(s: seq<u8>, k: nat, i: nat)
    requires RunAt(s, k, i)
    ensures Components(s[..i], 0) == Components(s[..k], 0) + if k < i then [s[k..i]] else []
  {
    var run := s[k..i];
    if k == i {
      assert Components(s[..k], 0) + [] == Components(s[..k], 0);
    } else {
      SingleName(run);
      if k == 0 {
        assert s[..i] == run && s[..k] == [];
        SkipSlashesAt([], 0, 0);
      } else {
        var a := s[..k - 1];
        assert s[..i] == a + [SLASH] + run && s[..k] == a + [SLASH] + [];
        ComponentsConcat(a, run, 0);
        ComponentsConcat(a, [], 0);
        SkipSlashesAt([], 0, 0);
      }
    }
  }

  lemma {:induction false} SlashCloses(s: seq<u8>, i: nat)
    requires i < |s| && s[i] == SLASH
    ensures Components(s[..i + 1], 0) == Components(s[..i], 0)
  {
    assert s[..i + 1] == s[..i] + [SLASH] + [];
    ComponentsConcat(s[..i], [], 0);
    SkipSlashesAt([], 0, 0);
  }

  lemma {:induction false} PrefixAccepted(names: seq<Name>, more: seq<Name>, rejectDots: bool)
    ensures NamesAccepted(names + more, rejectDots)
            <==> NamesAccepted(names, rejectDots) && NamesAccepted(more, rejectDots)
  {
    if NamesAccepted(names + more, rejectDots) {
      assert forall i :: 0 <= i < |names| ==> names[i] == (names + more)[i];
      assert forall i :: 0 <= i < |more| ==> more[i] == (names + more)[|names| + i];
    }
  }

  /** A rejected prefix of the components rejects them all. */
  lemma {:induction false} PrefixComponents(s: seq<u8>, i: nat)
    requires i <= |s| && (i == |s| || s[i] == SLASH)
    ensures Components(s[..i], 0) <= Components(s, 0)
  {
    if i == |s| {
      assert s[..i] == s;
    } else {
      assert s == s[..i] + [SLASH] + s[i + 1..];
      ComponentsConcat(s[..i], s[i + 1..], 0);
    }
  }

  lemma {:induction false} RejectedComponent(s: seq<u8>, k: nat, i: nat, rejectDots: bool)
    requires RunAt(s, k, i) && k < i && (i == |s| || s[i] == SLASH)
    requires i - k >= NAME_MAX || (rejectDots && IsDots(s[k..i]))
    ensures !NamesAccepted(Components(s, 0), rejectDots)
  {
    RunSplits(s, k, i);
    PrefixComponents(s, i);
    var before := Components(s[..k], 0);
    assert (before + [s[k..i]])[|before|] == s[k..i];
    assert Components(s, 0)[|before|] == s[k..i];
  }

  /** A run that is already too long stays too long when it ends. */
  lemma {:induction false} LongRunRejected(s: seq<u8>, k: nat, i: nat, rejectDots: bool)
    requires RunAt(s, k, i) && k < i && i - k >= NAME_MAX
    ensures !NamesAccepted(Components(s, 0), rejectDots)
  {
    var e := NameEnd(s, i);
    assert SlashFree(s[k..e]) by {
      assert forall j :: k <= j < i ==> s[j] == s[k..i][j - k];
    }
    RejectedComponent(s, k, e, rejectDots);
  }

  predicate RunAccepted(s: seq<u8>, k: nat, i: nat, rejectDots: bool)
    requires k <= i <= |s|
  {
    k == i || (i - k < NAME_MAX && (rejectDots ==> !IsDots(s[k..i])))
  }

  /** An accepted run, once ended, joins the accepted components. */
  lemma {:induction false} RunJoins(s: seq<u8>, k: nat, i: nat, rejectDots: bool)
    requires RunAt(s, k, i) && NamesAccepted(Components(s[..k], 0), rejectDots)
    requires RunAccepted(s, k, i, rejectDots)
    ensures NamesAccepted(Components(s[..i], 0), rejectDots)
    ensures i < |s| && s[i] == SLASH ==> NamesAccepted(Components(s[..i + 1], 0), rejectDots)
  {
    RunSplits(s, k, i);
    PrefixAccepted(Components(s[..k], 0), if k < i then [s[k..i]] else [], rejectDots);
    if i < |s| && s[i] == SLASH { SlashCloses(s, i); }
  }

  /** How long the run is that ends before position `i`. */
  function RunLength(s: seq<u8>, i: nat): (n: nat)
    requires i <= |s|
    ensures n <= i
  {
    if i == 0 || s[i - 1] == SLASH then 0 else RunLength(s, i - 1) + 1
  }

  /** What is wrong at position `i`, if anything: a byte that is not allowed, a
      run that has become too long, or a run that ends there and is dots. */
  function FaultAt(s: seq<u8>, i: nat, rejectDots: bool): Option<PathError>
    requires i <= |s|
  {
    if i < |s| && !ByteAllowed(s[i]) then Some(BadByte)
    else if i < |s| && s[i] != SLASH then (if RunLength(s, i) + 1 >= NAME_MAX then Some(ComponentTooLong) else None)
    else if rejectDots && IsDots(s[i - RunLength(s, i)..i]) then Some(DotComponent)
    else None
  }

  predicate NoFaultBefore(s: seq<u8>, n: nat, rejectDots: bool)
    requires n <= |s| + 1
  {
    forall i :: 0 <= i < n ==> FaultAt(s, i, rejectDots).None?
  }

  /** The verdict names the first fault. */
  predicate FirstFault(s: seq<u8>, i: nat, rejectDots: bool, v: Verdict) {
    i <= |s| && v.Rejected? && FaultAt(s, i, rejectDots) == Some(v.error) && NoFaultBefore(s, i, rejectDots)
  }

  /** The scan so far: everything before the open run is accepted, and the run
      is short enough. */
  ghost predicate Scanned(s: seq<u8>, k: nat, i: nat, rejectDots: bool) {
    && k <= i <= |s| && i - k < NAME_MAX && RunAt(s, k, i)
    && BytesAllowed(s[..i]) && NamesAccepted(Components(s[..k], 0), rejectDots)
  }

  lemma {:induction false} ScanExtends(s: seq<u8>, k: nat, i: nat, rejectDots: bool)
    requires Scanned(s, k, i, rejectDots) && i < |s| && ByteAllowed(s[i]) && s[i] != SLASH && i + 1 - k < NAME_MAX
    ensures Scanned(s, k, i + 1, rejectDots)
  {
    assert s[k..i + 1] == s[k..i] + [s[i]] && s[..i + 1] == s[..i] + [s[i]];
  }

  lemma {:induction false} ScanTooLong(s: seq<u8>, k: nat, i: nat, rejectDots: bool)
    requires Scanned(s, k, i, rejectDots) && i < |s| && s[i] != SLASH && i + 1 - k >= NAME_MAX
    ensures !NamesAccepted(Components(s, 0), rejectDots)
  {
    assert s[k..i + 1] == s[k..i] + [s[i]];
    LongRunRejected(s, k, i + 1, rejectDots);
  }

  lemma {:induction false} ScanCloses(s: seq<u8>, k: nat, i: nat, rejectDots: bool)
    requires Scanned(s, k, i, rejectDots) && i < |s| && s[i] == SLASH && RunAccepted(s, k, i, rejectDots)
    ensures Scanned(s, i + 1, i + 1, rejectDots)
  {
    RunJoins(s, k, i, rejectDots);
    assert s[..i + 1] == s[..i] + [s[i]] && s[i + 1..i + 1] == [];
  }

  /** The check at the end of a run: the run is fine, or the path is not. */
  method CheckRun(s: seq<u8>, k: nat, i: nat, compStart: nat, rejectDots: bool) returns (v: Verdict)
    requires Scanned(s, k, i, rejectDots) && (k < i ==> compStart == k) && (i == |s| || s[i] == SLASH)
    ensures v.Accepted? ==> RunAccepted(s, k, i, rejectDots)
    ensures v.Rejected? ==> !NamesAccepted(Components(s, 0), rejectDots) && v.error == DotComponent
    ensures v.Rejected? <==> rejectDots && IsDots(s[k..i])
  {
    v := Accepted;
    if rejectDots {
      v := ValidateComponent(s, if k < i then compStart else k, i - k);
      if v.Rejected? { RejectedComponent(s, k, i, rejectDots); }
    }
  }

  /** The scanning loop with its checks: accepted exactly when every byte and
      every component is. */
  method ScanShape(s: seq<u8>, rejectDots: bool) returns (v: Verdict)
    ensures v.Accepted? <==> BytesAllowed(s) && NamesAccepted(Components(s, 0), rejectDots)
    ensures v.Rejected? ==> exists i: nat :: FirstFault(s, i, rejectDots, v)
  {
    var compStart, compLen, i := 0, 0, 0;
    ScanStarts(s, rejectDots);
    while i < |s|
      invariant 0 <= compLen <= i <= |s| && (compLen > 0 ==> compStart == i - compLen)
      invariant Scanned(s, i - compLen, i, rejectDots)
      invariant compLen == RunLength(s, i) && NoFaultBefore(s, i, rejectDots)
    {
      v, compStart, compLen := ScanByte(s, i, compStart, compLen, rejectDots);
      if v.Rejected? {
        FaultFound(s, i, rejectDots, v);
        return;
      }
      NoFaultYet(s, i, rejectDots);
      i := i + 1;
    }
    v := FinishScan(s, compStart, compLen, rejectDots);
  }

  lemma {:induction false} FaultFound(s: seq<u8>, i: nat, rejectDots: bool, v: Verdict)
    requires i <= |s| && v.Rejected? && FaultAt(s, i, rejectDots) == Some(v.error) && NoFaultBefore(s, i, rejectDots)
    ensures exists i: nat :: FirstFault(s, i, rejectDots, v)
  {
    assert FirstFault(s, i, rejectDots, v);
  }

  lemma {:induction false} NoFaultYet(s: seq<u8>, i: nat, rejectDots: bool)
    requires i <= |s| && FaultAt(s, i, rejectDots).None? && NoFaultBefore(s, i, rejectDots)
    ensures NoFaultBefore(s, i + 1, rejectDots)
  {}

  method FinishScan(s: seq<u8>, compStart: nat, compLen: nat, rejectDots: bool) returns (v: Verdict)
    requires compLen <= |s| && (compLen > 0 ==> compStart == |s| - compLen) && Scanned(s, |s| - compLen, |s|, rejectDots)
    requires compLen == RunLength(s, |s|) && NoFaultBefore(s, |s|, rejectDots)
    ensures v.Accepted? <==> BytesAllowed(s) && NamesAccepted(Components(s, 0), rejectDots)
    ensures v.Rejected? ==> exists i: nat :: FirstFault(s, i, rejectDots, v)
  {
    v := CheckRun(s, |s| - compLen, |s|, compStart, rejectDots);
    if v.Accepted? {
      ScanEnds(s, |s| - compLen, rejectDots);
    } else {
      FaultFound(s, |s|, rejectDots, v);
    }
  }

  lemma {:induction false} ScanStarts(s: seq<u8>, rejectDots: bool)
    ensures Scanned(s, 0, 0, rejectDots)
  {
    SkipSlashesAt([], 0, 0);
    assert s[..0] == [];
  }

  lemma {:induction false} ScanEnds(s: seq<u8>, k: nat, rejectDots: bool)
    requires k <= |s| && Scanned(s, k, |s|, rejectDots) && RunAccepted(s, k, |s|, rejectDots)
    ensures BytesAllowed(s) && NamesAccepted(Components(s, 0), rejectDots)
  {
    RunJoins(s, k, |s|, rejectDots);
    assert s[..|s|] == s;
  }

  /** One byte of the scan. */
  method ScanByte(s: seq<u8>, i: nat, start0: nat, len0: nat, rejectDots: bool) returns (v: Verdict, compStart: nat, compLen: nat)
    requires len0 <= i < |s| && (len0 > 0 ==> start0 == i - len0) && Scanned(s, i - len0, i, rejectDots)
    requires len0 == RunLength(s, i)
    ensures FaultAt(s, i, rejectDots) == if v.Rejected? then Some(v.error) else None
    ensures v.Accepted? ==> compLen == RunLength(s, i + 1)
    ensures v.Rejected? ==> !(BytesAllowed(s) && NamesAccepted(Components(s, 0), rejectDots))
    ensures v.Accepted? ==> compLen <= i + 1 && (compLen > 0 ==> compStart == i + 1 - compLen)
    ensures v.Accepted? ==> Scanned(s, i + 1 - compLen, i + 1, rejectDots)
  {
    v, compStart, compLen := Accepted, start0, len0;
    var b := s[i];
    if b < 0x20 || b == 0x7f || b == 0x5c {
      BadByteAt(s, i, rejectDots);
      v := Rejected(BadByte);
    } else if b == SLASH {
      v := ScanSlash(s, i, start0, len0, rejectDots);
      compStart, compLen := i + 1, 0;
    } else {
      v, compStart, compLen := ScanNameByte(s, i, start0, len0, rejectDots);
    }
  }

  lemma {:induction false} BadByteAt(s: seq<u8>, i: nat, rejectDots: bool)
    requires i < |s| && !ByteAllowed(s[i])
    ensures !BytesAllowed(s) && FaultAt(s, i, rejectDots) == Some(BadByte)
  {}

  method ScanSlash(s: seq<u8>, i: nat, start0: nat, len0: nat, rejectDots: bool) returns (v: Verdict)
    requires len0 <= i < |s| && (len0 > 0 ==> start0 == i - len0) && Scanned(s, i - len0, i, rejectDots)
    requires len0 == RunLength(s, i) && s[i] == SLASH
    ensures v.Rejected? ==> !NamesAccepted(Components(s, 0), rejectDots)
    ensures FaultAt(s, i, rejectDots) == if v.Rejected? then Some(v.error) else None
    ensures v.Accepted? ==> Scanned(s, i + 1, i + 1, rejectDots)
  {
    v := CheckRun(s, i - len0, i, start0, rejectDots);
    if v.Accepted? { ScanCloses(s, i - len0, i, rejectDots); }
  }

  method ScanNameByte(s: seq<u8>, i: nat, start0: nat, len0: nat, rejectDots: bool) returns (v: Verdict, compStart: nat, compLen: nat)
    requires len0 <= i < |s| && (len0 > 0 ==> start0 == i - len0) && Scanned(s, i - len0, i, rejectDots)
    requires len0 == RunLength(s, i) && ByteAllowed(s[i]) && s[i] != SLASH
    ensures v.Rejected? ==> !NamesAccepted(Components(s, 0), rejectDots)
    ensures FaultAt(s, i, rejectDots) == if v.Rejected? then Some(v.error) else None
    ensures compLen == RunLength(s, i + 1) <= i + 1 && compStart == i + 1 - compLen
    ensures v.Accepted? ==> Scanned(s, i + 1 - compLen, i + 1, rejectDots)
  {
    v, compStart, compLen := Accepted, start0, len0;
    if compLen == 0 { compStart := i; }
    if compLen + 1 >= NAME_MAX {
      ScanTooLong(s, i - compLen, i, rejectDots);
      v := Rejected(ComponentTooLong);
    } else {
      ScanExtends(s, i - compLen, i, rejectDots);
    }
    compLen := compLen + 1;
  }

  /** The error is the first thing wrong: the buffer, its length, its first byte,
      then the first fault in the text. */
  ghost predicate Names(v: Verdict, buf: seq<u8>, absolute: bool, rejectDots: bool) {
    var s := CStr(buf);
    if buf == [] then v == Rejected(Null)
    else if |s| == |buf| then v == Rejected(TooLong)
    else if s == [] then v == Rejected(Empty)
    else if |s| >= PATH_MAX then v == Rejected(TooLong)
    else if absolute && s[0] != SLASH then v == Rejected(NotAbsolute)
    else exists i: nat :: FirstFault(s, i, rejectDots, v)
  }

  /** validate_path_shape: the buffer must hold a terminated string of accepted
      shape. */
  method ValidatePathShape(buf: seq<u8>, absolute: bool, rejectDots: bool) returns (v: Verdict)
    ensures v.Accepted? <==> |CStr(buf)| < |buf| && ShapeOk(CStr(buf), absolute, rejectDots)
    ensures v.Rejected? ==> Names(v, buf, absolute, rejectDots)
  {
    if buf == [] { return Rejected(Null); }
    var len, e := CStrLen(buf);
    if len.None? { return Rejected(e); }
    if len.value >= PATH_MAX { return Rejected(TooLong); }
    if absolute && buf[0] != SLASH { return Rejected(NotAbsolute); }
    assert CStr(buf) == buf[..len.value];
    v := ScanShape(buf[..len.value], rejectDots);
  }

  // ----- The policy and the normaliser -------------------------------------

  predicate NamesAllowed(names: seq<Name>) {
    forall n :: 0 <= n < |names| ==> BytesAllowed(names[n])
  }

  lemma {:induction false} ConsAllowed(name: Name, rest: seq<Name>)
    ensures NamesAllowed([name] + rest) <==> BytesAllowed(name) && NamesAllowed(rest)
  {
    var c := [name] + rest;
    assert c[0] == name && c[1..] == rest;
    assert forall n :: 0 <= n < |rest| ==> c[n + 1] == rest[n];
  }

  lemma {:induction false} ConcatAllowed(a: seq<u8>, b: seq<u8>)
    ensures BytesAllowed(a + b) <==> BytesAllowed(a) && BytesAllowed(b)
  {
    var c := a + b;
    assert forall k :: 0 <= k < |a| ==> a[k] == c[k];
    assert forall k :: 0 <= k < |b| ==> b[k] == c[|a| + k];
  }

  lemma {:induction false} BytesOfComponents(s: seq<u8>, i: nat)
    requires i <= |s|
    ensures BytesAllowed(s[i..]) <==> NamesAllowed(Components(s, i))
    decreases |s| - i
  {
    var j := SkipSlashes(s, i);
    SlashesAllowed(s, i, j);
    if j < |s| {
      var e := NameEnd(s, j);
      SplitAllowed(s, j, e);
      FirstIs(s, i, j, e, s[j..e], Components(s, e));
      ConsAllowed(s[j..e], Components(s, e));
      BytesOfComponents(s, e);
    }
  }

  lemma {:induction false} SplitAllowed(s: seq<u8>, j: nat, e: nat)
    requires j <= e <= |s|
    ensures BytesAllowed(s[j..]) <==> BytesAllowed(s[j..e]) && BytesAllowed(s[e..])
  {
    assert s[j..] == s[j..e] + s[e..];
    ConcatAllowed(s[j..e], s[e..]);
  }

  lemma {:induction false} SlashesAllowed(s: seq<u8>, i: nat, j: nat)
    requires i <= j <= |s| && forall k :: i <= k < j ==> s[k] == SLASH
    ensures BytesAllowed(s[i..]) <==> BytesAllowed(s[j..])
  {
    assert forall k :: 0 <= k < j - i ==> s[i..j][k] == SLASH;
    SplitAllowed(s, i, j);
  }

  lemma {:induction false} BodyWeight(st: seq<Name>)
    ensures |Body(st)| == Weight(st)
  {
    if st != [] {
      assert st == [st[0]] + st[1..];
      BodyConcat([st[0]], st[1..]);
      BodyWeight(st[1..]);
      assert [st[0]][..|[st[0]]| - 1] == st[..0];
    }
  }

  lemma {:induction false} ResolveNeedsNames(st: seq<Name>, names: seq<Name>, cap: nat)
    requires forall i :: 0 <= i < |names| ==> !IsDots(names[i])
    requires Resolve(st, names, cap).Some?
    ensures forall i :: 0 <= i < |names| ==> NameOk(names[i])
    decreases |names|
  {
    if names != [] {
      ResolveNeedsNames(st + [names[0]], names[1..], cap);
      assert forall i :: 1 <= i < |names| ==> names[i] == names[1..][i - 1];
    }
  }

  ghost predicate NoDots(names: seq<Name>) {
    forall i :: 0 <= i < |names| ==> !IsDots(names[i])
  }

  /** The policy accepts exactly the paths that normalise and have no dot
      component; normalisation then only tidies slashes. */
  lemma {:induction false} PolicyIsNormalWithoutDots(s: seq<u8>)
    ensures ShapeOk(s, true, true) <==> Normal(s, PATH_MAX).Some? && NoDots(Components(s, 0))
    ensures ShapeOk(s, true, true) ==> Normal(s, PATH_MAX) == Some(Components(s, 0))
  {
    var names := Components(s, 0);
    if 0 < |s| < PATH_MAX && s[0] == SLASH {
      ComponentsAreNames(s, 0);
      BytesOfComponents(s, 0);
      assert s[0..] == s;
      if ShapeOk(s, true, true) {
        assert StackOk(names);
        ComponentsWeight(s, 0);
        BodyWeight(names);
        assert [] + names == names;
        ResolveClean([], names, PATH_MAX);
      } else if Normal(s, PATH_MAX).Some? && NoDots(names) {
        ResolveNeedsNames([], names, PATH_MAX);
      }
    }
  }
}
