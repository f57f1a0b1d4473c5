/** What path normalisation means, independent of either implementation: split
    into components, resolve `.` and `..` on a stack, and render the stack.
    Escaping the root is an error here, unlike pathname resolution in
    section 4.13 of POSIX.1-2017. */
module Path {

  type u8 = x: int | 0 <= x < 256
  type Name = seq<u8>

  datatype Option<+T> = None | Some(value: T)

  const SLASH: u8 := 0x2f
  const DOT: u8 := 0x2e
  const PATH_MAX: nat := 256
  const NAME_MAX: nat := 64

  // ----- C strings ---------------------------------------------------------

  /** The bytes before the terminator, or all of them when there is none. */
  function CStr(b: seq<u8>): (s: seq<u8>)
    ensures s <= b && (|s| < |b| ==> b[|s|] == 0)
    ensures forall i :: 0 <= i < |s| ==> s[i] != 0
  {
    if b == [] || b[0] == 0 then [] else [b[0]] + CStr(b[1..])
  }

  lemma {:induction false} CStrUnique(b: seq<u8>, n: nat)
    requires n <= |b| && (forall i :: 0 <= i < n ==> b[i] != 0) && (n < |b| ==> b[n] == 0)
    ensures CStr(b) == b[..n]
  {
    var m := |CStr(b)|;
    assert CStr(b) == b[..m];
  }

  // ----- Components --------------------------------------------------------

  function SkipSlashes(s: seq<u8>, i: nat): (j: nat)
    requires i <= |s|
    ensures i <= j <= |s| && (j < |s| ==> s[j] != SLASH)
    ensures forall k :: i <= k < j ==> s[k] == SLASH
    decreases |s| - i
  {
    if i < |s| && s[i] == SLASH then SkipSlashes(s, i + 1) else i
  }

  function NameEnd(s: seq<u8>, i: nat): (j: nat)
    requires i <= |s|
    ensures i <= j <= |s| && (j < |s| ==> s[j] == SLASH)
    ensures forall k :: i <= k < j ==> s[k] != SLASH
    decreases |s| - i
  {
    if i < |s| && s[i] != SLASH then NameEnd(s, i + 1) else i
  }

  /** The non-empty components from position `i` on. */
  function Components(s: seq<u8>, i: nat): seq<Name>
    requires i <= |s|
    decreases |s| - i
  {
    var j := SkipSlashes(s, i);
    if j == |s| then []
    else
      var k := NameEnd(s, j);
      [s[j..k]] + Components(s, k)
  }

  predicate ByteAllowed(c: u8) {
    c >= 0x20 && c != 0x7f && c != 0x5c
  }

  predicate BytesAllowed(n: seq<u8>) {
    forall i :: 0 <= i < |n| ==> ByteAllowed(n[i])
  }

  predicate IsDots(n: Name) {
    n == [DOT] || n == [DOT, DOT]
  }

  predicate NameOk(n: Name) {
    |n| < NAME_MAX && BytesAllowed(n)
  }

  // ----- Resolution --------------------------------------------------------

  /** Every name of the stack after a slash. */
  function Body(st: seq<Name>): seq<u8> {
    if st == [] then [] else Body(st[..|st| - 1]) + [SLASH] + st[|st| - 1]
  }

  function Render(st: seq<Name>): seq<u8> {
    if st == [] then [SLASH] else Body(st)
  }

  /** Resolves `names` on top of `st` in a buffer of `cap` bytes. */
  function Resolve(st: seq<Name>, names: seq<Name>, cap: nat): Option<seq<Name>>
    decreases |names|
  {
    if names == [] then Some(st)
    else
      var n, rest := names[0], names[1..];
      if n == [DOT] then Resolve(st, rest, cap)
      else if n == [DOT, DOT] then
        if st == [] then None else Resolve(st[..|st| - 1], rest, cap)
      else if !NameOk(n) || |Render(st + [n])| >= cap then None
      else Resolve(st + [n], rest, cap)
  }

  /** The stack an absolute path denotes, if it normalises at all. */
  function Normal(s: seq<u8>, cap: nat): Option<seq<Name>> {
    if |s| == 0 || |s| >= PATH_MAX || s[0] != SLASH then None
    else Resolve([], Components(s, 0), cap)
  }

  /** What every resolved stack looks like. */
  predicate StackOk(st: seq<Name>) {
    forall i :: 0 <= i < |st| ==>
      st[i] != [] && NameOk(st[i]) && !IsDots(st[i]) && SlashFree(st[i])
  }

  // ----- Splitting and joining ---------------------------------------------

  predicate SlashFree(n: seq<u8>) {
    forall i :: 0 <= i < |n| ==> n[i] != SLASH
  }

  /** Names as the splitter produces them. */
  predicate RawNames(names: seq<Name>) {
    forall i :: 0 <= i < |names| ==> names[i] != [] && SlashFree(names[i])
  }

  lemma {:induction false} ComponentsAreNames(s: seq<u8>, i: nat)
    requires i <= |s|
    ensures RawNames(Components(s, i))
    decreases |s| - i
  {
    var j := SkipSlashes(s, i);
    if j < |s| { ComponentsAreNames(s, NameEnd(s, j)); }
  }

  lemma {:induction false} SkipSlashesAt(s: seq<u8>, i: nat, j: nat)
    requires i <= j <= |s| && (j < |s| ==> s[j] != SLASH)
    requires forall k :: i <= k < j ==> s[k] == SLASH
    ensures SkipSlashes(s, i) == j
  {
  }

  lemma {:induction false} NameEndAt(s: seq<u8>, i: nat, j: nat)
    requires i <= j <= |s| && (j < |s| ==> s[j] == SLASH)
    requires forall k :: i <= k < j ==> s[k] != SLASH
    ensures NameEnd(s, i) == j
  {
  }

  /** Components read from a position are those of the remaining text. */
  lemma {:induction false} ComponentsShift(a: seq<u8>, b: seq<u8>, i: nat)
    requires i <= |b|
    ensures Components(a + b, |a| + i) == Components(b, i)
  {
    assert (a + b)[|a|..] == b;
    ComponentsOfTail(a + b, |a|, b, i);
  }

  lemma {:induction false} ComponentsOfTail(t: seq<u8>, d: nat, b: seq<u8>, i: nat)
    requires d <= |t| && t[d..] == b && i <= |b|
    ensures Components(t, d + i) == Components(b, i)
    decreases |b| - i
  {
    var j, k := ScanBoth(t, d, b, i);
    if j < |b| { ComponentsOfTail(t, d, b, k); }
    SameFirst(t, d, b, i, j, k, Components(b, k));
  }

  /** Two texts whose first components are in the same place. */
  lemma {:induction false} SameFirst(t: seq<u8>, d: nat, b: seq<u8>, i: nat, j: nat, k: nat, rest: seq<Name>)
    requires i <= |b| && j == SkipSlashes(b, i) && k == NameEnd(b, j) && d + |b| == |t|
    requires d + j == SkipSlashes(t, d + i) && d + k == NameEnd(t, d + j) && t[d + j..d + k] == b[j..k]
    requires j < |b| ==> Components(t, d + k) == rest && Components(b, k) == rest
    ensures Components(t, d + i) == Components(b, i)
  {
    FirstIs(t, d + i, d + j, d + k, b[j..k], rest);
    FirstIs(b, i, j, k, b[j..k], rest);
  }

  lemma {:induction false} FirstIs(s: seq<u8>, i: nat, j: nat, k: nat, name: Name, rest: seq<Name>)
    requires i <= |s| && j == SkipSlashes(s, i) && k == NameEnd(s, j) && name == s[j..k]
    requires j < |s| ==> Components(s, k) == rest
    ensures Components(s, i) == if j == |s| then [] else [name] + rest
  {}

  lemma {:induction false} ScanBoth(t: seq<u8>, d: nat, b: seq<u8>, i: nat) returns (j: nat, k: nat)
    requires d <= |t| && t[d..] == b && i <= |b|
    ensures i <= j <= k <= |b| && (j < |b| ==> j < k)
    ensures j == SkipSlashes(b, i) && k == NameEnd(b, j)
    ensures d + k <= |t| && d + j == SkipSlashes(t, d + i) && d + k == NameEnd(t, d + j)
    ensures t[d + j..d + k] == b[j..k]
  {
    ScanTail(t, d, b, i);
    j := SkipSlashes(b, i);
    ScanTail(t, d, b, j);
    k := NameEnd(b, j);
    TailSlice(t, d, b, j, k);
  }

  lemma {:induction false} TailSlice(t: seq<u8>, d: nat, b: seq<u8>, j: nat, k: nat)
    requires d <= |t| && t[d..] == b && j <= k <= |b|
    ensures t[d + j..d + k] == b[j..k]
  {
    var x, y := t[d + j..d + k], b[j..k];
    forall m | 0 <= m < |x| ensures x[m] == y[m] { assert t[d..][j + m] == t[d + j + m]; }
  }

  lemma {:induction false} ScanTail(t: seq<u8>, d: nat, b: seq<u8>, i: nat)
    requires d <= |t| && t[d..] == b && i <= |b|
    ensures SkipSlashes(t, d + i) == d + SkipSlashes(b, i)
    ensures NameEnd(t, d + i) == d + NameEnd(b, i)
  {
    assert forall k :: d <= k < |t| ==> t[k] == b[k - d];
    SkipSlashesAt(t, d + i, d + SkipSlashes(b, i));
    NameEndAt(t, d + i, d + NameEnd(b, i));
  }

  /** A slash separates: the components of both sides follow each other. */
  lemma {:induction false} ComponentsConcat(a: seq<u8>, b: seq<u8>, i: nat)
    requires i <= |a|
    ensures Components(a + [SLASH] + b, i) == Components(a, i) + Components(b, 0)
    decreases |a| - i
  {
    var s := a + [SLASH] + b;
    var j := SkipSlashes(a, i);
    if j == |a| {
      TrailingSlashes(a, b, i);
    } else {
      var k := NameEnd(a, j);
      SkipSlashesAt(s, i, j);
      NameEndAt(s, j, k);
      assert s[j..k] == a[j..k];
      ComponentsConcat(a, b, k);
      assert [a[j..k]] + (Components(a, k) + Components(b, 0)) == ([a[j..k]] + Components(a, k)) + Components(b, 0);
    }
  }

  lemma {:induction false} TrailingSlashes(a: seq<u8>, b: seq<u8>, i: nat)
    requires i <= |a| && SkipSlashes(a, i) == |a|
    ensures Components(a + [SLASH] + b, i) == Components(b, 0)
    ensures Components(a, i) + Components(b, 0) == Components(b, 0)
  {
    var j := SkipSlashes(b, 0);
    SlashesJoin(a, b, i, j);
    ComponentsShift(a + [SLASH], b, 0);
    SameStart(a + [SLASH] + b, i, |a| + 1);
  }

  /** The slashes before, between and after are one run. */
  lemma {:induction false} SlashesJoin(a: seq<u8>, b: seq<u8>, i: nat, j: nat)
    requires i <= |a| && SkipSlashes(a, i) == |a| && j == SkipSlashes(b, 0)
    ensures var s := a + [SLASH] + b; SkipSlashes(s, i) == |a| + 1 + j == SkipSlashes(s, |a| + 1)
  {
    var s, p := a + [SLASH] + b, |a| + 1;
    assert forall k :: i <= k < |a| ==> s[k] == a[k];
    assert forall k :: p <= k < p + j ==> s[k] == b[k - p];
    assert j < |b| ==> s[p + j] == b[j];
    SkipSlashesAt(s, i, p + j);
    SkipSlashesAt(s, p, p + j);
  }

  lemma {:induction false} SameStart(s: seq<u8>, i: nat, j: nat)
    requires i <= |s| && j <= |s| && SkipSlashes(s, i) == SkipSlashes(s, j)
    ensures Components(s, i) == Components(s, j)
  {}

  lemma {:induction false} SingleName(n: Name)
    requires n != [] && SlashFree(n)
    ensures Components(n, 0) == [n]
  {
    SkipSlashesAt(n, 0, 0);
    NameEndAt(n, 0, |n|);
    assert n[0..|n|] == n;
    SkipSlashesAt(n, |n|, |n|);
  }

  lemma {:induction false} SplitUndoesJoin(st: seq<Name>)
    requires RawNames(st)
    ensures Components(Body(st), 0) == st
    ensures Components(Render(st), 0) == st
  {
    if st == [] {
      SkipSlashesAt([SLASH], 0, 1);
    } else {
      var init, last := st[..|st| - 1], st[|st| - 1];
      SplitUndoesJoin(init);
      ComponentsConcat(Body(init), last, 0);
      SingleName(last);
      assert st == init + [last];
    }
  }

  lemma {:induction false} BodyConcat(a: seq<Name>, b: seq<Name>)
    ensures Body(a + b) == Body(a) + Body(b)
    decreases |b|
  {
    if b == [] {
      assert a + b == a;
    } else {
      assert (a + b)[..|a + b| - 1] == a + b[..|b| - 1];
      BodyConcat(a, b[..|b| - 1]);
    }
  }

  // ----- Laws of resolution ------------------------------------------------

  lemma {:induction false} ResolveConcat(st: seq<Name>, a: seq<Name>, b: seq<Name>, cap: nat)
    ensures Resolve(st, a + b, cap)
            == var r := Resolve(st, a, cap); if r.None? then None else Resolve(r.value, b, cap)
    decreases |a|
  {
    if a == [] {
      assert a + b == b;
    } else {
      var n := a[0];
      assert (a + b)[0] == n && (a + b)[1..] == a[1..] + b;
      if n == [DOT] {
        ResolveConcat(st, a[1..], b, cap);
      } else if n == [DOT, DOT] {
        if st != [] { ResolveConcat(st[..|st| - 1], a[1..], b, cap); }
      } else {
        ResolveConcat(st + [n], a[1..], b, cap);
      }
    }
  }

  /** Whatever resolves contains no empty, `.` or `..` component. */
  lemma {:induction false} ResolveKeepsStackOk(st: seq<Name>, names: seq<Name>, cap: nat)
    requires StackOk(st)
    requires RawNames(names)
    ensures Resolve(st, names, cap).Some? ==> StackOk(Resolve(st, names, cap).value)
    decreases |names|
  {
    if names != [] {
      var n := names[0];
      if n == [DOT] {
        ResolveKeepsStackOk(st, names[1..], cap);
      } else if n == [DOT, DOT] {
        if st != [] { ResolveKeepsStackOk(st[..|st| - 1], names[1..], cap); }
      } else if NameOk(n) {
        ResolveKeepsStackOk(st + [n], names[1..], cap);
      }
    }
  }

  /** Bytes the names take when each follows a slash. */
  function Weight(names: seq<Name>): nat {
    if names == [] then 0 else 1 + |names[0]| + Weight(names[1..])
  }

  lemma {:induction false} ComponentsWeight(s: seq<u8>, i: nat)
    requires i <= |s| && (i < |s| ==> s[i] == SLASH)
    ensures Weight(Components(s, i)) <= |s| - i
    decreases |s| - i
  {
    var j := SkipSlashes(s, i);
    if j < |s| { ComponentsWeight(s, NameEnd(s, j)); }
  }

  /** The output never outgrows the consumed input, so a buffer as large as the
      longest path is never too small. */
  lemma {:induction false} CapacityNeverBinds(st: seq<Name>, names: seq<Name>, cap: nat, room: nat)
    requires |Body(st)| + Weight(names) <= room && room < cap && 1 < cap
    ensures Resolve(st, names, cap) == Resolve(st, names, room + 2)
    ensures Resolve(st, names, cap).Some? ==> |Body(Resolve(st, names, cap).value)| <= room
    decreases |names|
  {
    if names != [] {
      var n := names[0];
      if n == [DOT] {
        CapacityNeverBinds(st, names[1..], cap, room);
      } else if n == [DOT, DOT] {
        if st != [] {
          assert |Body(st[..|st| - 1])| <= |Body(st)|;
          CapacityNeverBinds(st[..|st| - 1], names[1..], cap, room);
        }
      } else {
        assert (st + [n])[..|st|] == st;
        CapacityNeverBinds(st + [n], names[1..], cap, room);
      }
    }
  }

  lemma {:induction false} RenderLength(st: seq<Name>)
    ensures |Render(st)| == if st == [] then 1 else |Body(st)|
  {}

  /** At the size every caller uses, normalisation has no capacity failures:
      the result is the same for every larger buffer and is a valid path. */
  lemma {:induction false} NormalFits(s: seq<u8>, cap: nat)
    requires PATH_MAX <= cap
    ensures Normal(s, cap) == Normal(s, PATH_MAX)
    ensures Normal(s, cap).Some? ==>
              var st := Normal(s, cap).value;
              StackOk(st) && |Render(st)| <= |s| < PATH_MAX
  {
    if 0 < |s| < PATH_MAX && s[0] == SLASH {
      var names := Components(s, 0);
      ComponentsWeight(s, 0);
      ComponentsAreNames(s, 0);
      CapacityNeverBinds([], names, cap, |s|);
      CapacityNeverBinds([], names, PATH_MAX, |s|);
      ResolveKeepsStackOk([], names, cap);
      if Resolve([], names, cap).Some? { RenderLength(Resolve([], names, cap).value); }
    }
  }

  lemma {:induction false} ResolveClean(st: seq<Name>, names: seq<Name>, cap: nat)
    requires StackOk(names) && |Body(st + names)| < cap && 1 < cap
    ensures Resolve(st, names, cap) == Some(st + names)
    decreases |names|
  {
    if names == [] {
      assert st + names == st;
    } else {
      assert st + [names[0]] + names[1..] == st + names;
      BodyConcat(st + [names[0]], names[1..]);
      ResolveClean(st + [names[0]], names[1..], cap);
    }
  }

  lemma {:induction false} BodyStartsWithSlash(st: seq<Name>)
    requires st != []
    ensures Body(st) != [] && Body(st)[0] == SLASH
  {
    if |st| > 1 { BodyStartsWithSlash(st[..|st| - 1]); }
  }

  lemma {:induction false} RenderNormal(st: seq<Name>, cap: nat)
    requires StackOk(st) && |Render(st)| < PATH_MAX && |Render(st)| < cap
    ensures Normal(Render(st), cap) == Some(st)
  {
    SplitUndoesJoin(st);
    if st != [] { BodyStartsWithSlash(st); }
    assert [] + st == st;
    ResolveClean([], st, cap);
  }

  /** Normalising a normalised path changes nothing. */
  lemma {:induction false} NormalIsIdempotent(s: seq<u8>)
    requires Normal(s, PATH_MAX).Some?
    ensures Normal(Render(Normal(s, PATH_MAX).value), PATH_MAX) == Normal(s, PATH_MAX)
  {
    NormalFits(s, PATH_MAX);
    RenderNormal(Normal(s, PATH_MAX).value, PATH_MAX);
  }

  /** Appending a component and then `..` is the same as appending nothing. */
  lemma {:induction false} PopUndoesAppend(st: seq<Name>, n: Name, cap: nat)
    requires !IsDots(n) && NameOk(n) && |Render(st + [n])| < cap
    ensures Resolve(st, [n, [DOT, DOT]], cap) == Some(st)
  {
    var up: Name := [DOT, DOT];
    assert [n, up][1..] == [up];
    assert (st + [n])[..|st|] == st;
    assert [up][1..] == [];
    assert Resolve(st + [n], [up], cap) == Resolve(st, [], cap);
  }

  /** A path resolves relative to a normalised base as its components resolve on
      top of the base's, whether or not the base ends in a slash. */
  lemma {:induction false} JoinResolves(base: seq<Name>, leaf: seq<u8>, cap: nat)
    requires StackOk(base) && PATH_MAX <= cap
    ensures var b := Render(base);
            var joined := if b[|b| - 1] == SLASH then b + leaf else b + [SLASH] + leaf;
            |joined| < PATH_MAX ==> Normal(joined, cap) == Resolve(base, Components(leaf, 0), cap)
  {
    var b := Render(base);
    if base != [] { BodyStartsWithSlash(base); }
    var joined := if b[|b| - 1] == SLASH then b + leaf else b + [SLASH] + leaf;
    if |joined| < PATH_MAX {
      assert joined[0] == SLASH;
      SplitUndoesJoin(base);
      if base == [] {
        assert [] + [SLASH] + leaf == joined;
        ComponentsConcat([], leaf, 0);
        SkipSlashesAt([], 0, 0);
      } else {
        LastByteIsNoSlash(base);
        ComponentsConcat(b, leaf, 0);
      }
      ResolveConcat([], base, Components(leaf, 0), cap);
      assert [] + base == base;
      ResolveClean([], base, cap);
    }
  }

  lemma {:induction false} LastByteIsNoSlash(st: seq<Name>)
    requires StackOk(st) && st != []
    ensures Body(st)[|Body(st)| - 1] != SLASH
  {
    var last := st[|st| - 1];
    assert Body(st)[|Body(st)| - 1] == last[|last| - 1];
  }

  // ----- The stack in a buffer ---------------------------------------------

  /** How rendering grows by one name: a slash separates it unless the root is
      all there is. */
  lemma {:induction false} RenderSnoc(st: seq<Name>, n: Name)
    ensures Render(st + [n]) == (if st == [] then [SLASH] else Render(st) + [SLASH]) + n
  {
    var s := st + [n];
    assert s != [] && s[..|s| - 1] == st && s[|s| - 1] == n;
    assert Body(s) == Body(st) + [SLASH] + n;
    if st == [] { assert Body(st) + [SLASH] == [SLASH]; }
  }

  lemma {:induction false} RenderIsLong(st: seq<Name>)
    requires StackOk(st)
    ensures |Render(st)| >= 1 && (|Render(st)| > 1 <==> st != [])
  {
    if st != [] {
      var last := st[|st| - 1];
      assert |last| > 0 && |Body(st)| == |Body(st[..|st| - 1])| + 1 + |last|;
    }
  }

  /** What one component does to the resolution. */
  lemma {:induction false} ResolveStep(s: seq<u8>, i: nat, st: seq<Name>, cap: nat)
    requires i <= |s|
    ensures var j := SkipSlashes(s, i);
            var k := NameEnd(s, j);
            var c := s[j..k];
            && (j == |s| ==> Components(s, i) == Components(s, k))
            && (j < |s| ==>
                  && c != [] && SlashFree(c)
                  && (c == [DOT] ==> Resolve(st, Components(s, i), cap) == Resolve(st, Components(s, k), cap))
                  && (c == [DOT, DOT] ==>
                        (Resolve(st, Components(s, i), cap)
                         == if st == [] then None else Resolve(st[..|st| - 1], Components(s, k), cap)))
                  && (!IsDots(c) ==>
                        (Resolve(st, Components(s, i), cap)
                         == if !NameOk(c) || |Render(st + [c])| >= cap then None
                            else Resolve(st + [c], Components(s, k), cap))))
  {
    var j := SkipSlashes(s, i);
    var k := NameEnd(s, j);
    if j < |s| {
      assert Components(s, i)[1..] == Components(s, k);
    }
  }

  /** Where the last name of a rendered stack starts. */
  lemma {:induction false} LastName(st: seq<Name>)
    requires StackOk(st) && st != []
    ensures var init := st[..|st| - 1];
            var r, p := Render(st), |Body(init)| + 1;
            && 1 <= p < |r|
            && r[p - 1] == SLASH
            && (forall i :: p <= i < |r| ==> r[i] != SLASH)
            && (if init == [] then r[..p] == Render(init) && p == 1
                else r[..p - 1] == Render(init) && p > 1)
  {
    var init, last := st[..|st| - 1], st[|st| - 1];
    var r, p := Render(st), |Body(init)| + 1;
    assert r == Body(init) + [SLASH] + last;
    assert forall i :: p <= i < |r| ==> r[i] == last[i - p];
    assert r[..p - 1] == Body(init);
    if init == [] { assert r[..1] == [SLASH]; }
  }
}
