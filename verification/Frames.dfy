/** What the physical frame allocator of kernel/arch/x86_64/memory.c does, on
    values: which frames are in use, and how many references each has. The
    allocator itself is FrameAllocator.dfy; E820.dfy makes the map it starts
    from. */
module Frames {
  import opened Arith
  import opened E820

  const MAX_FRAMES: nat := 0x10_0000
  const LOW_LIMIT: u64 := 0x20_0000
  const BITMAP_BASE: u64 := 0x10_0000
  const BITMAP_BYTES: u64 := 0x2_0000
  const REFCOUNT_BASE: u64 := 0x40_0000
  const REFCOUNT_BYTES: u64 := 0x20_0000
  const MIN_MEMORY: u64 := 0x200_0000
  const LOW_FRAMES: nat := 512
  const MAX_REFS: nat := 0xffff
  const IDENTITY_LIMIT: u64 := 0x4000_0000

  /** Frames in use and their reference counts; the kernel image's range. */
  datatype Mem = Mem(used: seq<bool>, refs: seq<nat>, kernelStart: u64, kernelEnd: u64)

  /** A frame is in use exactly when it has references, counts fit 16 bits, and
      the low two megabytes are always in use. */
  predicate Inv(m: Mem) {
    && LOW_FRAMES <= |m.used| <= MAX_FRAMES && |m.refs| == |m.used|
    && m.kernelStart <= m.kernelEnd
    && (forall f :: 0 <= f < |m.used| ==> (m.used[f] <==> m.refs[f] > 0))
    && (forall f :: 0 <= f < |m.refs| ==> m.refs[f] <= MAX_REFS)
    && (forall f :: 0 <= f < LOW_FRAMES ==> m.used[f])
  }

  // ----- Reserved ranges ---------------------------------------------------

  predicate Overlap(a: u64, alen: u64, b: u64, blen: u64) {
    var ae, be := RangeEnd(a, alen), RangeEnd(b, blen);
    ae.Some? && be.Some? && a < be.value && b < ae.value
  }

  /** range_intersects_reserved. */
  predicate Reserved(kernelStart: u64, kernelEnd: u64, base: u64, length: u64)
    requires kernelStart <= kernelEnd
  {
    || length == 0
    || Overlap(base, length, 0, LOW_LIMIT)
    || Overlap(base, length, kernelStart, kernelEnd - kernelStart)
    || Overlap(base, length, BITMAP_BASE, BITMAP_BYTES)
    || Overlap(base, length, REFCOUNT_BASE, REFCOUNT_BYTES)
  }

  // ----- Operations --------------------------------------------------------

  /** `pages` free frames from `b` on. */
  predicate FreeRun(used: seq<bool>, b: nat, pages: nat) {
    b + pages <= |used| && forall f :: b <= f < b + pages ==> !used[f]
  }

  /** `b` is the first place below `max` where a run fits. */
  predicate FirstFit(used: seq<bool>, pages: nat, max: nat, b: nat) {
    && b + pages <= max <= |used| && FreeRun(used, b, pages)
    && forall c :: 0 <= c < b ==> !FreeRun(used, c, pages)
  }

  predicate NoFit(used: seq<bool>, pages: nat, max: nat) {
    forall c :: 0 <= c && c + pages <= max ==> !FreeRun(used, c, pages)
  }

  function Limit(m: Mem, maxExclusive: u64): nat {
    if maxExclusive / PAGE > |m.used| then |m.used| else maxExclusive / PAGE
  }

  /** The search from `b` on. */
  function Search(used: seq<bool>, pages: nat, max: nat, b: nat): (r: Option<nat>)
    requires max <= |used|
    ensures r.Some? ==> b <= r.value && r.value + pages <= max && FreeRun(used, r.value, pages)
                        && forall c :: b <= c < r.value ==> !FreeRun(used, c, pages)
    ensures r.None? ==> forall c :: b <= c && c + pages <= max ==> !FreeRun(used, c, pages)
    decreases |used| - b
  {
    if b + pages > max then None
    else if FreeRun(used, b, pages) then Some(b)
    else if b == |used| then None
    else Search(used, pages, max, b + 1)
  }

  function MarkBits(s: seq<bool>, b: nat, n: nat, v: bool): (r: seq<bool>)
    requires b + n <= |s|
    ensures |r| == |s|
    ensures forall f :: 0 <= f < |s| ==> r[f] == if b <= f < b + n then v else s[f]
  {
    seq(|s|, f requires 0 <= f < |s| => if b <= f < b + n then v else s[f])
  }

  function SetRefs(s: seq<nat>, b: nat, n: nat, v: nat): (r: seq<nat>)
    requires b + n <= |s|
    ensures |r| == |s|
    ensures forall f :: 0 <= f < |s| ==> r[f] == if b <= f < b + n then v else s[f]
  {
    seq(|s|, f requires 0 <= f < |s| => if b <= f < b + n then v else s[f])
  }

  /** memory_alloc_contiguous_pages_below: the address, or 0. */
  function Alloc(m: Mem, pages: nat, maxExclusive: u64): (Mem, nat)
    requires |m.refs| == |m.used|
  {
    var r := if pages == 0 || maxExclusive < PAGE then None
             else Search(m.used, pages, Limit(m, maxExclusive), 0);
    if r.None? then (m, 0)
    else (m.(used := MarkBits(m.used, r.value, pages, true), refs := SetRefs(m.refs, r.value, pages, 1)),
          r.value * PAGE)
  }

  datatype Outcome = Freed | Ignored | Panicked

  /** memory_free_contiguous_pages; a double free or a free of a shared frame
      stops the machine before anything changes. */
  function Free(m: Mem, addr: u64, pages: u64): (Mem, Outcome)
    requires |m.refs| == |m.used| && m.kernelStart <= m.kernelEnd
  {
    if addr == 0 || pages == 0 || addr % PAGE != 0 || pages * PAGE > MAX64 || Reserved(m.kernelStart, m.kernelEnd, addr, pages * PAGE)
       || addr / PAGE >= |m.used| || pages > |m.used| - addr / PAGE
    then (m, Ignored)
    else
      var b := addr / PAGE;
      if exists f :: b <= f < b + pages && (!m.used[f] || m.refs[f] != 1) then (m, Panicked)
      else (m.(used := MarkBits(m.used, b, pages, false), refs := SetRefs(m.refs, b, pages, 0)), Freed)
  }

  /** The frame of a page address the reference operations accept. */
  predicate Shareable(m: Mem, addr: u64)
    requires |m.refs| == |m.used| && m.kernelStart <= m.kernelEnd
  {
    && addr != 0 && addr % PAGE == 0 && !Reserved(m.kernelStart, m.kernelEnd, addr, PAGE)
    && addr / PAGE < |m.used| && m.used[addr / PAGE] && m.refs[addr / PAGE] > 0
  }

  /** memory_ref_page. */
  function Ref(m: Mem, addr: u64): (Mem, bool)
    requires |m.refs| == |m.used| && m.kernelStart <= m.kernelEnd
  {
    if Shareable(m, addr) && m.refs[addr / PAGE] < MAX_REFS
    then (m.(refs := m.refs[addr / PAGE := m.refs[addr / PAGE] + 1]), true)
    else (m, false)
  }

  /** memory_unref_page: the last reference frees the frame. */
  function Unref(m: Mem, addr: u64): (Mem, bool)
    requires |m.refs| == |m.used| && m.kernelStart <= m.kernelEnd
  {
    if !Shareable(m, addr) then (m, false)
    else
      var b := addr / PAGE;
      var refs := m.refs[b := m.refs[b] - 1];
      (m.(refs := refs, used := if refs[b] == 0 then m.used[b := false] else m.used), true)
  }

  // ----- The invariant holds over every run --------------------------------

  lemma {:induction false} SearchIsFirstFit(used: seq<bool>, pages: nat, max: nat)
    requires max <= |used|
    ensures var r := Search(used, pages, max, 0);
            if r.Some? then FirstFit(used, pages, max, r.value) else NoFit(used, pages, max)
  {}

  lemma {:induction false} FreeRunIsHigh(m: Mem, b: nat, pages: nat)
    requires Inv(m) && pages > 0 && FreeRun(m.used, b, pages)
    ensures b >= LOW_FRAMES
  {
    var first := m.used[b];
  }

  /** Allocation is first fit and complete: it returns the lowest run of free
      frames below the limit, and 0 exactly when there is none. */
  lemma {:induction false} AllocIsFirstFit(m: Mem, pages: nat, maxExclusive: u64)
    requires Inv(m) && pages > 0 && maxExclusive >= PAGE
    ensures var (t, addr) := Alloc(m, pages, maxExclusive);
            && (addr == 0 <==> NoFit(m.used, pages, Limit(m, maxExclusive)))
            && (addr != 0 ==> addr % PAGE == 0 && addr + pages * PAGE <= maxExclusive
                              && FirstFit(m.used, pages, Limit(m, maxExclusive), addr / PAGE))
  {
    var max := Limit(m, maxExclusive);
    SearchIsFirstFit(m.used, pages, max);
    var r := Search(m.used, pages, max, 0);
    if r.Some? {
      var b := r.value;
      FreeRunIsHigh(m, b, pages);
      DivUnique(b * PAGE, PAGE, b, 0);
      DivBounds(maxExclusive, PAGE);
      MulMono(b + pages, maxExclusive / PAGE, PAGE);
      assert (b + pages) * PAGE == b * PAGE + pages * PAGE;
      FitIsNoNoFit(m.used, pages, max, b);
    }
  }

  lemma {:induction false} FitIsNoNoFit(used: seq<bool>, pages: nat, max: nat, b: nat)
    requires FirstFit(used, pages, max, b)
    ensures !NoFit(used, pages, max)
  {}

  lemma {:induction false} AllocInv(m: Mem, pages: nat, maxExclusive: u64)
    requires Inv(m)
    ensures Inv(Alloc(m, pages, maxExclusive).0)
  {}

  /** Frames of the low two megabytes are never freed. */
  lemma {:induction false} ReservedLow(m: Mem, addr: u64, length: u64)
    requires m.kernelStart <= m.kernelEnd && addr < LOW_LIMIT && !Reserved(m.kernelStart, m.kernelEnd, addr, length)
    ensures addr + length > MAX64
  {}

  lemma {:induction false} FreeInv(m: Mem, addr: u64, pages: u64)
    requires Inv(m)
    ensures Inv(Free(m, addr, pages).0)
  {
    var (t, r) := Free(m, addr, pages);
    if r == Freed {
      var b := addr / PAGE;
      if addr < LOW_LIMIT {
        DivBounds(addr, PAGE);
        MulMono(b + pages, MAX_FRAMES, PAGE);
        Distribute(b, pages, PAGE);
        ReservedLow(m, addr, pages * PAGE);
      }
      DivAtLeast(addr, PAGE, LOW_FRAMES);
    }
  }

  lemma {:induction false} ShareableIsHigh(m: Mem, addr: u64)
    requires Inv(m) && Shareable(m, addr)
    ensures addr / PAGE >= LOW_FRAMES
  {
    if addr < LOW_LIMIT { ReservedLow(m, addr, PAGE); }
    DivAtLeast(addr, PAGE, LOW_FRAMES);
  }

  lemma {:induction false} RefInv(m: Mem, addr: u64)
    requires Inv(m)
    ensures Inv(Ref(m, addr).0)
  {}

  lemma {:induction false} UnrefInv(m: Mem, addr: u64)
    requires Inv(m)
    ensures Inv(Unref(m, addr).0)
  {
    if Shareable(m, addr) { ShareableIsHigh(m, addr); }
  }

  datatype Op =
    | OpAlloc(pages: nat, maxExclusive: u64)
    | OpFree(addr: u64, count: u64)
    | OpRef(addr: u64)
    | OpUnref(addr: u64)

  function Apply(m: Mem, op: Op): Mem
    requires Inv(m)
  {
    match op
    case OpAlloc(pages, max) => Alloc(m, pages, max).0
    case OpFree(addr, count) => Free(m, addr, count).0
    case OpRef(addr) => Ref(m, addr).0
    case OpUnref(addr) => Unref(m, addr).0
  }

  lemma {:induction false} ApplyInv(m: Mem, op: Op)
    requires Inv(m)
    ensures Inv(Apply(m, op)) && |Apply(m, op).used| == |m.used|
  {
    match op
    case OpAlloc(pages, max) => AllocInv(m, pages, max);
    case OpFree(addr, count) => FreeInv(m, addr, count);
    case OpRef(addr) => RefInv(m, addr);
    case OpUnref(addr) => UnrefInv(m, addr);
  }

  function Run(m: Mem, ops: seq<Op>): (r: Mem)
    requires Inv(m)
    ensures Inv(r) && |r.used| == |m.used|
    decreases |ops|
  {
    if ops == [] then m
    else
      var t := Run(m, ops[..|ops| - 1]);
      ApplyInv(t, ops[|ops| - 1]);
      Apply(t, ops[|ops| - 1])
  }

  // ----- References are accounted for exactly ------------------------------

  /** References to frame `f` that the operation hands out, less those it takes
      back. */
  function Effect(m: Mem, op: Op, f: nat): int
    requires Inv(m)
  {
    match op
    case OpAlloc(pages, max) =>
      var addr := Alloc(m, pages, max).1;
      if addr != 0 && addr / PAGE <= f < addr / PAGE + pages then 1 else 0
    case OpFree(addr, count) =>
      if Free(m, addr, count).1 == Freed && addr / PAGE <= f < addr / PAGE + count then -1 else 0
    case OpRef(addr) => if Ref(m, addr).1 && f == addr / PAGE then 1 else 0
    case OpUnref(addr) => if Unref(m, addr).1 && f == addr / PAGE then -1 else 0
  }

  /** References to `f` handed out and not taken back during a run. */
  function Balance(m: Mem, ops: seq<Op>, f: nat): int
    requires Inv(m)
    decreases |ops|
  {
    if ops == [] then 0
    else Balance(m, ops[..|ops| - 1], f) + Effect(Run(m, ops[..|ops| - 1]), ops[|ops| - 1], f)
  }

  lemma {:induction false} AllocPlace(m: Mem, pages: nat, max: u64)
    requires Inv(m)
    ensures var r := if pages == 0 || max < PAGE then None else Search(m.used, pages, Limit(m, max), 0);
            && (r.None? <==> Alloc(m, pages, max).1 == 0)
            && (r.Some? ==> Alloc(m, pages, max).1 / PAGE == r.value && FreeRun(m.used, r.value, pages))
  {
    var r := if pages == 0 || max < PAGE then None else Search(m.used, pages, Limit(m, max), 0);
    if r.Some? {
      FreeRunIsHigh(m, r.value, pages);
      DivUnique(r.value * PAGE, PAGE, r.value, 0);
    }
  }

  lemma {:induction false} ApplyEffect(m: Mem, op: Op, f: nat)
    requires Inv(m) && f < |m.refs|
    ensures |Apply(m, op).refs| == |m.refs|
    ensures Apply(m, op).refs[f] == m.refs[f] + Effect(m, op, f)
  {
    match op
    case OpAlloc(pages, max) => AllocPlace(m, pages, max);
    case OpFree(addr, count) =>
    case OpRef(addr) =>
    case OpUnref(addr) =>
  }

  /** Over every run each frame's count is its starting count plus the
      references still out. */
  lemma {:induction false} RefsAreBalanced(m: Mem, ops: seq<Op>, f: nat)
    requires Inv(m) && f < |m.refs|
    ensures |Run(m, ops).refs| == |m.refs|
    ensures Run(m, ops).refs[f] == m.refs[f] + Balance(m, ops, f)
    decreases |ops|
  {
    if ops != [] {
      RefsAreBalanced(m, ops[..|ops| - 1], f);
      ApplyEffect(Run(m, ops[..|ops| - 1]), ops[|ops| - 1], f);
    }
  }

  /** After any run, a fresh block shares no frame with anything still
      referenced: live blocks never overlap. Nor does it touch the low two
      megabytes, so its address is never 0. */
  lemma {:induction false} FreshBlockIsUnreferenced(m: Mem, ops: seq<Op>, pages: nat, max: u64, f: nat)
    requires Inv(m) && pages > 0
    requires var addr := Alloc(Run(m, ops), pages, max).1; addr != 0 && addr / PAGE <= f < addr / PAGE + pages
    ensures LOW_FRAMES <= f < |m.refs|
    ensures m.refs[f] + Balance(m, ops, f) == 0
  {
    var t := Run(m, ops);
    AllocPlace(t, pages, max);
    var b := Alloc(t, pages, max).1 / PAGE;
    FreeRunIsHigh(t, b, pages);
    RefsAreBalanced(m, ops, f);
    assert !t.used[f];
  }

  function Sum(s: seq<nat>): nat {
    if s == [] then 0 else Sum(s[..|s| - 1]) + s[|s| - 1]
  }

  lemma {:induction false} SumUpdate(s: seq<nat>, i: nat, v: nat)
    requires i < |s|
    ensures Sum(s[i := v]) == Sum(s) - s[i] + v
  {
    if i == |s| - 1 {
      assert s[i := v][..|s| - 1] == s[..|s| - 1];
    } else {
      assert s[i := v][..|s| - 1] == s[..|s| - 1][i := v];
      SumUpdate(s[..|s| - 1], i, v);
    }
  }

  lemma {:induction false} SumSetRefs(s: seq<nat>, b: nat, n: nat, v: nat, w: nat)
    requires b + n <= |s| && forall f :: b <= f < b + n ==> s[f] == w
    ensures Sum(SetRefs(s, b, n, v)) == Sum(s) + n * v - n * w
    decreases n
  {
    if n == 0 {
      assert SetRefs(s, b, n, v) == s;
    } else {
      SumSetRefs(s, b, n - 1, v, w);
      var t := SetRefs(s, b, n - 1, v);
      SetOneMore(s, b, n, v);
      SumUpdate(t, b + n - 1, v);
      Distribute(n - 1, 1, v);
      Distribute(n - 1, 1, w);
    }
  }

  lemma {:induction false} SetOneMore(s: seq<nat>, b: nat, n: nat, v: nat)
    requires b + n <= |s| && 0 < n
    ensures var t := SetRefs(s, b, n - 1, v);
            |t| == |s| && t[b + n - 1] == s[b + n - 1] && SetRefs(s, b, n, v) == t[b + n - 1 := v]
  {}

  /** The total changes by exactly the references an operation hands out or
      takes back. */
  lemma {:induction false} TotalIsExact(m: Mem, op: Op)
    requires Inv(m)
    ensures Sum(Apply(m, op).refs) - Sum(m.refs)
            == match op
               case OpAlloc(pages, max) => (if Alloc(m, pages, max).1 != 0 then pages else 0)
               case OpFree(addr, count) => (if Free(m, addr, count).1 == Freed then -(count as int) else 0)
               case OpRef(addr) => (if Ref(m, addr).1 then 1 else 0)
               case OpUnref(addr) => (if Unref(m, addr).1 then -1 else 0)
  {
    match op
    case OpAlloc(pages, max) => AllocTotal(m, pages, max);
    case OpFree(addr, count) => FreeTotal(m, addr, count);
    case OpRef(addr) => RefTotal(m, addr);
    case OpUnref(addr) => UnrefTotal(m, addr);
  }

  lemma {:induction false} AllocTotal(m: Mem, pages: nat, max: u64)
    requires Inv(m)
    ensures var (t, addr) := Alloc(m, pages, max); Sum(t.refs) - Sum(m.refs) == if addr != 0 then pages else 0
  {
    AllocPlace(m, pages, max);
    var addr := Alloc(m, pages, max).1;
    if addr != 0 { FreshTotal(m, addr / PAGE, pages); }
  }

  lemma {:induction false} FreshTotal(m: Mem, b: nat, pages: nat)
    requires Inv(m) && FreeRun(m.used, b, pages)
    ensures Sum(SetRefs(m.refs, b, pages, 1)) == Sum(m.refs) + pages
  {
    forall f | b <= f < b + pages ensures m.refs[f] == 0 { assert !m.used[f]; }
    SumSetRefs(m.refs, b, pages, 1, 0);
  }

  lemma {:induction false} FreeTotal(m: Mem, addr: u64, count: u64)
    requires Inv(m)
    ensures var (t, r) := Free(m, addr, count); Sum(t.refs) - Sum(m.refs) == if r == Freed then -(count as int) else 0
  {
    if Free(m, addr, count).1 == Freed { SumSetRefs(m.refs, addr / PAGE, count, 0, 1); }
  }

  lemma {:induction false} RefTotal(m: Mem, addr: u64)
    requires Inv(m)
    ensures Sum(Ref(m, addr).0.refs) - Sum(m.refs) == if Ref(m, addr).1 then 1 else 0
  {
    if Ref(m, addr).1 { SumUpdate(m.refs, addr / PAGE, m.refs[addr / PAGE] + 1); }
  }

  lemma {:induction false} UnrefTotal(m: Mem, addr: u64)
    requires Inv(m)
    ensures Sum(Unref(m, addr).0.refs) - Sum(m.refs) == if Unref(m, addr).1 then -1 else 0
  {
    if Unref(m, addr).1 { SumUpdate(m.refs, addr / PAGE, m.refs[addr / PAGE] - 1); }
  }

  lemma {:induction false} AllocFits(m: Mem, pages: nat, max: u64)
    requires Inv(m) && Alloc(m, pages, max).1 != 0
    ensures var addr := Alloc(m, pages, max).1;
            0 < pages && addr <= MAX64 && 0 <= pages * PAGE <= MAX64 && addr + pages * PAGE <= MAX64
  {
    AllocIsFirstFit(m, pages, max);
  }

  // ----- Reserved frames stay in use ---------------------------------------

  /** Frame `f` holds a byte of the range. */
  predicate Touches(base: u64, length: u64, f: nat) {
    base < (f + 1) * PAGE && f * PAGE < base + length
  }

  predicate ReservedFrame(kernelStart: u64, kernelEnd: u64, f: nat)
    requires kernelStart <= kernelEnd && f < MAX_FRAMES
  {
    Reserved(kernelStart, kernelEnd, f * PAGE, PAGE)
  }

  /** Every frame that a reserved range touches is in use. */
  predicate Sealed(m: Mem)
    requires |m.used| <= MAX_FRAMES && m.kernelStart <= m.kernelEnd
  {
    forall f :: 0 <= f < |m.used| && ReservedFrame(m.kernelStart, m.kernelEnd, f) ==> m.used[f]
  }

  lemma {:induction false} BlockFits(b: nat, n: nat)
    requires 0 < n && b + n <= MAX_FRAMES
    ensures 0 <= b * PAGE <= MAX64 && 0 < n * PAGE <= MAX64
    ensures RangeEnd(b * PAGE, n * PAGE) == Some(b * PAGE + n * PAGE)
  {
    MulMono(b + n, MAX_FRAMES, PAGE);
    Distribute(b, n, PAGE);
  }

  /** A range meets a block of frames exactly when it meets one of them. */
  lemma {:induction false} OverlapIsOfAFrame(b: nat, n: nat, base: u64, length: u64) returns (f: nat)
    requires 0 < n && b + n <= MAX_FRAMES
    ensures b <= f < b + n
    ensures 0 <= n * PAGE <= MAX64 && 0 <= b * PAGE <= MAX64
    ensures Overlap(b * PAGE, n * PAGE, base, length) ==> Overlap(f * PAGE, PAGE, base, length)
  {
    BlockFits(b, n);
    var e := b * PAGE + n * PAGE;
    if !Overlap(b * PAGE, n * PAGE, base, length) || base <= b * PAGE {
      f := b;
    } else {
      f := base / PAGE;
      DivBounds(base, PAGE);
      DivAtLeast(base, PAGE, b);
      Distribute(b, n, PAGE);
      DivLess(base, PAGE, b + n);
    }
    BlockFits(f, 1);
  }

  lemma {:induction false} FrameIsOfABlock(b: nat, n: nat, base: u64, length: u64, f: nat)
    requires 0 < n && b + n <= MAX_FRAMES && b <= f < b + n
    ensures 0 <= n * PAGE <= MAX64 && 0 <= b * PAGE <= MAX64
    ensures Overlap(f * PAGE, PAGE, base, length) ==> Overlap(b * PAGE, n * PAGE, base, length)
  {
    BlockFits(b, n);
    MulMono(b, f, PAGE);
    MulMono(f + 1, b + n, PAGE);
    Distribute(b, n, PAGE);
  }

  lemma {:induction false} ReservedBlockHasFrame(kernelStart: u64, kernelEnd: u64, b: nat, n: nat) returns (f: nat)
    requires kernelStart <= kernelEnd && 0 < n && b + n <= MAX_FRAMES
    ensures b <= f < b + n && 0 <= n * PAGE <= MAX64 && 0 <= b * PAGE <= MAX64
    ensures Reserved(kernelStart, kernelEnd, b * PAGE, n * PAGE) ==> ReservedFrame(kernelStart, kernelEnd, f)
  {
    BlockFits(b, n);
    if Overlap(b * PAGE, n * PAGE, 0, LOW_LIMIT) {
      f := OverlapIsOfAFrame(b, n, 0, LOW_LIMIT);
    } else if Overlap(b * PAGE, n * PAGE, kernelStart, kernelEnd - kernelStart) {
      f := OverlapIsOfAFrame(b, n, kernelStart, kernelEnd - kernelStart);
    } else if Overlap(b * PAGE, n * PAGE, BITMAP_BASE, BITMAP_BYTES) {
      f := OverlapIsOfAFrame(b, n, BITMAP_BASE, BITMAP_BYTES);
    } else {
      f := OverlapIsOfAFrame(b, n, REFCOUNT_BASE, REFCOUNT_BYTES);
    }
  }

  lemma {:induction false} ReservedFrameReservesBlock(kernelStart: u64, kernelEnd: u64, b: nat, n: nat, f: nat)
    requires kernelStart <= kernelEnd && 0 < n && b + n <= MAX_FRAMES
    requires b <= f < b + n
    ensures 0 <= n * PAGE <= MAX64 && 0 <= b * PAGE <= MAX64
    ensures ReservedFrame(kernelStart, kernelEnd, f) ==> Reserved(kernelStart, kernelEnd, b * PAGE, n * PAGE)
  {
    FrameIsOfABlock(b, n, 0, LOW_LIMIT, f);
    FrameIsOfABlock(b, n, kernelStart, kernelEnd - kernelStart, f);
    FrameIsOfABlock(b, n, BITMAP_BASE, BITMAP_BYTES, f);
    FrameIsOfABlock(b, n, REFCOUNT_BASE, REFCOUNT_BYTES, f);
  }

  lemma {:induction false} FreeKeepsSealed(m: Mem, addr: u64, pages: u64)
    requires Inv(m) && Sealed(m)
    ensures Inv(Free(m, addr, pages).0) && Sealed(Free(m, addr, pages).0)
  {
    FreeInv(m, addr, pages);
    var (t, r) := Free(m, addr, pages);
    if r == Freed {
      var b := addr / PAGE;
      DivBounds(addr, PAGE);
      forall f | b <= f < b + pages ensures !ReservedFrame(m.kernelStart, m.kernelEnd, f) {
        ReservedFrameReservesBlock(m.kernelStart, m.kernelEnd, b, pages, f);
      }
    }
  }

  lemma {:induction false} UnrefKeepsSealed(m: Mem, addr: u64)
    requires Inv(m) && Sealed(m)
    ensures Inv(Unref(m, addr).0) && Sealed(Unref(m, addr).0)
  {
    UnrefInv(m, addr);
    if Shareable(m, addr) { DivBounds(addr, PAGE); }
  }

  lemma {:induction false} ApplySealed(m: Mem, op: Op)
    requires Inv(m) && Sealed(m)
    ensures Inv(Apply(m, op)) && Sealed(Apply(m, op))
  {
    match op
    case OpAlloc(pages, max) => AllocInv(m, pages, max);
    case OpFree(addr, count) => FreeKeepsSealed(m, addr, count);
    case OpRef(addr) => RefInv(m, addr);
    case OpUnref(addr) => UnrefKeepsSealed(m, addr);
  }

  /** Over every run no operation releases a frame that a reserved range
      touches. */
  lemma {:induction false} RunSealed(m: Mem, ops: seq<Op>)
    requires Inv(m) && Sealed(m)
    ensures Sealed(Run(m, ops))
  {
    if ops != [] {
      RunSealed(m, ops[..|ops| - 1]);
      ApplySealed(Run(m, ops[..|ops| - 1]), ops[|ops| - 1]);
    }
  }

  lemma {:induction false} AllocIsNotReserved(m: Mem, pages: nat, max: u64)
    requires Inv(m) && Sealed(m) && Alloc(m, pages, max).1 != 0
    ensures var addr := Alloc(m, pages, max).1;
            0 < pages && addr <= MAX64 && 0 <= pages * PAGE <= MAX64 && !Reserved(m.kernelStart, m.kernelEnd, addr, pages * PAGE)
  {
    AllocFits(m, pages, max);
    AllocPlace(m, pages, max);
    var addr := Alloc(m, pages, max).1;
    var b := addr / PAGE;
    var f := ReservedBlockHasFrame(m.kernelStart, m.kernelEnd, b, pages);
    assert !m.used[f];
  }

  /** Freeing a block just allocated is ignored if the block meets a reserved
      range, and restores the allocator exactly if it does not. */
  lemma {:induction false} FreeAfterAlloc(m: Mem, pages: nat, max: u64)
    requires Inv(m) && Alloc(m, pages, max).1 != 0
    ensures 0 < pages && Alloc(m, pages, max).1 <= MAX64 && 0 <= pages * PAGE <= MAX64
    ensures var (t, addr) := Alloc(m, pages, max);
            Free(t, addr, pages) == if Reserved(m.kernelStart, m.kernelEnd, addr, pages * PAGE) then (t, Ignored) else (m, Freed)
  {
    var (t, addr) := Alloc(m, pages, max);
    AllocFits(m, pages, max);
    AllocPlace(m, pages, max);
    AllocInv(m, pages, max);
    AllocIsFirstFit(m, pages, max);
    if !Reserved(m.kernelStart, m.kernelEnd, addr, pages * PAGE) {
      var (u, r) := Free(t, addr, pages);
      assert u.used == m.used;
      assert u.refs == m.refs;
    }
  }

  /** After any run from a state whose reserved frames are in use, freeing a block
      just allocated restores the allocator exactly. */
  lemma {:induction false} FreeUndoesAlloc(m: Mem, ops: seq<Op>, pages: nat, max: u64)
    requires Inv(m) && Sealed(m) && Alloc(Run(m, ops), pages, max).1 != 0
    ensures 0 < pages <= MAX64 && Alloc(Run(m, ops), pages, max).1 <= MAX64
    ensures var (t, addr) := Alloc(Run(m, ops), pages, max);
            Inv(t) && Free(t, addr, pages) == (Run(m, ops), Freed)
  {
    RunSealed(m, ops);
    AllocIsNotReserved(Run(m, ops), pages, max);
    FreeAfterAlloc(Run(m, ops), pages, max);
    AllocInv(Run(m, ops), pages, max);
  }

  // ----- The state after memory_init ---------------------------------------

  datatype Module = Module(base: u64, size: u64)

  /** The boot information: whether its header passed validation, the memory map
      and the boot modules. */
  datatype BootInfo = BootInfo(headerOk: bool, e820: seq<Entry>, modules: seq<Module>, modulesAddr: u64)

  /** The part of bootinfo_validate that concerns ranges. */
  predicate ValidInfo(info: BootInfo) {
    && info.headerOk
    && |info.e820| <= MAX_ENTRIES
    && (forall i :: 0 <= i < |info.e820| ==> info.e820[i].length == 0 || Fits(info.e820[i]))
    && (forall i :: 0 <= i < |info.modules| ==> RangeOk(info.modules[i].base, info.modules[i].size))
  }

  /** range_ok: empty, or inside the early identity map and not at address 0. */
  predicate RangeOk(base: u64, size: u64) {
    size == 0 || (RangeEnd(base, size).Some? && base != 0 && base + size <= IDENTITY_LIMIT)
  }

  /** The highest end of a non-empty range. */
  function MaxEnd(s: seq<Entry>): (r: int)
    ensures r >= 0
  {
    if s == [] then 0
    else
      var rest, e := MaxEnd(s[..|s| - 1]), s[|s| - 1];
      if e.length != 0 && Capped(End(e)) > rest then Capped(End(e)) else rest
  }

  function Capped(x: nat): u64 { if x > MAX64 then MAX64 else x }

  function Memory(info: BootInfo): (r: u64)
    ensures MIN_MEMORY <= r
  {
    var top := if ValidInfo(info) then MaxEnd(info.e820) else 0;
    Capped(if top < MIN_MEMORY then MIN_MEMORY else top)
  }

  function FrameCount(info: BootInfo): (r: nat)
    ensures LOW_FRAMES <= r <= MAX_FRAMES
  {
    DivAtLeast(Memory(info), PAGE, 8192);
    if Memory(info) / PAGE > MAX_FRAMES then MAX_FRAMES else Memory(info) / PAGE
  }

  /** The whole of frame `f` lies in the range. */
  predicate WholeFrame(base: u64, length: u64, f: nat) {
    RangeEnd(base, length).Some? && base <= f * PAGE && (f + 1) * PAGE <= base + length
  }

  predicate UsableFrame(s: seq<Entry>, f: nat) {
    exists i :: 0 <= i < |s| && s[i].kind == USABLE && WholeFrame(s[i].base, s[i].length, f)
  }

  predicate ModuleFrame(ms: seq<Module>, f: nat) {
    exists i :: 0 <= i < |ms| && ms[i].base != 0 && ms[i].size != 0 && WholeFrame(ms[i].base, ms[i].size, f)
  }

  /** Frame `f` is free after memory_init: wholly inside one usable range and
      wholly inside no reserved one. */
  predicate InitiallyFree(info: BootInfo, kernelStart: u64, kernelEnd: u64, f: nat)
    requires kernelStart <= kernelEnd
  {
    && (if ValidInfo(info) then UsableFrame(info.e820, f)
        else WholeFrame(LOW_LIMIT, Memory(info) - LOW_LIMIT, f))
    && !WholeFrame(0, LOW_LIMIT, f)
    && !WholeFrame(kernelStart, kernelEnd - kernelStart, f)
    && !(ValidInfo(info) && info.modulesAddr != 0 && ModuleFrame(info.modules, f))
    && !WholeFrame(BITMAP_BASE, BITMAP_BYTES, f)
    && !WholeFrame(REFCOUNT_BASE, REFCOUNT_BYTES, f)
  }

  /** A module whose last page is only partly filled leaves that page free: the
      frame holds module bytes and can still be handed out. */
  lemma {:induction false} PartialModulePageStaysFree()
    ensures var info := BootInfo(true, [Entry(0, 0x400_0000, USABLE)], [Module(0x100_0000, 0x1001)], 1);
            && InitiallyFree(info, 0x1_0000, 0x9_f000, 0x1001)
            && 0x1001 * PAGE < 0x100_0000 + 0x1001
            && !InitiallyFree(info, 0x1_0000, 0x9_f000, 0x1000)
  {
    var info := BootInfo(true, [Entry(0, 0x400_0000, USABLE)], [Module(0x100_0000, 0x1001)], 1);
    assert info.e820[0].kind == USABLE && WholeFrame(info.e820[0].base, info.e820[0].length, 0x1001);
    assert WholeFrame(info.modules[0].base, info.modules[0].size, 0x1000);
    forall i | 0 <= i < |info.modules|
      ensures !WholeFrame(info.modules[i].base, info.modules[i].size, 0x1001)
    {}
  }

  /** The state memory_init leaves. */
  ghost function AfterInit(info: BootInfo, kernelStart: u64, kernelEnd: u64): (m: Mem)
    requires kernelStart <= kernelEnd
    ensures Inv(m)
    ensures |m.used| == FrameCount(info) && m.kernelStart == kernelStart && m.kernelEnd == kernelEnd
    ensures forall f :: 0 <= f < |m.used| ==> (m.used[f] <==> !InitiallyFree(info, kernelStart, kernelEnd, f))
    ensures forall f :: 0 <= f < |m.used| ==> m.refs[f] == if m.used[f] then 1 else 0
  {
    var n := FrameCount(info);
    LowFramesReserved(info, kernelStart, kernelEnd);
    Mem(seq(n, f requires 0 <= f < n => !InitiallyFree(info, kernelStart, kernelEnd, f)),
        seq(n, f requires 0 <= f < n => if InitiallyFree(info, kernelStart, kernelEnd, f) then 0 else 1),
        kernelStart, kernelEnd)
  }

  lemma {:induction false} LowFramesReserved(info: BootInfo, kernelStart: u64, kernelEnd: u64)
    requires kernelStart <= kernelEnd
    ensures forall f :: 0 <= f < LOW_FRAMES ==> !InitiallyFree(info, kernelStart, kernelEnd, f)
  {
    forall f | 0 <= f < LOW_FRAMES ensures WholeFrame(0, LOW_LIMIT, f) {}
  }

  /** A frame the range touches without filling it holds one of its ends. */
  lemma {:induction false} PartialFrames(base: u64, length: u64, f: nat)
    requires RangeEnd(base, length).Some? && Touches(base, length, f)
    ensures || WholeFrame(base, length, f)
            || (base % PAGE != 0 && f == base / PAGE)
            || ((base + length) % PAGE != 0 && f == (base + length) / PAGE)
  {
    assert (f + 1) * PAGE == f * PAGE + PAGE;
    if base > f * PAGE {
      DivUnique(base, PAGE, f, base - f * PAGE);
    } else if (f + 1) * PAGE > base + length {
      DivUnique(base + length, PAGE, f, base + length - f * PAGE);
    }
  }

  lemma {:induction false} EndsAreTouched(base: u64, length: u64)
    requires RangeEnd(base, length).Some?
    ensures 0 <= base / PAGE && Touches(base, length, base / PAGE)
    ensures 0 <= (base + length) / PAGE && ((base + length) % PAGE != 0 ==> Touches(base, length, (base + length) / PAGE))
  {
    DivBounds(base, PAGE);
    DivBounds(base + length, PAGE);
    DivAtLeast(base, PAGE, 0);
    DivAtLeast(base + length, PAGE, 0);
  }

  /** After memory_init the frame of byte `a` is in use or not tracked. */
  predicate Withheld(info: BootInfo, kernelStart: u64, kernelEnd: u64, a: nat)
    requires kernelStart <= kernelEnd
  {
    a / PAGE >= FrameCount(info) || !InitiallyFree(info, kernelStart, kernelEnd, a / PAGE)
  }

  /** The ends of the range are page aligned, or lie in frames that are withheld. */
  predicate EndsKept(info: BootInfo, kernelStart: u64, kernelEnd: u64, base: u64, length: u64)
    requires kernelStart <= kernelEnd
  {
    && (base % PAGE == 0 || Withheld(info, kernelStart, kernelEnd, base))
    && ((base + length) % PAGE == 0 || Withheld(info, kernelStart, kernelEnd, base + length))
  }

  /** memory_init withholds every frame the range touches. */
  predicate KeptWhole(info: BootInfo, kernelStart: u64, kernelEnd: u64, base: u64, length: u64)
    requires kernelStart <= kernelEnd
  {
    forall f :: 0 <= f < FrameCount(info) && Touches(base, length, f) ==> !InitiallyFree(info, kernelStart, kernelEnd, f)
  }

  lemma {:induction false} KeptWholeIff(info: BootInfo, kernelStart: u64, kernelEnd: u64, base: u64, length: u64)
    requires kernelStart <= kernelEnd && RangeEnd(base, length).Some?
    requires forall f: nat :: WholeFrame(base, length, f) ==> !InitiallyFree(info, kernelStart, kernelEnd, f)
    ensures KeptWhole(info, kernelStart, kernelEnd, base, length) <==> EndsKept(info, kernelStart, kernelEnd, base, length)
  {
    EndsAreTouched(base, length);
    if EndsKept(info, kernelStart, kernelEnd, base, length) {
      forall f | 0 <= f < FrameCount(info) && Touches(base, length, f)
        ensures !InitiallyFree(info, kernelStart, kernelEnd, f)
      {
        PartialFrames(base, length, f);
      }
    }
  }

  /** The allocator gets no page with bytes of a boot module if and only if the
      module's first and last bytes end its pages, or those pages are withheld
      for another reason. */
  lemma {:induction false} ModuleIsKeptIff(info: BootInfo, kernelStart: u64, kernelEnd: u64, i: nat)
    requires kernelStart <= kernelEnd && ValidInfo(info) && info.modulesAddr != 0
    requires i < |info.modules| && info.modules[i].size != 0
    ensures var mod := info.modules[i];
            KeptWhole(info, kernelStart, kernelEnd, mod.base, mod.size) <==> EndsKept(info, kernelStart, kernelEnd, mod.base, mod.size)
  {
    var mod := info.modules[i];
    assert RangeOk(mod.base, mod.size);
    forall f: nat | WholeFrame(mod.base, mod.size, f) ensures !InitiallyFree(info, kernelStart, kernelEnd, f) {
      assert ModuleFrame(info.modules, f);
    }
    KeptWholeIff(info, kernelStart, kernelEnd, mod.base, mod.size);
  }

  /** The fixed ranges are page aligned, so only the kernel's can leave a frame
      that it touches to the allocator. */
  lemma {:induction false} FixedRangesAreKept(info: BootInfo, kernelStart: u64, kernelEnd: u64)
    requires kernelStart <= kernelEnd
    ensures KeptWhole(info, kernelStart, kernelEnd, 0, LOW_LIMIT)
    ensures KeptWhole(info, kernelStart, kernelEnd, BITMAP_BASE, BITMAP_BYTES)
    ensures KeptWhole(info, kernelStart, kernelEnd, REFCOUNT_BASE, REFCOUNT_BYTES)
  {
    KeptWholeIff(info, kernelStart, kernelEnd, 0, LOW_LIMIT);
    KeptWholeIff(info, kernelStart, kernelEnd, BITMAP_BASE, BITMAP_BYTES);
    KeptWholeIff(info, kernelStart, kernelEnd, REFCOUNT_BASE, REFCOUNT_BYTES);
  }

  lemma {:induction false} OverlapTouches(base: u64, length: u64, f: nat)
    requires f < MAX_FRAMES
    ensures Overlap(f * PAGE, PAGE, base, length) <==> RangeEnd(base, length).Some? && Touches(base, length, f)
  {
    BlockFits(f, 1);
    assert (f + 1) * PAGE == f * PAGE + PAGE;
  }

  lemma {:induction false} ReservedTouches(kernelStart: u64, kernelEnd: u64, f: nat)
    requires kernelStart <= kernelEnd && f < MAX_FRAMES
    ensures ReservedFrame(kernelStart, kernelEnd, f)
            <==> || Touches(0, LOW_LIMIT, f) || (kernelStart < kernelEnd && Touches(kernelStart, kernelEnd - kernelStart, f))
                 || Touches(BITMAP_BASE, BITMAP_BYTES, f) || Touches(REFCOUNT_BASE, REFCOUNT_BYTES, f)
  {
    OverlapTouches(0, LOW_LIMIT, f);
    OverlapTouches(kernelStart, kernelEnd - kernelStart, f);
    OverlapTouches(BITMAP_BASE, BITMAP_BYTES, f);
    OverlapTouches(REFCOUNT_BASE, REFCOUNT_BYTES, f);
  }

  /** After memory_init every frame touched by a reserved range is in use if and
      only if the ends of the kernel image are page aligned or lie in frames that
      are withheld anyway, as all below two megabytes are. */
  lemma {:induction false} InitIsSealedIff(info: BootInfo, kernelStart: u64, kernelEnd: u64)
    requires kernelStart <= kernelEnd
    ensures Sealed(AfterInit(info, kernelStart, kernelEnd))
            <==> kernelStart == kernelEnd || EndsKept(info, kernelStart, kernelEnd, kernelStart, kernelEnd - kernelStart)
  {
    FixedRangesAreKept(info, kernelStart, kernelEnd);
    if kernelStart < kernelEnd { KeptWholeIff(info, kernelStart, kernelEnd, kernelStart, kernelEnd - kernelStart); }
    var m := AfterInit(info, kernelStart, kernelEnd);
    forall f | 0 <= f < |m.used|
      ensures ReservedFrame(kernelStart, kernelEnd, f)
              <==> || Touches(0, LOW_LIMIT, f) || (kernelStart < kernelEnd && Touches(kernelStart, kernelEnd - kernelStart, f))
                   || Touches(BITMAP_BASE, BITMAP_BYTES, f) || Touches(REFCOUNT_BASE, REFCOUNT_BYTES, f)
    {
      ReservedTouches(kernelStart, kernelEnd, f);
    }
  }

  /** Address `a` is page aligned, or no boot information can put its frame among
      the free ones. */
  predicate SafeEnd(a: u64) {
    a % PAGE == 0 || a < LOW_LIMIT || a >= MAX_FRAMES * PAGE || REFCOUNT_BASE <= a < REFCOUNT_BASE + REFCOUNT_BYTES
  }

  lemma {:induction false} SafeEndIsWithheld(info: BootInfo, kernelStart: u64, kernelEnd: u64, a: u64)
    requires kernelStart <= kernelEnd && SafeEnd(a) && a % PAGE != 0
    ensures Withheld(info, kernelStart, kernelEnd, a)
  {
    var f := a / PAGE;
    DivBounds(a, PAGE);
    DivAtLeast(a, PAGE, 0);
    if a >= MAX_FRAMES * PAGE {
      DivAtLeast(a, PAGE, MAX_FRAMES);
    } else if a < LOW_LIMIT {
      assert WholeFrame(0, LOW_LIMIT, f);
    } else {
      assert WholeFrame(REFCOUNT_BASE, REFCOUNT_BYTES, f);
    }
  }

  /** All memory the allocator can track is usable. */
  function AllUsable(): BootInfo { BootInfo(true, [Entry(0, MAX_FRAMES * PAGE, USABLE)], [], 0) }

  lemma {:induction false} UnsafeEndIsFree(kernelStart: u64, kernelEnd: u64, a: u64)
    requires kernelStart < kernelEnd && (a == kernelStart || a == kernelEnd) && !SafeEnd(a)
    ensures !Withheld(AllUsable(), kernelStart, kernelEnd, a)
  {
    var info, f := AllUsable(), a / PAGE;
    DivBounds(a, PAGE);
    DivAtLeast(a, PAGE, 0);
    DivLess(a, PAGE, MAX_FRAMES);
    AllFrames();
    assert info.e820[0].kind == USABLE && WholeFrame(info.e820[0].base, info.e820[0].length, f);
  }

  lemma {:induction false} AllFrames()
    ensures ValidInfo(AllUsable()) && FrameCount(AllUsable()) == MAX_FRAMES
  {
    var info := AllUsable();
    assert info.e820[..0] == [] && MaxEnd(info.e820[..0]) == 0;
    DivUnique(MAX_FRAMES * PAGE, PAGE, MAX_FRAMES, 0);
  }

  ghost predicate AlwaysSealed(kernelStart: u64, kernelEnd: u64)
    requires kernelStart <= kernelEnd
  {
    forall info :: Sealed(AfterInit(info, kernelStart, kernelEnd))
  }

  /** That is so for every boot information if and only if the kernel image is
      page aligned wherever it ends above two megabytes and outside the reference
      counts. */
  lemma {:induction false} AlwaysSealedIff(kernelStart: u64, kernelEnd: u64)
    requires kernelStart <= kernelEnd
    ensures AlwaysSealed(kernelStart, kernelEnd)
            <==> kernelStart == kernelEnd || (SafeEnd(kernelStart) && SafeEnd(kernelEnd))
  {
    if kernelStart == kernelEnd || (SafeEnd(kernelStart) && SafeEnd(kernelEnd)) {
      forall info ensures Sealed(AfterInit(info, kernelStart, kernelEnd)) {
        InitIsSealedIff(info, kernelStart, kernelEnd);
        if kernelStart % PAGE != 0 && kernelStart < kernelEnd { SafeEndIsWithheld(info, kernelStart, kernelEnd, kernelStart); }
        if kernelEnd % PAGE != 0 && kernelStart < kernelEnd { SafeEndIsWithheld(info, kernelStart, kernelEnd, kernelEnd); }
      }
    } else {
      var a := if SafeEnd(kernelStart) then kernelEnd else kernelStart;
      UnsafeEndIsFree(kernelStart, kernelEnd, a);
      InitIsSealedIff(AllUsable(), kernelStart, kernelEnd);
    }
  }

  /** From boot on, with the kernel image as the linker script lays it out, and
      over every run: freeing a block just allocated restores the allocator
      exactly. */
  lemma {:induction false} FreeUndoesAllocFromBoot(info: BootInfo, kernelStart: u64, kernelEnd: u64, ops: seq<Op>, pages: nat, max: u64)
    requires kernelStart <= kernelEnd && kernelStart % PAGE == 0 && kernelEnd % PAGE == 0
    requires Alloc(Run(AfterInit(info, kernelStart, kernelEnd), ops), pages, max).1 != 0
    ensures 0 < pages <= MAX64 && Alloc(Run(AfterInit(info, kernelStart, kernelEnd), ops), pages, max).1 <= MAX64
    ensures var m := Run(AfterInit(info, kernelStart, kernelEnd), ops);
            var (t, addr) := Alloc(m, pages, max);
            Inv(t) && Free(t, addr, pages) == (m, Freed)
  {
    AlwaysSealedIff(kernelStart, kernelEnd);
    FreeUndoesAlloc(AfterInit(info, kernelStart, kernelEnd), ops, pages, max);
  }

  /** A kernel image that begins in the middle of a page above two megabytes: that
      page is the first one handed out, and freeing it is ignored. */
  lemma {:induction false} UnalignedKernelLosesItsPage()
    ensures var m := AfterInit(AllUsable(), 0x20_0800, 0x20_1000);
            var (t, addr) := Alloc(m, 1, MAX64);
            !Sealed(m) && addr == 0x20_0000 && Inv(t) && Free(t, addr, 1) == (t, Ignored)
  {
    var m := UnalignedStart();
    FirstFreeIsLow(m);
    AllocInv(m, 1, MAX64);
    assert Overlap(0x20_0000, PAGE, 0x20_0800, 0x800);
  }

  lemma {:induction false} UnalignedStart() returns (m: Mem)
    ensures m == AfterInit(AllUsable(), 0x20_0800, 0x20_1000) && Inv(m) && !Sealed(m)
    ensures |m.used| == MAX_FRAMES && !m.used[LOW_FRAMES] && m.kernelStart == 0x20_0800 && m.kernelEnd == 0x20_1000
  {
    m := AfterInit(AllUsable(), 0x20_0800, 0x20_1000);
    AllFrames();
    UnsafeEndIsFree(0x20_0800, 0x20_1000, 0x20_0800);
    InitIsSealedIff(AllUsable(), 0x20_0800, 0x20_1000);
  }

  lemma {:induction false} FirstFreeIsLow(m: Mem)
    requires Inv(m) && LOW_FRAMES < |m.used| && !m.used[LOW_FRAMES]
    ensures Alloc(m, 1, MAX64).1 == LOW_FRAMES * PAGE
  {
    DivAtLeast(MAX64, PAGE, MAX_FRAMES);
    var r := Search(m.used, 1, Limit(m, MAX64), 0);
    assert FreeRun(m.used, LOW_FRAMES, 1);
    if r.Some? { FreeRunIsHigh(m, r.value, 1); }
  }

  lemma {:induction false} AlignedTouch(b: nat, n: nat, f: nat)
    requires b * PAGE < (f + 1) * PAGE && f * PAGE < b * PAGE + n * PAGE
    ensures b * PAGE <= f * PAGE && (f + 1) * PAGE <= b * PAGE + n * PAGE
  {
    MulCancel(b, f + 1, PAGE);
    Distribute(b, n, PAGE);
    MulCancel(f, b + n, PAGE);
    MulMono(b, f, PAGE);
    MulMono(f + 1, b + n, PAGE);
  }

  // ----- The coalesced map frees the same frames ---------------------------

  predicate Aligned(e: Entry) {
    e.base % PAGE == 0 && e.length % PAGE == 0
  }

  predicate AllAligned(s: seq<Entry>) {
    forall i :: 0 <= i < |s| ==> Aligned(s[i])
  }

  lemma {:induction false} InsertAligned(s: seq<Entry>, e: Entry)
    requires AllAligned(s) && Aligned(e)
    ensures AllAligned(Insert(s, e))
  {
    if s != [] && s[|s| - 1].base > e.base { InsertAligned(s[..|s| - 1], e); }
  }

  lemma {:induction false} SortAligned(s: seq<Entry>)
    requires AllAligned(s)
    ensures AllAligned(Sort(s))
  {
    if s != [] {
      SortAligned(s[..|s| - 1]);
      InsertAligned(Sort(s[..|s| - 1]), s[|s| - 1]);
    }
  }

  lemma {:induction false} SumAligned(a: int, b: int)
    requires a % PAGE == 0 && b % PAGE == 0
    ensures (a + b) % PAGE == 0 && (a - b) % PAGE == 0
  {
    DivBounds(a, PAGE);
    DivBounds(b, PAGE);
    DivUnique(a + b, PAGE, a / PAGE + b / PAGE, 0);
    DivUnique(a - b, PAGE, a / PAGE - b / PAGE, 0);
  }

  lemma {:induction false} JoinAligned(acc: seq<Entry>, e: Entry)
    requires AllAligned(acc) && Aligned(e)
    ensures AllAligned(Join(acc, e))
  {
    if Fits(e) && acc != [] {
      var p := acc[|acc| - 1];
      SumAligned(e.base, e.length);
      SumAligned(e.base + e.length, p.base);
    }
  }

  lemma {:induction false} CoalesceAligned(s: seq<Entry>)
    requires AllAligned(s)
    ensures AllAligned(Coalesce(s))
  {
    if s != [] {
      CoalesceAligned(s[..|s| - 1]);
      JoinAligned(Coalesce(s[..|s| - 1]), s[|s| - 1]);
    }
  }

  lemma {:induction false} AppendAligned(s: seq<Entry>, e: Entry)
    requires AllAligned(s) && Aligned(e) && Append(s, e).Some?
    ensures AllAligned(Append(s, e).value)
  {
    if s != [] { SumAligned(s[|s| - 1].length, e.length); }
  }

  lemma {:induction false} AppendAllAligned(ds: seq<Descriptor>)
    requires AppendAll(ds).Some? && forall i :: 0 <= i < |ds| ==> ds[i].start % PAGE == 0
    ensures AllAligned(AppendAll(ds).value)
  {
    if ds != [] {
      AppendAllAligned(ds[..|ds| - 1]);
      AppendAligned(AppendAll(ds[..|ds| - 1]).value, RangeOf(ds[|ds| - 1]));
    }
  }

  lemma {:induction false} MemoryMapAligned(ds: seq<Descriptor>)
    requires MemoryMap(ds).Some? && forall i :: 0 <= i < |ds| ==> ds[i].start % PAGE == 0
    ensures AllAligned(MemoryMap(ds).value)
  {
    AppendAllAligned(ds);
    var raw := AppendAll(ds).value;
    if |raw| >= 2 {
      SortAligned(raw);
      CoalesceAligned(Sort(raw));
    }
  }

  /** In an aligned range that covers the first byte of a frame the whole frame
      lies. */
  lemma {:induction false} FirstByteDecides(e: Entry, f: nat)
    requires Fits(e) && Aligned(e)
    ensures e.base <= f * PAGE < End(e) <==> WholeFrame(e.base, e.length, f)
  {
    DivBounds(e.base, PAGE);
    DivBounds(e.length, PAGE);
    if e.base <= f * PAGE < End(e) {
      MulMono(f, f + 1, PAGE);
      AlignedTouch(e.base / PAGE, e.length / PAGE, f);
    }
    assert (f + 1) * PAGE == f * PAGE + PAGE;
  }

  lemma {:induction false} UsableIsCovered(s: seq<Entry>, f: nat)
    requires AllFit(s) && AllAligned(s)
    ensures UsableFrame(s, f) <==> Covers(s, f * PAGE, USABLE)
  {
    if UsableFrame(s, f) {
      var i :| 0 <= i < |s| && s[i].kind == USABLE && WholeFrame(s[i].base, s[i].length, f);
      FirstByteDecides(s[i], f);
      assert Contains(s[i], f * PAGE, USABLE);
    }
    if Covers(s, f * PAGE, USABLE) {
      var i :| 0 <= i < |s| && Contains(s[i], f * PAGE, USABLE);
      FirstByteDecides(s[i], f);
    }
  }

  /** The ranges of the descriptors the loader keeps, as they come. */
  function Kept(ds: seq<Descriptor>): seq<Entry> {
    if ds == [] then []
    else Kept(ds[..|ds| - 1]) + if Fits(RangeOf(ds[|ds| - 1])) then [RangeOf(ds[|ds| - 1])] else []
  }

  predicate PageAligned(ds: seq<Descriptor>) {
    forall i :: 0 <= i < |ds| ==> ds[i].start % PAGE == 0
  }

  lemma {:induction false} KeptCovers(ds: seq<Descriptor>, a: int, kind: nat)
    ensures AllFit(Kept(ds)) && (PageAligned(ds) ==> AllAligned(Kept(ds)))
    ensures Covers(Kept(ds), a, kind) <==> Described(ds, a, kind)
  {
    if ds != [] {
      KeptCovers(ds[..|ds| - 1], a, kind);
      DescribedInit(ds, a, kind);
      CoversSnoc(Kept(ds[..|ds| - 1]), RangeOf(ds[|ds| - 1]), a, kind);
    }
  }

  lemma {:induction false} MaxEndBounds(s: seq<Entry>, i: nat)
    requires AllFit(s) && i < |s|
    ensures End(s[i]) <= MaxEnd(s)
  {
    if i < |s| - 1 { MaxEndBounds(s[..|s| - 1], i); }
  }

  lemma {:induction false} MaxEndReached(s: seq<Entry>) returns (i: nat)
    requires AllFit(s) && s != []
    ensures i < |s| && End(s[i]) == MaxEnd(s)
  {
    var e := s[|s| - 1];
    assert Fits(e);
    if |s| > 1 {
      i := MaxEndReached(s[..|s| - 1]);
      if End(e) > MaxEnd(s[..|s| - 1]) { i := |s| - 1; }
    } else {
      assert s[..0] == [];
      i := 0;
    }
  }

  /** What `s` covers, `t` covers. */
  ghost predicate CoveredBy(s: seq<Entry>, t: seq<Entry>) {
    forall a, kind :: Covers(s, a, kind) ==> Covers(t, a, kind)
  }

  lemma {:induction false} CoverBoundsTop(s: seq<Entry>, t: seq<Entry>)
    requires AllFit(s) && AllFit(t) && CoveredBy(s, t)
    ensures MaxEnd(s) <= MaxEnd(t)
  {
    if s == [] {
      assert MaxEnd(s) == 0;
    } else {
      var i := MaxEndReached(s);
      var a := End(s[i]) - 1;
      assert Fits(s[i]) && Contains(s[i], a, s[i].kind);
      assert Covers(s, a, s[i].kind) && Covers(t, a, s[i].kind);
      var j :| 0 <= j < |t| && Contains(t[j], a, s[i].kind);
      MaxEndBounds(t, j);
    }
  }

  /** For page-aligned descriptors, starting from the coalesced map tracks as
      many frames as starting from the descriptors as they come, and leaves
      exactly the same ones free. */
  lemma {:induction false} CoalescingKeepsFreeFrames(ds: seq<Descriptor>, info: BootInfo, kernelStart: u64, kernelEnd: u64, f: nat)
    requires MemoryMap(ds).Some? && PageAligned(ds) && kernelStart <= kernelEnd
    requires ValidInfo(info.(e820 := MemoryMap(ds).value)) && ValidInfo(info.(e820 := Kept(ds)))
    ensures FrameCount(info.(e820 := MemoryMap(ds).value)) == FrameCount(info.(e820 := Kept(ds)))
    ensures InitiallyFree(info.(e820 := MemoryMap(ds).value), kernelStart, kernelEnd, f)
            <==> InitiallyFree(info.(e820 := Kept(ds)), kernelStart, kernelEnd, f)
  {
    var m, k := MemoryMap(ds).value, Kept(ds);
    MemoryMapAligned(ds);
    forall a, kind ensures Covers(m, a, kind) <==> Covers(k, a, kind) {
      MemoryMapKeepsMeaning(ds, a, kind);
      KeptCovers(ds, a, kind);
    }
    MemoryMapKeepsMeaning(ds, 0, 0);
    KeptCovers(ds, 0, 0);
    CoverBoundsTop(m, k);
    CoverBoundsTop(k, m);
    UsableIsCovered(m, f);
    UsableIsCovered(k, f);
  }
}
