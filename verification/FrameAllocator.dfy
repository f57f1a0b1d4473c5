/** The physical frame allocator (kernel/arch/x86_64/memory.c): a bitmap and an
    array of reference counts, kept in step in place. Each operation is proved
    to do what Frames.dfy says; the lock that serialises them is not modelled. */
module FrameAllocator {
  import opened Arith
  import opened E820
  import opened Frames
  import opened Bitmap

  const STORAGE_WORDS: nat := 16384

  datatype MemoryStats = MemoryStats(totalUsable: u64, frameCount: nat, freeFrames: nat, freeBytes: nat, usedBytes: nat)

  class Allocator {
    const frames: BitmapT
    const refs: array<nat>
    const frameCount: nat
    const kernelStart: u64
    const kernelEnd: u64
    const totalUsable: u64

    ghost predicate Shape()
      reads this, frames
    {
      && frames.Valid() && frames.bitCount == frameCount
      && frameCount <= MAX_FRAMES == refs.Length
      && LOW_FRAMES <= frameCount
      && kernelStart <= kernelEnd
    }

    /** The allocator's abstract state. */
    ghost function State(): Mem
      requires Shape()
      reads this, frames, frames.words, refs
    {
      Mem(frames.Bits(), refs[..frameCount], kernelStart, kernelEnd)
    }

    ghost predicate Valid()
      reads this, frames, frames.words, refs
    {
      Shape() && Inv(State())
    }

    /** memory_init: exactly the frames that are wholly usable and wholly in no
        reserved range start free, with no references; every other tracked
        frame starts in use with one. */
    constructor Init(info: BootInfo, kernelStart: u64, kernelEnd: u64)
      requires kernelStart <= kernelEnd
      ensures Valid() && fresh(frames) && fresh(frames.words) && fresh(refs)
      ensures this.kernelStart == kernelStart && this.kernelEnd == kernelEnd && frameCount == FrameCount(info)
      ensures State() == AfterInit(info, kernelStart, kernelEnd)
      ensures totalUsable == Capped(if ValidInfo(info) then UsableBytes(info.e820) else 0)
    {
      this.kernelStart, this.kernelEnd := kernelStart, kernelEnd;
      var total := 0;
      if ValidInfo(info) { total := SumUsable(info.e820); }
      totalUsable := total;
      frameCount := FrameCount(info);
      frames := new BitmapT(STORAGE_WORDS, FrameCount(info));
      refs := new nat[MAX_FRAMES](_ => 0);
      new;
      MarkFrames(info);
      CountReferences();
      assert State().used == AfterInit(info, kernelStart, kernelEnd).used;
      assert State().refs == AfterInit(info, kernelStart, kernelEnd).refs;
    }

    /** The marks of memory_init, in its order. */
    method MarkFrames(info: BootInfo)
      requires Shape() && frameCount == FrameCount(info)
      modifies frames.words
      ensures forall f :: 0 <= f < frameCount ==> (frames.Bits()[f] <==> !InitiallyFree(info, kernelStart, kernelEnd, f))
    {
      frames.Fill();
      ghost var full := frames.Bits();
      if ValidInfo(info) {
        MarkUsable(info.e820);
      } else {
        MarkRange(LOW_LIMIT, Memory(info) - LOW_LIMIT, true);
      }
      MarkRange(0, LOW_LIMIT, false);
      MarkRange(kernelStart, kernelEnd - kernelStart, false);
      if ValidInfo(info) && |info.modules| != 0 && info.modulesAddr != 0 { MarkModules(info.modules); }
      MarkRange(BITMAP_BASE, BITMAP_BYTES, false);
      MarkRange(REFCOUNT_BASE, REFCOUNT_BYTES, false);
      forall f | 0 <= f < frameCount ensures frames.Bits()[f] <==> !InitiallyFree(info, kernelStart, kernelEnd, f) {
        assert full[f];
      }
    }

    /** mark_range. */
    method MarkRange(base: u64, length: u64, free: bool)
      requires Shape()
      modifies frames.words
      ensures forall f :: 0 <= f < frameCount ==>
                frames.Bits()[f] == if WholeFrame(base, length, f) then !free else old(frames.Bits())[f]
    {
      ghost var before := frames.Bits();
      var endAddr := RangeEnd(base, length);
      if endAddr.None? { return; }
      if base + (PAGE - 1) > MAX64 {
        NoFrameNearTop(base, length);
        return;
      }
      var start := (base + (PAGE - 1)) / PAGE;
      var end := endAddr.value / PAGE;
      forall f: nat ensures WholeFrame(base, length, f) <==> start <= f < end { FrameBounds(base, length, f); }
      if start >= frameCount || end <= start { return; }
      if end > frameCount { end := frameCount; }
      var f := start;
      while f < end
        invariant start <= f <= end
        invariant frames.Bits() == MarkBits(before, start, f - start, !free)
      {
        if free { frames.Clear(f); } else { frames.Set(f); }
        f := f + 1;
      }
    }

    method MarkUsable(e820: seq<Entry>)
      requires Shape()
      modifies frames.words
      ensures forall f :: 0 <= f < frameCount ==>
                frames.Bits()[f] == (old(frames.Bits())[f] && !UsableFrame(e820, f))
    {
      ghost var before := frames.Bits();
      var i := 0;
      while i < |e820|
        invariant 0 <= i <= |e820|
        invariant forall f :: 0 <= f < frameCount ==> frames.Bits()[f] == (before[f] && !UsableFrame(e820[..i], f))
      {
        var e := e820[i];
        forall f: nat ensures UsableFrame(e820[..i + 1], f)
                              <==> UsableFrame(e820[..i], f) || (e.kind == USABLE && WholeFrame(e.base, e.length, f))
        {
          UsableSnoc(e820, i, f);
        }
        if e.kind == USABLE { MarkRange(e.base, e.length, true); }
        i := i + 1;
      }
      assert e820[..i] == e820;
    }

    method MarkModules(modules: seq<Module>)
      requires Shape()
      modifies frames.words
      ensures forall f :: 0 <= f < frameCount ==>
                frames.Bits()[f] == (old(frames.Bits())[f] || ModuleFrame(modules, f))
    {
      ghost var before := frames.Bits();
      var i := 0;
      while i < |modules|
        invariant 0 <= i <= |modules|
        invariant forall f :: 0 <= f < frameCount ==> frames.Bits()[f] == (before[f] || ModuleFrame(modules[..i], f))
      {
        var m := modules[i];
        forall f: nat ensures ModuleFrame(modules[..i + 1], f)
                              <==> ModuleFrame(modules[..i], f) || (m.base != 0 && m.size != 0 && WholeFrame(m.base, m.size, f))
        {
          ModuleSnoc(modules, i, f);
        }
        if m.base != 0 && m.size != 0 { MarkRange(m.base, m.size, false); }
        i := i + 1;
      }
      assert modules[..i] == modules;
    }

    /** The last loop of memory_init. */
    method CountReferences()
      requires Shape()
      modifies refs
      ensures forall f :: 0 <= f < frameCount ==> refs[f] == if frames.Bits()[f] then 1 else 0
    {
      var f := 0;
      while f < frameCount
        invariant 0 <= f <= frameCount
        invariant forall g :: 0 <= g < f ==> refs[g] == if frames.Bits()[g] then 1 else 0
      {
        var t := frames.Test(f);
        refs[f] := if t then 1 else 0;
        f := f + 1;
      }
    }

    /** memory_alloc_contiguous_pages_below. */
    method AllocContiguousBelow(pages: nat, maxExclusive: u64) returns (addr: nat)
      requires Valid()
      modifies frames.words, refs
      ensures Valid() && (State(), addr) == Alloc(old(State()), pages, maxExclusive)
    {
      AllocInv(State(), pages, maxExclusive);
      if pages == 0 || maxExclusive < PAGE { return 0; }
      var maxBit := maxExclusive / PAGE;
      if maxBit > frameCount { maxBit := frameCount; }
      if pages > maxBit {
        return 0;
      }
      var found := FindRun(pages, maxBit);
      if found.None? { return 0; }
      TakeRun(found.value, pages);
      addr := found.value * PAGE;
    }

    /** The search loop: after a frame in use, it continues behind it. */
    method FindRun(pages: nat, maxBit: nat) returns (r: Option<nat>)
      requires Shape() && 0 < pages <= maxBit <= frameCount
      ensures r == Search(frames.Bits(), pages, maxBit, 0)
    {
      ghost var used := frames.Bits();
      var bit := 0;
      while bit + pages <= maxBit
        invariant 0 <= bit
        invariant forall c :: 0 <= c < bit ==> !FreeRun(used, c, pages)
        decreases maxBit - bit
      {
        var free, j := ProbeRun(bit, pages);
        if free {
          SearchFinds(used, pages, maxBit, 0, bit);
          return Some(bit);
        }
        SkipIsSound(used, pages, bit, j);
        bit := bit + j + 1;
      }
      SearchMisses(used, pages, maxBit, 0);
      r := None;
    }

    method ProbeRun(bit: nat, pages: nat) returns (free: bool, j: nat)
      requires Shape() && bit + pages <= frameCount
      ensures free <==> FreeRun(frames.Bits(), bit, pages)
      ensures !free ==> j < pages && frames.Bits()[bit + j]
    {
      j := 0;
      while j < pages
        invariant 0 <= j <= pages
        invariant forall f :: bit <= f < bit + j ==> !frames.Bits()[f]
      {
        var t := frames.Test(bit + j);
        if t { return false, j; }
        j := j + 1;
      }
      free := true;
    }

    method TakeRun(bit: nat, pages: nat)
      requires Shape() && bit + pages <= frameCount
      modifies frames.words, refs
      ensures State() == old(State()).(used := MarkBits(old(State()).used, bit, pages, true),
                                       refs := SetRefs(old(State()).refs, bit, pages, 1))
    {
      ghost var used, counts := frames.Bits(), refs[..frameCount];
      var j := 0;
      while j < pages
        invariant 0 <= j <= pages
        invariant frames.Bits() == MarkBits(used, bit, j, true)
        invariant refs[..frameCount] == SetRefs(counts, bit, j, 1)
      {
        frames.Set(bit + j);
        refs[bit + j] := 1;
        j := j + 1;
      }
    }

    method DropRun(bit: nat, pages: nat)
      requires Shape() && bit + pages <= frameCount
      modifies frames.words, refs
      ensures State() == old(State()).(used := MarkBits(old(State()).used, bit, pages, false),
                                       refs := SetRefs(old(State()).refs, bit, pages, 0))
    {
      ghost var used, counts := frames.Bits(), refs[..frameCount];
      var j := 0;
      while j < pages
        invariant 0 <= j <= pages
        invariant frames.Bits() == MarkBits(used, bit, j, false)
        invariant refs[..frameCount] == SetRefs(counts, bit, j, 0)
      {
        refs[bit + j] := 0;
        frames.Clear(bit + j);
        j := j + 1;
      }
    }

    /** memory_free_contiguous_pages: all frames are checked before any is
        freed. */
    method FreeContiguous(addr: u64, pages: u64) returns (r: Outcome)
      requires Valid()
      modifies frames.words, refs
      ensures Valid() && (State(), r) == Free(old(State()), addr, pages)
    {
      FreeInv(State(), addr, pages);
      if addr == 0 || pages == 0 { return Ignored; }
      if addr % PAGE != 0 { return Ignored; }
      if pages * PAGE > MAX64 || Reserved(kernelStart, kernelEnd, addr, pages * PAGE) {
        return Ignored;
      }
      var bit := addr / PAGE;
      if bit >= frameCount || pages > frameCount - bit { return Ignored; }
      var sole := CheckRun(bit, pages);
      if !sole { return Panicked; }
      DropRun(bit, pages);
      r := Freed;
    }

    /** The checking loop: every frame is in use with a single reference. */
    method CheckRun(bit: nat, pages: nat) returns (sole: bool)
      requires Shape() && bit + pages <= frameCount
      ensures sole <==> forall f :: bit <= f < bit + pages ==> State().used[f] && State().refs[f] == 1
    {
      var i := 0;
      while i < pages
        invariant 0 <= i <= pages
        invariant forall f :: bit <= f < bit + i ==> State().used[f] && State().refs[f] == 1
      {
        var t := frames.Test(bit + i);
        assert refs[bit + i] == State().refs[bit + i];
        if !t || refs[bit + i] != 1 { return false; }
        i := i + 1;
      }
      sole := true;
    }

    /** memory_ref_page. */
    method RefPage(addr: u64) returns (ok: bool)
      requires Valid()
      modifies refs
      ensures Valid() && (State(), ok) == Ref(old(State()), addr)
    {
      RefInv(State(), addr);
      if addr == 0 { return false; }
      if addr % PAGE != 0 || Reserved(kernelStart, kernelEnd, addr, PAGE) { return false; }
      var bit := addr / PAGE;
      if bit >= frameCount { return false; }
      var t := frames.Test(bit);
      ok := t && refs[bit] > 0 && refs[bit] < MAX_REFS;
      if ok { refs[bit] := refs[bit] + 1; }
    }

    /** memory_unref_page. */
    method UnrefPage(addr: u64) returns (ok: bool)
      requires Valid()
      modifies frames.words, refs
      ensures Valid() && (State(), ok) == Unref(old(State()), addr)
    {
      UnrefInv(State(), addr);
      if addr == 0 { return false; }
      if addr % PAGE != 0 || Reserved(kernelStart, kernelEnd, addr, PAGE) { return false; }
      var bit := addr / PAGE;
      if bit >= frameCount { return false; }
      var t := frames.Test(bit);
      if !t || refs[bit] == 0 { return false; }
      refs[bit] := refs[bit] - 1;
      if refs[bit] == 0 { frames.Clear(bit); }
      ok := true;
    }

    /** memory_get_stats: free frames are the clear bits of tracked frames. */
    method GetStats() returns (s: MemoryStats)
      requires Valid()
      ensures s.frameCount == frameCount && s.totalUsable == totalUsable
      ensures s.freeFrames == CountFalse(State().used)
      ensures s.freeBytes == s.freeFrames * PAGE && s.freeBytes + s.usedBytes == frameCount * PAGE
    {
      var used := frames.CountSet();
      CountsAddUp(frames.Bits());
      s := MemoryStats(totalUsable, frameCount, frameCount - used, (frameCount - used) * PAGE, used * PAGE);
    }
  }

  /** The bytes of the usable ranges, however many. */
  function UsableBytes(s: seq<Entry>): nat {
    if s == [] then 0
    else UsableBytes(s[..|s| - 1]) + if s[|s| - 1].kind == USABLE then s[|s| - 1].length else 0
  }

  /** The saturating sum of memory_init. */
  method SumUsable(s: seq<Entry>) returns (total: u64)
    ensures total == Capped(UsableBytes(s))
  {
    total := 0;
    for i := 0 to |s|
      invariant total == Capped(UsableBytes(s[..i]))
    {
      assert s[..i + 1][..i] == s[..i];
      if s[i].length != 0 && s[i].kind == USABLE { total := Capped(total + s[i].length); }
    }
    assert s[..|s|] == s;
  }

  /** The frames mark_range visits are those wholly inside the range. */
  lemma {:induction false} FrameBounds(base: u64, length: u64, f: nat)
    requires RangeEnd(base, length).Some?
    ensures WholeFrame(base, length, f) <==> (base + (PAGE - 1)) / PAGE <= f < (base + length) / PAGE
  {
    var x, end := base + (PAGE - 1), base + length;
    DivBounds(x, PAGE);
    DivBounds(end, PAGE);
    if base <= f * PAGE {
      DivLess(x, PAGE, f + 1);
    } else {
      DivAtLeast(x, PAGE, f + 1);
    }
    if (f + 1) * PAGE <= end { DivAtLeast(end, PAGE, f + 1); } else { DivLess(end, PAGE, f + 1); }
  }

  lemma {:induction false} NoFrameNearTop(base: u64, length: u64)
    requires base + (PAGE - 1) > MAX64 && RangeEnd(base, length).Some?
    ensures forall f: nat :: f < MAX_FRAMES ==> !WholeFrame(base, length, f)
  {}

  lemma {:induction false} UsableSnoc(s: seq<Entry>, i: nat, f: nat)
    requires i < |s|
    ensures UsableFrame(s[..i + 1], f)
            <==> UsableFrame(s[..i], f) || (s[i].kind == USABLE && WholeFrame(s[i].base, s[i].length, f))
  {
    var t, u := s[..i + 1], s[..i];
    assert forall j :: 0 <= j < i ==> t[j] == u[j];
    if s[i].kind == USABLE && WholeFrame(s[i].base, s[i].length, f) { assert t[i] == s[i]; }
    if UsableFrame(u, f) {
      var j :| 0 <= j < |u| && u[j].kind == USABLE && WholeFrame(u[j].base, u[j].length, f);
      assert t[j] == u[j];
    }
  }

  lemma {:induction false} ModuleSnoc(s: seq<Module>, i: nat, f: nat)
    requires i < |s|
    ensures ModuleFrame(s[..i + 1], f)
            <==> ModuleFrame(s[..i], f) || (s[i].base != 0 && s[i].size != 0 && WholeFrame(s[i].base, s[i].size, f))
  {
    var t, u := s[..i + 1], s[..i];
    if s[i].base != 0 && s[i].size != 0 && WholeFrame(s[i].base, s[i].size, f) { assert t[i] == s[i]; }
    if ModuleFrame(u, f) {
      var j :| 0 <= j < |u| && u[j].base != 0 && u[j].size != 0 && WholeFrame(u[j].base, u[j].size, f);
      assert t[j] == u[j];
    }
  }

  function CountFalse(s: seq<bool>): nat {
    if s == [] then 0 else CountFalse(s[..|s| - 1]) + if s[|s| - 1] then 0 else 1
  }

  lemma {:induction false} CountsAddUp(s: seq<bool>)
    ensures CountTrue(s) + CountFalse(s) == |s|
  {
    if s != [] { CountsAddUp(s[..|s| - 1]); }
  }

  /** A frame in use spoils every run that contains it. */
  lemma {:induction false} SkipIsSound(used: seq<bool>, pages: nat, bit: nat, j: nat)
    requires bit + pages <= |used| && j < pages && used[bit + j]
    ensures forall c :: bit <= c <= bit + j ==> !FreeRun(used, c, pages)
  {}

  lemma {:induction false} SearchFinds(used: seq<bool>, pages: nat, max: nat, b: nat, r: nat)
    requires b <= r && r + pages <= max <= |used| && FreeRun(used, r, pages)
    requires forall c :: b <= c < r ==> !FreeRun(used, c, pages)
    ensures Search(used, pages, max, b) == Some(r)
    decreases r - b
  {
    if b < r { SearchFinds(used, pages, max, b + 1, r); }
  }

  lemma {:induction false} SearchMisses(used: seq<bool>, pages: nat, max: nat, b: nat)
    requires max <= |used| && 0 < pages
    requires forall c :: b <= c && c + pages <= max ==> !FreeRun(used, c, pages)
    ensures Search(used, pages, max, b) == None
    decreases |used| - b
  {
    if b + pages <= max { SearchMisses(used, pages, max, b + 1); }
  }
}
