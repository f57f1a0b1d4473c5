/** The memory map the boot loader hands to the kernel: UEFI descriptors
    (section 7.2 of the UEFI specification) become typed ranges that are merged,
    sorted and coalesced in place (boot/uefi/bootx64.c). */
module E820 {
  import opened Arith

  const MAX64: int := 0xffff_ffff_ffff_ffff
  const PAGE: nat := 4096
  const MAX_ENTRIES: nat := 128
  const USABLE: nat := 1

  type u64 = x: int | 0 <= x <= 0xffff_ffff_ffff_ffff

  datatype Option<+T> = None | Some(value: T)

  datatype Entry = Entry(base: u64, length: u64, kind: nat)

  datatype Descriptor = Descriptor(uefiType: nat, start: u64, pages: u64)

  /** range_end: the end of a non-empty range that fits 64 bits. */
  function RangeEnd(base: u64, length: u64): Option<u64> {
    if length == 0 || base + length > MAX64 then None else Some(base + length)
  }

  predicate Fits(e: Entry) {
    RangeEnd(e.base, e.length).Some?
  }

  predicate AllFit(s: seq<Entry>) {
    forall i :: 0 <= i < |s| ==> Fits(s[i])
  }

  function End(e: Entry): int { e.base + e.length }

  predicate Contains(e: Entry, a: int, kind: nat) {
    e.kind == kind && e.base <= a < End(e)
  }

  /** Some entry of the kind covers the address. */
  predicate Covers(s: seq<Entry>, a: int, kind: nat) {
    exists i :: 0 <= i < |s| && Contains(s[i], a, kind)
  }

  function UefiKind(t: nat): nat {
    if t == 7 || t == 3 || t == 4 then USABLE
    else if t == 9 then 3
    else 2
  }

  // ----- Covering is about the entries, not their order --------------------

  lemma {:induction false} CoversSnoc(s: seq<Entry>, e: Entry, a: int, kind: nat)
    ensures Covers(s + [e], a, kind) <==> Covers(s, a, kind) || Contains(e, a, kind)
  {
    var t := s + [e];
    if Covers(s, a, kind) {
      var i :| 0 <= i < |s| && Contains(s[i], a, kind);
      assert Contains(t[i], a, kind);
    }
    if Contains(e, a, kind) { assert Contains(t[|s|], a, kind); }
  }

  lemma {:induction false} CoversInit(s: seq<Entry>, a: int, kind: nat)
    requires s != []
    ensures Covers(s, a, kind) <==> Covers(s[..|s| - 1], a, kind) || Contains(s[|s| - 1], a, kind)
  {
    assert s == s[..|s| - 1] + [s[|s| - 1]];
    CoversSnoc(s[..|s| - 1], s[|s| - 1], a, kind);
  }

  // ----- Append or merge ---------------------------------------------------

  /** e820_append_or_merge; the result is None when the table is full. */
  function Append(s: seq<Entry>, e: Entry): Option<seq<Entry>> {
    if !Fits(e) then Some(s)
    else if s != [] && s[|s| - 1].kind == e.kind
            && RangeEnd(s[|s| - 1].base, s[|s| - 1].length) == Some(e.base)
    then
      var last := s[|s| - 1];
      Some(s[..|s| - 1] + [last.(length := last.length + e.length)])
    else if |s| >= MAX_ENTRIES then None
    else Some(s + [e])
  }

  lemma {:induction false} AppendCovers(s: seq<Entry>, e: Entry, a: int, kind: nat)
    requires AllFit(s) && Append(s, e).Some?
    ensures AllFit(Append(s, e).value)
    ensures Covers(Append(s, e).value, a, kind) <==> Covers(s, a, kind) || (Fits(e) && Contains(e, a, kind))
  {
    var t := Append(s, e).value;
    if Fits(e) {
      if |t| == |s| {
        var init, last := s[..|s| - 1], s[|s| - 1];
        CoversInit(s, a, kind);
        CoversSnoc(init, last.(length := last.length + e.length), a, kind);
      } else {
        CoversSnoc(s, e, a, kind);
      }
    }
  }

  method AppendOrMerge(e820: array<Entry>, count: nat, base: u64, length: u64, kind: nat) returns (ok: bool, n: nat)
    requires count <= MAX_ENTRIES <= e820.Length
    modifies e820
    ensures n <= MAX_ENTRIES
    ensures ok <==> Append(old(e820[..count]), Entry(base, length, kind)).Some?
    ensures ok ==> e820[..n] == Append(old(e820[..count]), Entry(base, length, kind)).value
  {
    ok, n := true, count;
    ghost var s := e820[..count];
    if length == 0 { return; }
    if RangeEnd(base, length).None? { return; }
    if count != 0 {
      var prev := e820[count - 1];
      var prevEnd := RangeEnd(prev.base, prev.length);
      if prev.kind == kind && prevEnd.Some? && prevEnd.value == base {
        e820[count - 1] := prev.(length := prev.length + length);
        assert e820[..count] == s[..count - 1] + [prev.(length := prev.length + length)];
        return;
      }
    }
    if count >= MAX_ENTRIES { return false, n; }
    e820[count] := Entry(base, length, kind);
    n := count + 1;
    assert e820[..n] == s + [Entry(base, length, kind)];
  }

  // ----- Sort --------------------------------------------------------------

  predicate Sorted(s: seq<Entry>) {
    forall i, j :: 0 <= i < j < |s| ==> s[i].base <= s[j].base
  }

  /** `e` placed after the last entry that does not start above it. */
  function Insert(s: seq<Entry>, e: Entry): (r: seq<Entry>)
    ensures |r| == |s| + 1
  {
    if s == [] then [e]
    else if s[|s| - 1].base > e.base then Insert(s[..|s| - 1], e) + [s[|s| - 1]]
    else s + [e]
  }

  function Sort(s: seq<Entry>): (r: seq<Entry>)
    ensures |r| == |s|
  {
    if s == [] then [] else Insert(Sort(s[..|s| - 1]), s[|s| - 1])
  }

  lemma {:induction false} InsertSorted(s: seq<Entry>, e: Entry)
    requires Sorted(s)
    ensures Sorted(Insert(s, e))
    ensures forall i :: 0 <= i < |Insert(s, e)| ==> Insert(s, e)[i] == e || Insert(s, e)[i] in s
  {
    if s != [] && s[|s| - 1].base > e.base { InsertSorted(s[..|s| - 1], e); }
  }

  lemma {:induction false} SortSorted(s: seq<Entry>)
    ensures Sorted(Sort(s))
  {
    if s != [] {
      SortSorted(s[..|s| - 1]);
      InsertSorted(Sort(s[..|s| - 1]), s[|s| - 1]);
    }
  }

  lemma {:induction false} InsertCovers(s: seq<Entry>, e: Entry, a: int, kind: nat)
    ensures Covers(Insert(s, e), a, kind) <==> Covers(s, a, kind) || Contains(e, a, kind)
  {
    if s == [] {
      CoversSnoc([], e, a, kind);
      assert [] + [e] == [e];
    } else if s[|s| - 1].base > e.base {
      InsertCovers(s[..|s| - 1], e, a, kind);
      CoversSnoc(Insert(s[..|s| - 1], e), s[|s| - 1], a, kind);
      CoversInit(s, a, kind);
    } else {
      CoversSnoc(s, e, a, kind);
    }
  }

  lemma {:induction false} SortCovers(s: seq<Entry>, a: int, kind: nat)
    ensures Covers(Sort(s), a, kind) <==> Covers(s, a, kind)
  {
    if s != [] {
      SortCovers(s[..|s| - 1], a, kind);
      InsertCovers(Sort(s[..|s| - 1]), s[|s| - 1], a, kind);
      CoversInit(s, a, kind);
    }
  }

  lemma {:induction false} SortPermutes(s: seq<Entry>)
    ensures multiset(Sort(s)) == multiset(s)
  {
    if s != [] {
      SortPermutes(s[..|s| - 1]);
      InsertPermutes(Sort(s[..|s| - 1]), s[|s| - 1]);
      assert s == s[..|s| - 1] + [s[|s| - 1]];
    }
  }

  lemma {:induction false} InsertPermutes(s: seq<Entry>, e: Entry)
    ensures multiset(Insert(s, e)) == multiset(s) + multiset{e}
  {
    if s != [] && s[|s| - 1].base > e.base {
      InsertPermutes(s[..|s| - 1], e);
      assert s == s[..|s| - 1] + [s[|s| - 1]];
    }
  }

  /** The inner loop of the insertion sort: makes room and drops the key in. */
  method InsertInPlace(e820: array<Entry>, i: nat)
    requires i < e820.Length
    modifies e820
    ensures e820[..i + 1] == Insert(old(e820[..i]), old(e820[i]))
    ensures e820[i + 1..] == old(e820[i + 1..])
  {
    var key := e820[i];
    ghost var all, s := e820[..], e820[..i];
    var j := i;
    assert s[..j] == s && s[j..] == [] && all == Moved(all, j, i);
    while j > 0 && e820[j - 1].base > key.base
      invariant 0 <= j <= i && e820[..] == Moved(all, j, i)
      invariant Insert(s, key) == Insert(s[..j], key) + s[j..]
    {
      MovedStep(all, j, i);
      assert e820[j - 1] == e820[..][j - 1] == s[j - 1];
      InsertShift(s, key, j);
      e820[j] := e820[j - 1];
      j := j - 1;
    }
    if j > 0 {
      MovedStep(all, j, i);
      assert e820[j - 1] == e820[..][j - 1] == s[j - 1];
    }
    InsertHere(s[..j], key);
    PlaceKey(e820, all, j, i, key);
  }

  method PlaceKey(e820: array<Entry>, ghost all: seq<Entry>, j: nat, ghost i: nat, key: Entry)
    requires j <= i < |all| == e820.Length && e820[..] == Moved(all, j, i)
    modifies e820
    ensures e820[..i + 1] == all[..i][..j] + [key] + all[..i][j..] && e820[i + 1..] == all[i + 1..]
  {
    MovedEnds(all, j, i, key);
    e820[j] := key;
    assert e820[..] == Moved(all, j, i)[j := key];
    assert e820[..i + 1] == e820[..][..i + 1] && e820[i + 1..] == e820[..][i + 1..];
  }

  /** The entries from `j` to `i` moved up by one place. */
  ghost function Moved(all: seq<Entry>, j: nat, i: nat): seq<Entry>
    requires j <= i < |all|
  {
    all[..j + 1] + all[j..i] + all[i + 1..]
  }

  lemma {:induction false} MovedStep(all: seq<Entry>, j: nat, i: nat)
    requires 0 < j <= i < |all|
    ensures |Moved(all, j, i)| == |all| && Moved(all, j, i)[j - 1] == all[j - 1]
    ensures Moved(all, j, i)[j := all[j - 1]] == Moved(all, j - 1, i)
  {}

  lemma {:induction false} MovedEnds(all: seq<Entry>, j: nat, i: nat, key: Entry)
    requires j <= i < |all|
    ensures var s, m := all[..i], Moved(all, j, i);
            |m| == |all| && m[j := key][..i + 1] == s[..j] + [key] + s[j..] && m[j := key][i + 1..] == all[i + 1..]
  {}

  lemma {:induction false} InsertShift(s: seq<Entry>, e: Entry, j: nat)
    requires 0 < j <= |s| && s[j - 1].base > e.base
    requires Insert(s, e) == Insert(s[..j], e) + s[j..]
    ensures Insert(s, e) == Insert(s[..j - 1], e) + s[j - 1..]
  {
    assert s[..j][..j - 1] == s[..j - 1];
    assert s[j - 1..] == [s[j - 1]] + s[j..];
    assert (Insert(s[..j - 1], e) + [s[j - 1]]) + s[j..] == Insert(s[..j - 1], e) + ([s[j - 1]] + s[j..]);
  }

  lemma {:induction false} InsertHere(s: seq<Entry>, e: Entry)
    requires s == [] || s[|s| - 1].base <= e.base
    ensures Insert(s, e) == s + [e]
  {}

  // ----- Coalesce ----------------------------------------------------------

  /** One turn of the second loop of e820_sort_and_coalesce. */
  function Join(acc: seq<Entry>, e: Entry): seq<Entry> {
    if !Fits(e) then acc
    else if acc != [] && Touches(acc[|acc| - 1], e) then
      acc[..|acc| - 1] + [Extend(acc[|acc| - 1], e)]
    else acc + [e]
  }

  /** `e`, which starts no earlier, continues `prev`. */
  predicate Touches(prev: Entry, e: Entry) {
    prev.kind == e.kind && Fits(prev) && e.base <= End(prev)
  }

  function Extend(prev: Entry, e: Entry): Entry
    requires Touches(prev, e) && Fits(e)
  {
    if End(e) > End(prev) then prev.(length := End(e) - prev.base) else prev
  }

  function Coalesce(s: seq<Entry>): seq<Entry> {
    if s == [] then [] else Join(Coalesce(s[..|s| - 1]), s[|s| - 1])
  }

  /** Ordered, valid, and entries of one kind that follow each other are a gap
      apart. */
  predicate Separated(s: seq<Entry>) {
    && AllFit(s)
    && Sorted(s)
    && forall i :: 0 <= i < |s| - 1 ==> s[i].kind == s[i + 1].kind ==> End(s[i]) < s[i + 1].base
  }

  predicate StartsBefore(s: seq<Entry>, b: int) {
    forall i :: 0 <= i < |s| ==> s[i].base <= b
  }

  lemma {:induction false} JoinSeparated(acc: seq<Entry>, e: Entry)
    requires Separated(acc) && StartsBefore(acc, e.base)
    ensures Separated(Join(acc, e)) && StartsBefore(Join(acc, e), e.base)
    ensures |Join(acc, e)| <= |acc| + 1
  {
    if Fits(e) && acc != [] && Touches(acc[|acc| - 1], e) {
      var init, last := acc[..|acc| - 1], acc[|acc| - 1];
      var t := Join(acc, e);
      assert t[|init|].base == last.base && t[|init|].kind == last.kind;
      assert forall i :: 0 <= i < |init| ==> t[i] == acc[i];
    }
  }

  lemma {:induction false} JoinCovers(acc: seq<Entry>, e: Entry, a: int, kind: nat)
    requires AllFit(acc) && StartsBefore(acc, e.base)
    ensures Covers(Join(acc, e), a, kind) <==> Covers(acc, a, kind) || (Fits(e) && Contains(e, a, kind))
  {
    if Fits(e) {
      if acc != [] && Touches(acc[|acc| - 1], e) {
        var init, last := acc[..|acc| - 1], acc[|acc| - 1];
        CoversInit(acc, a, kind);
        CoversSnoc(init, Extend(last, e), a, kind);
      } else {
        CoversSnoc(acc, e, a, kind);
      }
    }
  }

  lemma {:induction false} CoalesceCovers(s: seq<Entry>, a: int, kind: nat)
    requires Sorted(s) && AllFit(s)
    ensures Separated(Coalesce(s)) && |Coalesce(s)| <= |s|
    ensures forall b :: (forall i :: 0 <= i < |s| ==> s[i].base <= b) ==> StartsBefore(Coalesce(s), b)
    ensures Covers(Coalesce(s), a, kind) <==> Covers(s, a, kind)
  {
    if s != [] {
      var init, e := s[..|s| - 1], s[|s| - 1];
      CoalesceCovers(init, a, kind);
      assert StartsBefore(Coalesce(init), e.base);
      JoinSeparated(Coalesce(init), e);
      JoinCovers(Coalesce(init), e, a, kind);
      CoversInit(s, a, kind);
    }
  }

  /** The sort and the in-place compaction: reads run ahead of writes. */
  method SortAndCoalesce(e820: array<Entry>, count: nat) returns (n: nat)
    requires count <= e820.Length
    modifies e820
    ensures n <= count
    ensures e820[..n] == if count < 2 then old(e820[..count]) else Coalesce(Sort(old(e820[..count])))
  {
    if count < 2 { return count; }
    ghost var s := e820[..count];
    var i := 1;
    assert s[..1] == [s[0]] && s[..1][..0] == [];
    assert Sort(s[..1]) == [s[0]];
    while i < count
      invariant 1 <= i <= count
      invariant e820[..i] == Sort(s[..i])
      invariant e820[i..count] == s[i..]
    {
      SortOneMore(e820, i, count, s);
      i := i + 1;
    }
    assert s[..count] == s;
    n := Compact(e820, count);
  }

  /** One turn of the first loop. */
  method SortOneMore(e820: array<Entry>, i: nat, count: nat, ghost s: seq<Entry>)
    requires i < count <= e820.Length && |s| == count && e820[..i] == Sort(s[..i]) && e820[i..count] == s[i..]
    modifies e820
    ensures e820[..i + 1] == Sort(s[..i + 1]) && e820[i + 1..count] == s[i + 1..]
  {
    assert e820[i] == e820[i..count][0] == s[i];
    assert s[..i + 1][..i] == s[..i];
    ghost var tail := e820[i + 1..];
    assert tail[..count - i - 1] == e820[i + 1..count] == e820[i..count][1..] == s[i + 1..];
    InsertInPlace(e820, i);
    assert e820[i + 1..count] == e820[i + 1..][..count - i - 1];
  }

  method Compact(e820: array<Entry>, count: nat) returns (out: nat)
    requires count <= e820.Length
    modifies e820
    ensures out <= count && e820[..out] == Coalesce(old(e820[..count]))
  {
    ghost var s := e820[..count];
    out := 0;
    var i := 0;
    while i < count
      invariant 0 <= out <= i <= count
      invariant e820[..out] == Coalesce(s[..i])
      invariant forall k :: i <= k < count ==> e820[k] == s[k]
    {
      assert s[..i + 1][..i] == s[..i];
      out := CompactOne(e820, i, out);
      i := i + 1;
    }
    assert s[..count] == s;
  }

  /** One turn: entry `i` is skipped, merged into the last kept one, or kept. */
  method CompactOne(e820: array<Entry>, i: nat, out0: nat) returns (out: nat)
    requires out0 <= i < e820.Length
    modifies e820
    ensures out <= i + 1 && e820[..out] == Join(old(e820[..out0]), old(e820[i]))
    ensures forall k :: i < k < e820.Length ==> e820[k] == old(e820[k])
  {
    out := out0;
    var cur := e820[i];
    var curEnd := RangeEnd(cur.base, cur.length);
    if curEnd.None? { return; }
    if out != 0 {
      var prev := e820[out - 1];
      var prevEnd := RangeEnd(prev.base, prev.length);
      if prev.kind == cur.kind && prevEnd.Some? && cur.base <= prevEnd.value {
        if curEnd.value > prevEnd.value {
          e820[out - 1] := prev.(length := curEnd.value - prev.base);
        }
        assert e820[..out] == old(e820[..out0])[..out - 1] + [Extend(prev, cur)];
        return;
      }
    }
    e820[out] := cur;
    out := out + 1;
    assert e820[..out] == old(e820[..out0]) + [cur];
  }

  // ----- The whole map -----------------------------------------------------

  /** The range of a descriptor, if its length fits 64 bits. */
  function RangeOf(d: Descriptor): Entry {
    if d.pages * PAGE > MAX64 then Entry(0, 0, 0) else Entry(d.start, d.pages * PAGE, UefiKind(d.uefiType))
  }

  function AppendAll(ds: seq<Descriptor>): Option<seq<Entry>> {
    if ds == [] then Some([])
    else
      var init := AppendAll(ds[..|ds| - 1]);
      if init.None? then None else Append(init.value, RangeOf(ds[|ds| - 1]))
  }

  /** The map fill_memory_map_bootinfo produces, or None when the table is too
      small. */
  function MemoryMap(ds: seq<Descriptor>): Option<seq<Entry>> {
    var raw := AppendAll(ds);
    if raw.None? then None else Some(if |raw.value| < 2 then raw.value else Coalesce(Sort(raw.value)))
  }

  lemma {:induction false} AppendAllStaysNone(ds: seq<Descriptor>, i: nat)
    requires i <= |ds| && AppendAll(ds[..i]).None?
    ensures AppendAll(ds).None?
    decreases |ds|
  {
    if i == |ds| {
      assert ds[..i] == ds;
    } else {
      assert ds[..|ds| - 1][..i] == ds[..i];
      AppendAllStaysNone(ds[..|ds| - 1], i);
    }
  }

  method FillMemoryMap(ds: seq<Descriptor>, e820: array<Entry>) returns (ok: bool, count: nat)
    requires MAX_ENTRIES <= e820.Length
    modifies e820
    ensures ok <==> MemoryMap(ds).Some?
    ensures !ok ==> count == 0
    ensures ok ==> count <= MAX_ENTRIES && e820[..count] == MemoryMap(ds).value
  {
    count := 0;
    var i := 0;
    while i < |ds|
      invariant 0 <= i <= |ds| && count <= MAX_ENTRIES
      invariant AppendAll(ds[..i]) == Some(e820[..count])
    {
      assert ds[..i + 1][..i] == ds[..i];
      var d := ds[i];
      if d.pages * PAGE <= MAX64 && d.pages * PAGE != 0 {
        ok, count := AppendOrMerge(e820, count, d.start, d.pages * PAGE, UefiKind(d.uefiType));
        if !ok {
          AppendAllStaysNone(ds, i + 1);
          return false, 0;
        }
      }
      i := i + 1;
    }
    assert ds[..|ds|] == ds;
    count := SortAndCoalesce(e820, count);
    ok := true;
  }

  /** Some descriptor that the loader keeps has the kind and covers the address.
      Those whose length or end does not fit 64 bits are not kept. */
  predicate Described(ds: seq<Descriptor>, a: int, kind: nat) {
    exists i :: 0 <= i < |ds| && Fits(RangeOf(ds[i])) && Contains(RangeOf(ds[i]), a, kind)
  }

  lemma {:induction false} AppendAllCovers(ds: seq<Descriptor>, a: int, kind: nat)
    requires AppendAll(ds).Some?
    ensures AllFit(AppendAll(ds).value)
    ensures Covers(AppendAll(ds).value, a, kind) <==> Described(ds, a, kind)
  {
    if ds != [] {
      var init, d := ds[..|ds| - 1], ds[|ds| - 1];
      AppendAllCovers(init, a, kind);
      AppendCovers(AppendAll(init).value, RangeOf(d), a, kind);
      DescribedInit(ds, a, kind);
    }
  }

  lemma {:induction false} DescribedInit(ds: seq<Descriptor>, a: int, kind: nat)
    requires ds != []
    ensures Described(ds, a, kind)
            <==> Described(ds[..|ds| - 1], a, kind)
                 || (Fits(RangeOf(ds[|ds| - 1])) && Contains(RangeOf(ds[|ds| - 1]), a, kind))
  {
    var init := ds[..|ds| - 1];
    if Described(init, a, kind) {
      var i :| 0 <= i < |init| && Fits(RangeOf(init[i])) && Contains(RangeOf(init[i]), a, kind);
      assert Contains(RangeOf(ds[i]), a, kind);
    }
  }

  lemma {:induction false} SortFits(s: seq<Entry>)
    requires AllFit(s)
    ensures AllFit(Sort(s))
  {
    if s != [] {
      SortFits(s[..|s| - 1]);
      InsertFits(Sort(s[..|s| - 1]), s[|s| - 1]);
    }
  }

  lemma {:induction false} InsertFits(s: seq<Entry>, e: Entry)
    requires AllFit(s) && Fits(e)
    ensures AllFit(Insert(s, e))
  {
    if s != [] && s[|s| - 1].base > e.base { InsertFits(s[..|s| - 1], e); }
  }

  /** Merging, sorting and coalescing keep the meaning of the map: an address
      has a kind after exactly when a kept descriptor gives it that kind. The
      result is sorted and entries of one kind that follow each other are a gap
      apart. */
  lemma {:induction false} MemoryMapKeepsMeaning(ds: seq<Descriptor>, a: int, kind: nat)
    requires MemoryMap(ds).Some?
    ensures Covers(MemoryMap(ds).value, a, kind) <==> Described(ds, a, kind)
    ensures Separated(MemoryMap(ds).value)
  {
    var raw := AppendAll(ds).value;
    AppendAllCovers(ds, a, kind);
    if |raw| >= 2 {
      SortCovers(raw, a, kind);
      SortSorted(raw);
      SortFits(raw);
      CoalesceCovers(Sort(raw), a, kind);
    }
  }

  // ----- Disjointness ------------------------------------------------------

  /** No address has two kinds. */
  ghost predicate OneKind(s: seq<Entry>) {
    forall i, j :: 0 <= i < |s| && 0 <= j < |s| && s[i].kind != s[j].kind ==>
      End(s[i]) <= s[j].base || End(s[j]) <= s[i].base
  }

  ghost predicate Disjoint(s: seq<Entry>) {
    forall i, j :: 0 <= i < j < |s| ==> End(s[i]) <= s[j].base
  }

  /** A separated map in which no address has two kinds is pairwise disjoint. */
  lemma {:induction false} SeparatedIsDisjoint(s: seq<Entry>)
    requires Separated(s) && OneKind(s)
    ensures Disjoint(s)
  {
    forall i, j | 0 <= i < j < |s| ensures End(s[i]) <= s[j].base { StepDisjoint(s, i, j); }
  }

  lemma {:induction false} StepDisjoint(s: seq<Entry>, i: nat, j: nat)
    requires Separated(s) && OneKind(s) && i < j < |s|
    ensures End(s[i]) <= s[j].base
    decreases j - i
  {
    assert Fits(s[i]) && Fits(s[i + 1]);
    assert s[i].kind == s[i + 1].kind ==> End(s[i]) < s[i + 1].base;
    if i + 1 < j { assert s[i + 1].base <= s[j].base; }
  }

  /** If descriptors of different kinds do not overlap, the map handed to the
      kernel is pairwise disjoint, even where descriptors of one kind overlap. */
  lemma {:induction false} MemoryMapIsDisjoint(ds: seq<Descriptor>)
    requires MemoryMap(ds).Some?
    requires forall a, k, m :: Described(ds, a, k) && Described(ds, a, m) ==> k == m
    ensures Disjoint(MemoryMap(ds).value)
  {
    var s := MemoryMap(ds).value;
    MemoryMapKeepsMeaning(ds, 0, 0);
    forall i, j | 0 <= i < |s| && 0 <= j < |s| && s[i].kind != s[j].kind
      ensures End(s[i]) <= s[j].base || End(s[j]) <= s[i].base
    {
      assert Fits(s[i]) && Fits(s[j]);
      var a := if s[i].base >= s[j].base then s[i].base else s[j].base;
      MemoryMapKeepsMeaning(ds, a, s[i].kind);
      MemoryMapKeepsMeaning(ds, a, s[j].kind);
      assert Contains(s[i], a, s[i].kind) <==> a < End(s[i]);
      assert Contains(s[j], a, s[j].kind) <==> a < End(s[j]);
    }
    SeparatedIsDisjoint(s);
  }
}
