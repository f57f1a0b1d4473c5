/** The loops of FatBuilder.build (scripts/make_live_iso.py): aliases, cluster
    chains, directory records and the allocation table, each built up step by step
    and equal to its definition in modules FatTree, FatDirs and FatImage. */
module FatWriter {
  import opened FatBytes
  import opened FatNames
  import opened FatRecords
  import opened FatVolume
  import opened FatTree
  import opened FatDirs
  import opened FatChains
  import opened FatImage

  // ----- Short names -------------------------------------------------------

  /** fat_short_alias. */
  method FindAlias(name: Name, used: set<Bytes>) returns (r: Option<Bytes>)
    ensures r == Alias(name, used)
  {
    if Fits83(name) && Upper83(name) !in used {
      return Some(Upper83(name));
    }
    var n := 1;
    while n < ALIASES
      invariant 1 <= n <= ALIASES && Alias(name, used) == AliasFrom(name, used, n)
    {
      if Candidate(name, n) !in used {
        return Some(Candidate(name, n));
      }
      n := n + 1;
    }
    r := None;
  }

  lemma {:induction false} NoneStays(nodes: seq<Node>, i: nat)
    requires Named(nodes) && i <= |nodes| && Shorts(nodes[..i]).None?
    ensures Shorts(nodes).None?
    decreases |nodes|
  {
    if i < |nodes| {
      assert nodes[..|nodes| - 1][..i] == nodes[..i];
      NoneStays(nodes[..|nodes| - 1], i);
    } else {
      assert nodes[..i] == nodes;
    }
  }

  lemma {:induction false} ShortsStep(nodes: seq<Node>, i: nat, shorts: seq<Bytes>)
    requires Named(nodes) && i < |nodes| && Shorts(nodes[..i]) == Some(shorts)
    ensures var a := Alias(Leaf(nodes[i].path), Used(nodes[..i], shorts, Parent(nodes[i].path)));
            Shorts(nodes[..i + 1]) == if a.None? then None else Some(shorts + [a.value])
  {
    assert nodes[..i + 1][..i] == nodes[..i];
  }

  function Taken(used: map<Path, set<Bytes>>, p: Path): set<Bytes> {
    if p in used then used[p] else {}
  }

  lemma {:induction false} UsedStep(nodes: seq<Node>, i: nat, shorts: seq<Bytes>, a: Bytes, p: Path)
    requires Named(nodes) && i < |nodes| && |shorts| == i
    ensures Used(nodes[..i + 1], shorts + [a], p) ==
            Used(nodes[..i], shorts, p) + if Parent(nodes[i].path) == p then {a} else {}
  {
    var before, after := Used(nodes[..i], shorts, p), Used(nodes[..i + 1], shorts + [a], p);
    forall s | s in before ensures s in after {
      var j :| 0 <= j < i && Parent(nodes[..i][j].path) == p && s == shorts[j];
      assert nodes[..i + 1][j] == nodes[j] && (shorts + [a])[j] == s;
    }
    assert nodes[..i + 1][i] == nodes[i] && (shorts + [a])[i] == a;
    forall s | s in after && s != a ensures s in before {
      var j :| 0 <= j < i + 1 && Parent(nodes[..i + 1][j].path) == p && s == (shorts + [a])[j];
      assert nodes[..i][j] == nodes[j] && shorts[j] == s;
    }
    forall s | s in after && s == a && Parent(nodes[i].path) != p ensures s in before {
      var j :| 0 <= j < i + 1 && Parent(nodes[..i + 1][j].path) == p && s == (shorts + [a])[j];
      assert nodes[..i][j] == nodes[j] && shorts[j] == s;
    }
  }

  ghost predicate Follows(used: map<Path, set<Bytes>>, nodes: seq<Node>, shorts: seq<Bytes>)
    requires Named(nodes) && |shorts| == |nodes|
  {
    forall p :: Taken(used, p) == Used(nodes, shorts, p)
  }

  lemma {:induction false} FollowsStep(used: map<Path, set<Bytes>>, nodes: seq<Node>, i: nat, shorts: seq<Bytes>, a: Bytes)
    requires Named(nodes) && i < |nodes| && |shorts| == i && Follows(used, nodes[..i], shorts)
    ensures var parent := Parent(nodes[i].path);
            Follows(used[parent := Taken(used, parent) + {a}], nodes[..i + 1], shorts + [a])
  {
    var parent := Parent(nodes[i].path);
    var after := used[parent := Taken(used, parent) + {a}];
    forall p ensures Taken(after, p) == Used(nodes[..i + 1], shorts + [a], p) {
      UsedStep(nodes, i, shorts, a, p);
      assert Taken(used, p) == Used(nodes[..i], shorts, p);
    }
  }

  /** The short names, each free in its own directory. */
  method AssignShorts(nodes: seq<Node>) returns (r: Option<seq<Bytes>>)
    requires Named(nodes)
    ensures r == Shorts(nodes)
  {
    var shorts: seq<Bytes>, used: map<Path, set<Bytes>> := [], map[];
    for i := 0 to |nodes|
      invariant Shorts(nodes[..i]) == Some(shorts) && Follows(used, nodes[..i], shorts)
    {
      var parent := Parent(nodes[i].path);
      assert Taken(used, parent) == Used(nodes[..i], shorts, parent);
      var a := FindAlias(Leaf(nodes[i].path), Taken(used, parent));
      ShortsStep(nodes, i, shorts);
      if a.None? {
        NoneStays(nodes, i + 1);
        return None;
      }
      FollowsStep(used, nodes, i, shorts, a.value);
      used := used[parent := Taken(used, parent) + {a.value}];
      shorts := shorts + [a.value];
    }
    assert nodes[..|nodes|] == nodes;
    r := Some(shorts);
  }

  // ----- Clusters ----------------------------------------------------------

  /** alloc_cluster_chain. */
  method AllocChain(payloads: seq<Bytes>, data: Bytes) returns (out: seq<Bytes>, first: nat)
    ensures out == payloads + Chunks(data, CLUSTER)
    ensures first == if data == [] then 0 else 2 + |payloads|
  {
    out := payloads;
    if data == [] {
      return out, 0;
    }
    first := 2 + |payloads|;
    var i := 0;
    while i < |data|
      invariant 0 <= i && (i <= |data| ==> out + Chunks(data[i..], CLUSTER) == payloads + Chunks(data, CLUSTER))
      invariant i > |data| ==> out == payloads + Chunks(data, CLUSTER)
    {
      ChunksStep(data, i);
      out := out + [if i + CLUSTER <= |data| then data[i..i + CLUSTER] else Justify(data[i..], CLUSTER, 0)];
      i := i + CLUSTER;
    }
  }

  lemma {:induction false} ChunksStep(data: Bytes, i: nat)
    requires i < |data|
    ensures var chunk := if i + CLUSTER <= |data| then data[i..i + CLUSTER] else Justify(data[i..], CLUSTER, 0);
            Chunks(data[i..], CLUSTER) == [chunk] + if i + CLUSTER <= |data| then Chunks(data[i + CLUSTER..], CLUSTER) else []
  {
    if i + CLUSTER < |data| {
      assert data[i..][..CLUSTER] == data[i..i + CLUSTER] && data[i..][CLUSTER..] == data[i + CLUSTER..];
    } else if i + CLUSTER == |data| {
      assert data[i..] + Fill(0, 0) == data[i..] == data[i..i + CLUSTER];
    }
  }

  function EmptyClusters(n: nat): (r: seq<Bytes>)
    ensures |r| == n
  {
    seq(n, _ => Fill(CLUSTER, 0))
  }

  /** A cluster for every directory. */
  method AllocDirs(nodes: seq<Node>) returns (payloads: seq<Bytes>, firsts: seq<nat>)
    ensures payloads == EmptyClusters(DirCount(nodes)) && |firsts| == |nodes|
    ensures forall j :: 0 <= j < |nodes| && nodes[j].Dir? ==> FirstAt(nodes, firsts, j)
  {
    payloads, firsts := [], [];
    for i := 0 to |nodes|
      invariant payloads == EmptyClusters(DirCount(nodes[..i])) && |firsts| == i
      invariant forall j :: 0 <= j < i && nodes[j].Dir? ==> firsts[j] == First(nodes, j)
    {
      assert nodes[..i + 1][..i] == nodes[..i];
      if nodes[i].Dir? {
        firsts := firsts + [2 + |payloads|];
        payloads := payloads + [Fill(CLUSTER, 0)];
      } else {
        firsts := firsts + [0];
      }
    }
    assert nodes[..|nodes|] == nodes;
  }

  function Firsts(nodes: seq<Node>): (r: seq<nat>)
    ensures |r| == |nodes| && forall i :: 0 <= i < |nodes| ==> r[i] == First(nodes, i)
  {
    seq(|nodes|, i requires 0 <= i < |nodes| => First(nodes, i))
  }

  predicate FirstAt(nodes: seq<Node>, firsts: seq<nat>, j: nat)
    requires j < |nodes| == |firsts|
  {
    firsts[j] == First(nodes, j)
  }

  /** The clusters of every file, after those of the directories. */
  method AllocAll(nodes: seq<Node>) returns (payloads: seq<Bytes>, firsts: seq<nat>)
    ensures payloads == EmptyClusters(DirCount(nodes)) + FileClusters(nodes)
    ensures firsts == Firsts(nodes)
  {
    payloads, firsts := AllocDirs(nodes);
    ghost var dirs := payloads;
    for i := 0 to |nodes|
      invariant payloads == dirs + FileClusters(nodes[..i]) && FirstsUpTo(nodes, firsts, i)
    {
      if nodes[i].File? {
        var first;
        payloads, first := AllocFile(nodes, i, payloads, dirs);
        OneMoreFirst(nodes, firsts, i, first);
        firsts := firsts[i := first];
      } else {
        OneMoreNode(dirs, nodes, i);
        assert payloads + [] == payloads;
        OneMoreFirst(nodes, firsts, i, firsts[i]);
        assert firsts[i := firsts[i]] == firsts;
      }
    }
    assert nodes[..|nodes|] == nodes;
    AllFirsts(nodes, firsts);
  }

  /** The directories and the first `i` nodes have their first clusters. */
  predicate FirstsUpTo(nodes: seq<Node>, firsts: seq<nat>, i: nat) {
    |firsts| == |nodes| && forall j :: 0 <= j < |nodes| && (j < i || nodes[j].Dir?) ==> FirstAt(nodes, firsts, j)
  }

  lemma {:induction false} OneMoreFirst(nodes: seq<Node>, firsts: seq<nat>, i: nat, first: nat)
    requires FirstsUpTo(nodes, firsts, i) && i < |nodes|
    requires if nodes[i].File? then first == First(nodes, i) else first == firsts[i]
    ensures FirstsUpTo(nodes, firsts[i := first], i + 1)
  {
    var more := firsts[i := first];
    forall j | 0 <= j < |nodes| && (j < i + 1 || nodes[j].Dir?) ensures FirstAt(nodes, more, j) {
      assert j != i || nodes[j].Dir? ==> FirstAt(nodes, firsts, j);
    }
  }

  lemma {:induction false} AllFirsts(nodes: seq<Node>, firsts: seq<nat>)
    requires FirstsUpTo(nodes, firsts, |nodes|)
    ensures firsts == Firsts(nodes)
  {
    forall j | 0 <= j < |nodes| ensures firsts[j] == Firsts(nodes)[j] { assert FirstAt(nodes, firsts, j); }
  }

  method AllocFile(nodes: seq<Node>, i: nat, before: seq<Bytes>, ghost dirs: seq<Bytes>) returns (payloads: seq<Bytes>, first: nat)
    requires i < |nodes| && nodes[i].File? && |dirs| == DirCount(nodes) && before == dirs + FileClusters(nodes[..i])
    ensures payloads == dirs + FileClusters(nodes[..i + 1]) && first == First(nodes, i)
  {
    OneMoreNode(dirs, nodes, i);
    payloads, first := AllocChain(before, nodes[i].data);
  }

  lemma {:induction false} OneMoreNode(dirs: seq<Bytes>, nodes: seq<Node>, i: nat)
    requires i < |nodes|
    ensures dirs + FileClusters(nodes[..i + 1]) == dirs + FileClusters(nodes[..i]) + NodeChunks(nodes[i])
  {
    assert nodes[..i + 1][..i] == nodes[..i];
    Regrouped(dirs, FileClusters(nodes[..i]), NodeChunks(nodes[i]));
  }

  // ----- The allocation table ----------------------------------------------

  /** Word `c` of the table. */
  ghost function Word(fat: array<byte>, c: nat): nat
    requires 2 * c + 2 <= fat.Length
    reads fat
  {
    Get16(fat[..], 2 * c)
  }

  method SetWord(fat: array<byte>, c: nat, v: nat)
    requires 2 * c + 2 <= fat.Length && v < 0x10000
    modifies fat
    ensures Word(fat, c) == v
    ensures forall i :: 0 <= i < fat.Length && i != 2 * c && i != 2 * c + 1 ==> fat[i] == old(fat[i])
  {
    fat[2 * c] := v % 256;
    fat[2 * c + 1] := v / 256;
  }

  /** The first `n` words are those of the table, and the rest is zero. */
  ghost predicate Filled(fat: array<byte>, table: seq<nat>, n: nat)
    requires n <= |table|
    reads fat
  {
    && 2 * n <= fat.Length
    && (forall c :: 0 <= c < n ==> Word(fat, c) == table[c])
    && (forall i :: 2 * n <= i < fat.Length ==> fat[i] == 0)
  }

  method PutWord(fat: array<byte>, ghost table: seq<nat>, n: nat, v: nat)
    requires n < |table| && 2 * |table| <= fat.Length && Filled(fat, table, n) && v == table[n] < 0x10000
    modifies fat
    ensures Filled(fat, table, n + 1)
  {
    SetWord(fat, n, v);
    assert forall c :: 0 <= c < n ==> Word(fat, c) == old(Word(fat, c));
  }

  /** The entries of one file's chain. */
  method PutChain(fat: array<byte>, ghost table: seq<nat>, first: nat, count: nat)
    requires 2 * |table| <= fat.Length && count > 0 && Chained(table, first, count) && Filled(fat, table, first)
    modifies fat
    ensures Filled(fat, table, first + count)
  {
    for idx := 0 to count
      invariant Filled(fat, table, first + idx)
    {
      var c := first + idx;
      PutWord(fat, table, c, if idx + 1 == count then END_OF_CHAIN else c + 1);
    }
  }

  /** The table: the two reserved entries, the directories, then every chain. */
  method FillFat(nodes: seq<Node>, firsts: seq<nat>, fat: array<byte>)
    requires firsts == Firsts(nodes) && |Fat(nodes)| <= MAX_ENTRIES && 2 * |Fat(nodes)| <= fat.Length
    requires forall i :: 0 <= i < fat.Length ==> fat[i] == 0
    modifies fat
    ensures Filled(fat, Fat(nodes), |Fat(nodes)|)
  {
    FillDirs(nodes, firsts, fat);
    ghost var table, d := Fat(nodes), DirCount(nodes);
    assert |FileClusters(nodes[..0])| == 0;
    for i := 0 to |nodes|
      invariant 2 + d + |FileClusters(nodes[..i])| <= |table|
      invariant Filled(fat, table, 2 + d + |FileClusters(nodes[..i])|)
    {
      FillFile(nodes, firsts[i], fat, i);
    }
    assert nodes[..|nodes|] == nodes;
  }

  /** The chain of one node. */
  method FillFile(nodes: seq<Node>, first: nat, fat: array<byte>, i: nat)
    requires i < |nodes| && first == First(nodes, i) && |Fat(nodes)| <= MAX_ENTRIES && 2 * |Fat(nodes)| <= fat.Length
    requires 2 + DirCount(nodes) + |FileClusters(nodes[..i])| <= |Fat(nodes)|
    requires Filled(fat, Fat(nodes), 2 + DirCount(nodes) + |FileClusters(nodes[..i])|)
    modifies fat
    ensures 2 + DirCount(nodes) + |FileClusters(nodes[..i + 1])| <= |Fat(nodes)|
    ensures Filled(fat, Fat(nodes), 2 + DirCount(nodes) + |FileClusters(nodes[..i + 1])|)
  {
    assert nodes[..i + 1][..i] == nodes[..i] && nodes[..|nodes|] == nodes;
    FileClustersGrow(nodes, i, |nodes|);
    if nodes[i].File? && nodes[i].data != [] {
      FileIsChained(nodes, i);
      var chunks := NodeChunks(nodes[i]);
      PutChain(fat, Fat(nodes), first, |chunks|);
    }
  }

  method FillDirs(nodes: seq<Node>, firsts: seq<nat>, fat: array<byte>)
    requires firsts == Firsts(nodes) && |Fat(nodes)| <= MAX_ENTRIES && 2 * |Fat(nodes)| <= fat.Length
    requires forall i :: 0 <= i < fat.Length ==> fat[i] == 0
    modifies fat
    ensures Filled(fat, Fat(nodes), 2 + DirCount(nodes))
  {
    ghost var table := Fat(nodes);
    assert table[0] == FatHead(nodes)[0] && table[1] == FatHead(nodes)[1];
    PutWord(fat, table, 0, 0xFFF8);
    PutWord(fat, table, 1, 0xFFFF);
    for i := 0 to |nodes|
      invariant 2 + DirCount(nodes[..i]) <= |table| && Filled(fat, table, 2 + DirCount(nodes[..i]))
    {
      assert nodes[..i + 1][..i] == nodes[..i];
      if nodes[i].Dir? {
        DirIsChained(nodes, i);
        PutWord(fat, table, firsts[i], END_OF_CHAIN);
      }
    }
    assert nodes[..|nodes|] == nodes;
  }

  lemma {:induction false} SplitWord(a: byte, b: byte)
    ensures Le16((a as int) + 256 * (b as int)) == [a, b]
  {}

  /** A filled table is, byte for byte, the table of the volume. */
  lemma {:induction false} FilledIsTable(b: Bytes, v: Volume)
    requires FatVolume.Ok(v) && |b| == Sectors(v) * SECTOR && 2 * |v.table| <= |b|
    requires forall c :: 0 <= c < |v.table| ==> Get16(b, 2 * c) == v.table[c]
    requires forall i :: 2 * |v.table| <= i < |b| ==> b[i] == 0
    ensures b == Table(v)
  {
    forall i | 0 <= i < |b| ensures b[i] == Table(v)[i] { TableByte(b, v, i); }
  }

  lemma {:induction false} TableByte(b: Bytes, v: Volume, i: nat)
    requires FatVolume.Ok(v) && |b| == Sectors(v) * SECTOR && 2 * |v.table| <= |b| && i < |b|
    requires forall c :: 0 <= c < |v.table| ==> Get16(b, 2 * c) == v.table[c]
    requires forall i :: 2 * |v.table| <= i < |b| ==> b[i] == 0
    ensures i < |Table(v)| && b[i] == Table(v)[i]
  {
    FlattenLength(Words(v.table), 2);
    if i < 2 * |v.table| {
      var c := i / 2;
      TableWord(v, c);
      assert Get16(b, 2 * c) == v.table[c];
      SplitWord(b[2 * c], b[2 * c + 1]);
      assert Table(v)[2 * c..2 * c + 2][i - 2 * c] == Table(v)[i];
    }
  }

  // ----- Directory records -------------------------------------------------

  predicate Within(groups: seq<seq<Bytes>>, kids: seq<nat>) {
    forall k :: 0 <= k < |kids| ==> kids[k] < |groups|
  }

  /** The records of the listed entries, one after the other. */
  function Join(groups: seq<seq<Bytes>>, kids: seq<nat>): seq<Bytes>
    requires Within(groups, kids)
  {
    if kids == [] then [] else groups[kids[0]] + Join(groups, kids[1..])
  }

  lemma {:induction false} JoinConcat(groups: seq<seq<Bytes>>, a: seq<nat>, b: seq<nat>)
    requires Within(groups, a) && Within(groups, b)
    ensures Within(groups, a + b) && Join(groups, a + b) == Join(groups, a) + Join(groups, b)
    decreases |a|
  {
    if a == [] {
      assert a + b == b;
    } else {
      assert (a + b)[0] == a[0] && (a + b)[1..] == a[1..] + b;
      JoinConcat(groups, a[1..], b);
      Regrouped(groups[a[0]], Join(groups, a[1..]), Join(groups, b));
    }
  }

  lemma {:induction false} JoinSnoc(groups: seq<seq<Bytes>>, kids: seq<nat>, i: nat)
    requires Within(groups, kids) && i < |groups|
    ensures Within(groups, kids + [i]) && Join(groups, kids + [i]) == Join(groups, kids) + groups[i]
  {
    JoinConcat(groups, kids, [i]);
    assert Join(groups, [i]) == groups[i] + Join(groups, []);
  }

  /** The records collected so far for each directory: those of its directories
      and files among the first `n` and `m` paths. */
  ghost predicate Gathered(entries: map<Path, seq<Bytes>>, nodes: seq<Node>, groups: seq<seq<Bytes>>, n: nat, m: nat)
    requires n <= |nodes| == |groups| && m <= |nodes|
  {
    forall p :: p in entries ==> GatheredFor(entries[p], nodes, groups, p, n, m)
  }

  ghost predicate GatheredFor(records: seq<Bytes>, nodes: seq<Node>, groups: seq<seq<Bytes>>, p: Path, n: nat, m: nat)
    requires n <= |nodes| == |groups| && m <= |nodes|
  {
    records == Join(groups, KidsUpTo(nodes, p, true, n)) + Join(groups, KidsUpTo(nodes, p, false, m))
  }

  lemma {:induction false} GathersDir(records: seq<Bytes>, nodes: seq<Node>, groups: seq<seq<Bytes>>, p: Path, n: nat)
    requires n < |nodes| == |groups| && GatheredFor(records, nodes, groups, p, n, 0)
    ensures GatheredFor(if IsKid(nodes[n], p, true) then records + groups[n] else records, nodes, groups, p, n + 1, 0)
  {
    var kids := KidsUpTo(nodes, p, true, n);
    JoinSnoc(groups, kids, n);
    assert kids + [] == kids;
    assert records == Join(groups, kids) && records + groups[n] + [] == records + groups[n];
  }

  lemma {:induction false} GathersFile(records: seq<Bytes>, nodes: seq<Node>, groups: seq<seq<Bytes>>, p: Path, m: nat)
    requires m < |nodes| == |groups| && GatheredFor(records, nodes, groups, p, |nodes|, m)
    ensures GatheredFor(if IsKid(nodes[m], p, false) then records + groups[m] else records, nodes, groups, p, |nodes|, m + 1)
  {
    var kids := KidsUpTo(nodes, p, false, m);
    JoinSnoc(groups, kids, m);
    assert kids + [] == kids;
    Regrouped(Join(groups, KidsUpTo(nodes, p, true, |nodes|)), Join(groups, kids), groups[m]);
  }

  /** Every directory of the tree has a place for its records. */
  predicate Places(entries: map<Path, seq<Bytes>>, nodes: seq<Node>) {
    [] in entries && forall i :: 0 <= i < |nodes| && nodes[i].Dir? ==> nodes[i].path in entries
  }

  method EmptyPlaces(nodes: seq<Node>) returns (entries: map<Path, seq<Bytes>>)
    ensures Places(entries, nodes) && forall p :: p in entries ==> entries[p] == []
  {
    entries := map[[] := []];
    for i := 0 to |nodes|
      invariant [] in entries && forall p :: p in entries ==> entries[p] == []
      invariant forall j :: 0 <= j < i && nodes[j].Dir? ==> nodes[j].path in entries
    {
      if nodes[i].Dir? { entries := entries[nodes[i].path := []]; }
    }
  }

  lemma {:induction false} ParentPlace(entries: map<Path, seq<Bytes>>, nodes: seq<Node>, i: nat)
    requires TreeOk(nodes) && Places(entries, nodes) && i < |nodes|
    ensures Parent(nodes[i].path) in entries
  {
    assert Housed(nodes, i);
  }

  /** Entry `i`'s records added to its parent's. */
  function Placed(entries: map<Path, seq<Bytes>>, nodes: seq<Node>, groups: seq<seq<Bytes>>, i: nat): (r: map<Path, seq<Bytes>>)
    requires i < |nodes| == |groups| && nodes[i].path != [] && Parent(nodes[i].path) in entries
    ensures r.Keys == entries.Keys
    ensures forall p :: p in r ==> r[p] == if p == Parent(nodes[i].path) then entries[p] + groups[i] else entries[p]
  {
    var p := Parent(nodes[i].path);
    entries[p := entries[p] + groups[i]]
  }

  lemma {:induction false} PlacedDir(entries: map<Path, seq<Bytes>>, nodes: seq<Node>, groups: seq<seq<Bytes>>, n: nat, p: Path)
    requires n < |nodes| == |groups| && nodes[n].path != [] && Parent(nodes[n].path) in entries && p in entries
    requires GatheredFor(entries[p], nodes, groups, p, n, 0)
    ensures var r := if nodes[n].Dir? then Placed(entries, nodes, groups, n) else entries;
            p in r && GatheredFor(r[p], nodes, groups, p, n + 1, 0)
  {
    GathersDir(entries[p], nodes, groups, p, n);
  }

  lemma {:induction false} PlacedFile(entries: map<Path, seq<Bytes>>, nodes: seq<Node>, groups: seq<seq<Bytes>>, m: nat, p: Path)
    requires m < |nodes| == |groups| && nodes[m].path != [] && Parent(nodes[m].path) in entries && p in entries
    requires GatheredFor(entries[p], nodes, groups, p, |nodes|, m)
    ensures var r := if nodes[m].File? then Placed(entries, nodes, groups, m) else entries;
            p in r && GatheredFor(r[p], nodes, groups, p, |nodes|, m + 1)
  {
    GathersFile(entries[p], nodes, groups, p, m);
  }

  lemma {:induction false} PlacedDirs(entries: map<Path, seq<Bytes>>, nodes: seq<Node>, groups: seq<seq<Bytes>>, n: nat)
    requires n < |nodes| == |groups| && nodes[n].path != [] && Parent(nodes[n].path) in entries
    requires Places(entries, nodes) && Gathered(entries, nodes, groups, n, 0)
    ensures var r := if nodes[n].Dir? then Placed(entries, nodes, groups, n) else entries;
            Places(r, nodes) && Gathered(r, nodes, groups, n + 1, 0)
  {
    var r := if nodes[n].Dir? then Placed(entries, nodes, groups, n) else entries;
    assert r.Keys == entries.Keys;
    forall p | p in r ensures GatheredFor(r[p], nodes, groups, p, n + 1, 0) { PlacedDir(entries, nodes, groups, n, p); }
  }

  lemma {:induction false} PlacedFiles(entries: map<Path, seq<Bytes>>, nodes: seq<Node>, groups: seq<seq<Bytes>>, m: nat)
    requires m < |nodes| == |groups| && nodes[m].path != [] && Parent(nodes[m].path) in entries
    requires Places(entries, nodes) && Gathered(entries, nodes, groups, |nodes|, m)
    ensures var r := if nodes[m].File? then Placed(entries, nodes, groups, m) else entries;
            Places(r, nodes) && Gathered(r, nodes, groups, |nodes|, m + 1)
  {
    var r := if nodes[m].File? then Placed(entries, nodes, groups, m) else entries;
    assert r.Keys == entries.Keys;
    forall p | p in r ensures GatheredFor(r[p], nodes, groups, p, |nodes|, m + 1) { PlacedFile(entries, nodes, groups, m, p); }
  }

  lemma {:induction false} NothingGathered(entries: map<Path, seq<Bytes>>, nodes: seq<Node>, groups: seq<seq<Bytes>>)
    requires |groups| == |nodes| && forall p :: p in entries ==> entries[p] == []
    ensures Gathered(entries, nodes, groups, 0, 0)
  {
    assert Join(groups, []) + Join(groups, []) == [];
    forall p | p in entries ensures GatheredFor(entries[p], nodes, groups, p, 0, 0) {}
  }

  method GatherDirs(nodes: seq<Node>, groups: seq<seq<Bytes>>) returns (entries: map<Path, seq<Bytes>>)
    requires TreeOk(nodes) && |groups| == |nodes|
    ensures Places(entries, nodes) && Gathered(entries, nodes, groups, |nodes|, 0)
  {
    entries := EmptyPlaces(nodes);
    NothingGathered(entries, nodes, groups);
    for n := 0 to |nodes|
      invariant Places(entries, nodes) && Gathered(entries, nodes, groups, n, 0)
    {
      ParentPlace(entries, nodes, n);
      PlacedDirs(entries, nodes, groups, n);
      entries := if nodes[n].Dir? then Placed(entries, nodes, groups, n) else entries;
    }
  }

  /** The records of every directory: its directories first, then its files. */
  method Gather(nodes: seq<Node>, groups: seq<seq<Bytes>>) returns (entries: map<Path, seq<Bytes>>)
    requires TreeOk(nodes) && |groups| == |nodes|
    ensures Places(entries, nodes) && Gathered(entries, nodes, groups, |nodes|, |nodes|)
  {
    entries := GatherDirs(nodes, groups);
    for m := 0 to |nodes|
      invariant Places(entries, nodes) && Gathered(entries, nodes, groups, |nodes|, m)
    {
      ParentPlace(entries, nodes, m);
      PlacedFiles(entries, nodes, groups, m);
      entries := if nodes[m].File? then Placed(entries, nodes, groups, m) else entries;
    }
  }

  // ----- Joined records are the directory's records ------------------------

  predicate GroupAt(nodes: seq<Node>, shorts: seq<Bytes>, groups: seq<seq<Bytes>>, i: nat)
    requires Ready(nodes, shorts) && i < |nodes| && i < |groups|
  {
    groups[i] == KidGroup(nodes, shorts, i)
  }

  /** The records of every entry, in the order of the listing. */
  predicate AllGroups(nodes: seq<Node>, shorts: seq<Bytes>, groups: seq<seq<Bytes>>)
    requires Ready(nodes, shorts)
  {
    |groups| == |nodes| && forall i :: 0 <= i < |nodes| ==> GroupAt(nodes, shorts, groups, i)
  }

  lemma {:induction false} JoinIsGroups(nodes: seq<Node>, shorts: seq<Bytes>, groups: seq<seq<Bytes>>, kids: seq<nat>)
    requires Ready(nodes, shorts) && Indices(nodes, kids) && AllGroups(nodes, shorts, groups)
    ensures Within(groups, kids) && Join(groups, kids) == Groups(nodes, shorts, kids)
    decreases |kids|
  {
    if kids != [] {
      JoinIsGroups(nodes, shorts, groups, kids[1..]);
      assert GroupAt(nodes, shorts, groups, kids[0]);
    }
  }

  /** What was gathered for a directory is what it should hold. */
  lemma {:induction false} GatheredIsGroups(records: seq<Bytes>, nodes: seq<Node>, shorts: seq<Bytes>, groups: seq<seq<Bytes>>, p: Path)
    requires Ready(nodes, shorts) && AllGroups(nodes, shorts, groups)
    requires GatheredFor(records, nodes, groups, p, |nodes|, |nodes|)
    ensures records == Groups(nodes, shorts, Kids(nodes, p))
  {
    JoinConcat(groups, KidsUpTo(nodes, p, true, |nodes|), KidsUpTo(nodes, p, false, |nodes|));
    JoinIsGroups(nodes, shorts, groups, Kids(nodes, p));
  }

  /** The record fields are checked as the records are made. */
  method MakeGroups(nodes: seq<Node>, shorts: seq<Bytes>, firsts: seq<nat>) returns (ok: bool, groups: seq<seq<Bytes>>)
    requires Named(nodes) && Shorts(nodes) == Some(shorts) && firsts == Firsts(nodes)
    ensures ok == FieldsFit(nodes)
    ensures ok ==> Ready(nodes, shorts) && AllGroups(nodes, shorts, groups)
  {
    ok := CheckFields(nodes, firsts);
    groups := [];
    if !ok {
      return;
    }
    ShortsReady(nodes);
    groups := RecordAll(nodes, shorts);
  }

  method RecordAll(nodes: seq<Node>, shorts: seq<Bytes>) returns (groups: seq<seq<Bytes>>)
    requires Ready(nodes, shorts)
    ensures AllGroups(nodes, shorts, groups)
  {
    groups := seq(|nodes|, i requires 0 <= i < |nodes| => KidGroup(nodes, shorts, i));
  }

  method CheckFields(nodes: seq<Node>, firsts: seq<nat>) returns (ok: bool)
    requires firsts == Firsts(nodes)
    ensures ok == FieldsFit(nodes)
  {
    for i := 0 to |nodes|
      invariant forall j :: 0 <= j < i ==> FieldFits(nodes, j)
    {
      if firsts[i] >= 0x10000 || Size(nodes[i]) >= 0x1_0000_0000 {
        assert !FieldFits(nodes, i);
        return false;
      }
    }
    ok := true;
  }

  /** One directory's bytes, when they fit its cluster. */
  method MakeRegion(nodes: seq<Node>, shorts: seq<Bytes>, records: seq<Bytes>, i: nat) returns (ok: bool, region: Bytes)
    requires Ready(nodes, shorts) && i < |nodes| && nodes[i].Dir?
    requires records == Groups(nodes, shorts, Kids(nodes, nodes[i].path))
    ensures ok == DirFits(nodes, shorts, i)
    ensures ok ==> region == NodeRegion(nodes, shorts, i)
  {
    assert Fitting(nodes, shorts, i);
    DirFirstFits(nodes, shorts, Parent(nodes[i].path));
    var dots := DotRecords(First(nodes, i), DirFirst(nodes, Parent(nodes[i].path)));
    var payload := Flatten(dots + records);
    ok := |payload| <= CLUSTER;
    region := if ok then Justify(payload, CLUSTER, 0) else [];
  }

  lemma {:induction false} RegionsAt(nodes: seq<Node>, shorts: seq<Bytes>, i: nat)
    requires Ready(nodes, shorts) && DirsFit(nodes, shorts) && i < |nodes|
    ensures DirFits(nodes, shorts, i) && Regions(nodes, shorts)[i] == NodeRegion(nodes, shorts, i)
  {
    assert DirFits(nodes, shorts, i);
  }

  /** A directory's bytes, or nothing for a file. */
  ghost predicate RegionDone(nodes: seq<Node>, shorts: seq<Bytes>, region: Bytes, i: nat)
    requires Ready(nodes, shorts) && i < |nodes|
  {
    DirFits(nodes, shorts, i) && region == NodeRegion(nodes, shorts, i)
  }

  /** The bytes of the first nodes. */
  ghost predicate RegionsDone(nodes: seq<Node>, shorts: seq<Bytes>, regions: seq<Bytes>)
    requires Ready(nodes, shorts)
  {
    |regions| <= |nodes| && forall j :: 0 <= j < |regions| ==> RegionDone(nodes, shorts, regions[j], j)
  }

  lemma {:induction false} OneMoreRegion(nodes: seq<Node>, shorts: seq<Bytes>, regions: seq<Bytes>, region: Bytes)
    requires Ready(nodes, shorts) && RegionsDone(nodes, shorts, regions) && |regions| < |nodes|
    requires RegionDone(nodes, shorts, region, |regions|)
    ensures RegionsDone(nodes, shorts, regions + [region])
  {
    var more := regions + [region];
    forall j | 0 <= j < |more| ensures RegionDone(nodes, shorts, more[j], j) {
      if j < |regions| { assert more[j] == regions[j] && RegionDone(nodes, shorts, regions[j], j); }
    }
  }

  lemma {:induction false} OneTooLarge(nodes: seq<Node>, shorts: seq<Bytes>, i: nat)
    requires Ready(nodes, shorts) && i < |nodes| && !DirFits(nodes, shorts, i)
    ensures !DirsFit(nodes, shorts)
  {}

  method MakeRegions(nodes: seq<Node>, shorts: seq<Bytes>, ghost groups: seq<seq<Bytes>>, entries: map<Path, seq<Bytes>>)
    returns (ok: bool, regions: seq<Bytes>)
    requires Ready(nodes, shorts) && AllGroups(nodes, shorts, groups)
    requires Places(entries, nodes) && Gathered(entries, nodes, groups, |nodes|, |nodes|)
    ensures ok == DirsFit(nodes, shorts)
    ensures ok ==> regions == Regions(nodes, shorts)
  {
    regions := [];
    for i := 0 to |nodes|
      invariant |regions| == i && RegionsDone(nodes, shorts, regions)
    {
      var fits, region := RegionFor(nodes, shorts, groups, entries, i);
      if !fits {
        OneTooLarge(nodes, shorts, i);
        return false, regions;
      }
      OneMoreRegion(nodes, shorts, regions, region);
      regions := regions + [region];
    }
    ok := true;
    RegionsAreDone(nodes, shorts, regions);
  }

  method RegionFor(nodes: seq<Node>, shorts: seq<Bytes>, ghost groups: seq<seq<Bytes>>, entries: map<Path, seq<Bytes>>, i: nat)
    returns (ok: bool, region: Bytes)
    requires Ready(nodes, shorts) && AllGroups(nodes, shorts, groups) && i < |nodes|
    requires Places(entries, nodes) && Gathered(entries, nodes, groups, |nodes|, |nodes|)
    ensures ok == DirFits(nodes, shorts, i)
    ensures ok ==> RegionDone(nodes, shorts, region, i)
  {
    if nodes[i].Dir? {
      var p := nodes[i].path;
      assert GatheredFor(entries[p], nodes, groups, p, |nodes|, |nodes|);
      GatheredIsGroups(entries[p], nodes, shorts, groups, p);
      ok, region := MakeRegion(nodes, shorts, entries[p], i);
    } else {
      ok, region := true, [];
    }
  }

  lemma {:induction false} RegionsAreDone(nodes: seq<Node>, shorts: seq<Bytes>, regions: seq<Bytes>)
    requires Ready(nodes, shorts) && |regions| == |nodes| && RegionsDone(nodes, shorts, regions)
    ensures DirsFit(nodes, shorts) && regions == Regions(nodes, shorts)
  {
    forall j | 0 <= j < |nodes| ensures DirFits(nodes, shorts, j) { assert RegionDone(nodes, shorts, regions[j], j); }
    forall j | 0 <= j < |nodes| ensures regions[j] == Regions(nodes, shorts)[j] {
      assert RegionDone(nodes, shorts, regions[j], j);
      RegionsAt(nodes, shorts, j);
    }
  }

  /** The directories' bytes put into their clusters. */
  method PlaceRegions(nodes: seq<Node>, firsts: seq<nat>, regions: seq<Bytes>, payloads: seq<Bytes>) returns (out: seq<Bytes>)
    requires RegionsOk(nodes, regions) && firsts == Firsts(nodes)
    requires payloads == EmptyClusters(DirCount(nodes)) + FileClusters(nodes)
    ensures out == Clusters(nodes, regions)
  {
    out := payloads;
    var d, dirs := DirCount(nodes), DirNodes(nodes);
    for i := 0 to |nodes|
      invariant |out| == |payloads| && out[d..] == FileClusters(nodes) && DirCount(nodes[..i]) <= d
      invariant forall k :: 0 <= k < DirCount(nodes[..i]) ==> out[k] == regions[dirs[k]]
    {
      assert nodes[..i + 1][..i] == nodes[..i];
      DirCountGrows(nodes, i);
      if nodes[i].Dir? {
        DirNodesFinds(nodes, i);
        out := out[firsts[i] - 2 := regions[i]];
      }
    }
    assert nodes[..|nodes|] == nodes;
    assert out[..d] == DirClusters(nodes, regions);
  }

  /** The allocation table of a volume, byte by byte. */
  method MakeTable(nodes: seq<Node>, firsts: seq<nat>, ghost v: Volume) returns (b: Bytes)
    requires firsts == Firsts(nodes) && FatVolume.Ok(v) && v.table == Fat(nodes)
    ensures b == Table(v)
  {
    var entries := 2 + DirCount(nodes) + |FileClusters(nodes)|;
    FatSectorsHold(entries);
    var fat := new byte[FatSectors(entries) * SECTOR](_ => 0);
    FillFat(nodes, firsts, fat);
    b := fat[..];
    assert forall c :: 0 <= c < |v.table| ==> Get16(b, 2 * c) == Word(fat, c);
    FilledIsTable(b, v);
  }

  /** The last stage: everything fits, and the parts are put together. */
  method Assemble(nodes: seq<Node>, firsts: seq<nat>, regions: seq<Bytes>, clusters: seq<Bytes>, root: Bytes, tag: Bytes, serial: nat)
    returns (image: Bytes)
    requires firsts == Firsts(nodes) && RegionsOk(nodes, regions) && clusters == Clusters(nodes, regions)
    requires |root| == ROOT_BYTES && |Fat(nodes)| <= MAX_ENTRIES && |tag| == 11 && serial < 0x1_0000_0000
    ensures image == Image(VolumeOf(nodes, regions, root), tag, serial)
  {
    ghost var v := VolumeOf(nodes, regions, root);
    var table := MakeTable(nodes, firsts, v);
    image := JoinParts(v, table, root, clusters, tag, serial);
  }

  /** The boot sector, both copies of the table, the root and the clusters. */
  method JoinParts(ghost v: Volume, table: Bytes, root: Bytes, clusters: seq<Bytes>, tag: Bytes, serial: nat) returns (image: Bytes)
    requires FatVolume.Ok(v) && table == Table(v) && root == v.root && clusters == v.clusters
    requires |tag| == 11 && serial < 0x1_0000_0000
    ensures image == Image(v, tag, serial)
  {
    SectorsFit(v);
    var entries := |clusters| + 2;
    var total := 1 + 2 * FatSectors(entries) + 32 + |clusters| * 8;
    image := BootHead(FatSectors(entries), total) + BootTail(tag, serial) + table + table + root + Flatten(clusters);
  }

  /** FatBuilder.build over a listing of its paths. */
  method BuildImage(nodes: seq<Node>, tag: Bytes, serial: nat) returns (r: Result)
    requires TreeOk(nodes) && |tag| == 11
    ensures r == Build(nodes, tag, serial)
  {
    var named := AssignShorts(nodes);
    if named.None? {
      return Failed(NoAlias);
    }
    var shorts := named.value;
    var payloads, firsts := AllocAll(nodes);
    var fit, groups := MakeGroups(nodes, shorts, firsts);
    if !fit {
      return Failed(FieldOverflow);
    }
    var entries := Gather(nodes, groups);
    var ok, regions := MakeRegions(nodes, shorts, groups, entries);
    if !ok {
      return Failed(DirectoryTooLarge);
    }
    var clusters := PlaceRegions(nodes, firsts, regions, payloads);
    assert |Fat(nodes)| == |clusters| + 2;
    if |clusters| + 2 > MAX_ENTRIES {
      return Failed(TooManyClusters);
    }
    assert GatheredFor(entries[[]], nodes, groups, [], |nodes|, |nodes|);
    GatheredIsGroups(entries[[]], nodes, shorts, groups, []);
    var rootPayload := Flatten([LabelRecord(tag)] + entries[[]]);
    if |rootPayload| > ROOT_BYTES {
      return Failed(RootTooLarge);
    }
    if serial >= 0x1_0000_0000 {
      return Failed(FieldOverflow);
    }
    var image := Assemble(nodes, firsts, regions, clusters, Justify(rootPayload, ROOT_BYTES, 0), tag, serial);
    r := Built(image);
  }
}
