/** The tree of files that FatBuilder.build writes (scripts/make_live_iso.py): short
    names, cluster chains and directories, for any order in which the paths are
    listed. */
module FatTree {
  import opened FatBytes
  import opened FatNames
  import opened FatRecords
  import opened FatVolume

  type Path = seq<Name>

  datatype Node = Dir(path: Path) | File(path: Path, data: Bytes)

  function Parent(p: Path): Path
    requires p != []
  {
    p[..|p| - 1]
  }

  function Leaf(p: Path): Name
    requires p != []
  {
    p[|p| - 1]
  }

  predicate Named(nodes: seq<Node>) {
    forall i :: 0 <= i < |nodes| ==> nodes[i].path != [] && Supported(Leaf(nodes[i].path))
  }

  predicate IsDir(nodes: seq<Node>, p: Path) {
    p == [] || exists j :: 0 <= j < |nodes| && nodes[j].Dir? && nodes[j].path == p
  }

  /** Every path once, and every parent a directory. */
  predicate TreeOk(nodes: seq<Node>) {
    && Named(nodes)
    && (forall i, j :: 0 <= i < j < |nodes| ==> nodes[i].path != nodes[j].path)
    && (forall i :: 0 <= i < |nodes| ==> Housed(nodes, i))
  }

  predicate Housed(nodes: seq<Node>, i: nat)
    requires i < |nodes| && nodes[i].path != []
  {
    IsDir(nodes, Parent(nodes[i].path))
  }

  // ----- Short names -------------------------------------------------------

  /** The short names already given in directory `p`. */
  function Used(nodes: seq<Node>, shorts: seq<Bytes>, p: Path): set<Bytes>
    requires Named(nodes) && |shorts| == |nodes|
  {
    set j | 0 <= j < |nodes| && Parent(nodes[j].path) == p :: shorts[j]
  }

  function Shorts(nodes: seq<Node>): (r: Option<seq<Bytes>>)
    requires Named(nodes)
    ensures r.Some? ==> |r.value| == |nodes| && Sized(r.value, 11)
  {
    if nodes == [] then Some([])
    else
      var init, last := nodes[..|nodes| - 1], nodes[|nodes| - 1];
      var before := Shorts(init);
      if before.None? then None
      else
        var a := Alias(Leaf(last.path), Used(init, before.value, Parent(last.path)));
        if a.None? then None else Some(before.value + [a.value])
  }

  lemma {:induction false} ShortsExtend(nodes: seq<Node>)
    requires Named(nodes) && nodes != [] && Shorts(nodes).Some?
    ensures var init := nodes[..|nodes| - 1];
            && Named(init) && Shorts(init).Some? && Shorts(init).value == Shorts(nodes).value[..|init|]
            && Alias(Leaf(nodes[|init|].path), Used(init, Shorts(init).value, Parent(nodes[|init|].path))) == Some(Shorts(nodes).value[|init|])
  {}

  /** No two entries of one directory have the same short name. */
  lemma {:induction false} ShortNamesDiffer(nodes: seq<Node>, i: nat, j: nat)
    requires Named(nodes) && Shorts(nodes).Some? && i < j < |nodes| && Parent(nodes[i].path) == Parent(nodes[j].path)
    ensures Shorts(nodes).value[i] != Shorts(nodes).value[j]
    decreases |nodes|
  {
    ShortsExtend(nodes);
    var init, shorts := nodes[..|nodes| - 1], Shorts(nodes).value;
    if j == |nodes| - 1 {
      assert Shorts(init).value[i] == shorts[i] && init[i] == nodes[i];
      assert shorts[i] in Used(init, Shorts(init).value, Parent(nodes[j].path));
    } else {
      ShortNamesDiffer(init, i, j);
    }
  }

  /** Aliases start with an ordinary character: no record looks deleted, empty or
      like a dot entry. */
  lemma {:induction false} AliasStarts(name: Name, used: set<Bytes>)
    requires Alias(name, used).Some?
    ensures Allowed(Alias(name, used).value[0])
  {
    if Fits83(name) && Upper83(name) !in used {
      assert Upper83(name)[0] == Base(name)[0];
    } else {
      AliasFromStarts(name, used, 1);
    }
  }

  lemma {:induction false} AliasFromStarts(name: Name, used: set<Bytes>, n: nat)
    requires n <= ALIASES && AliasFrom(name, used, n).Some?
    ensures Allowed(AliasFrom(name, used, n).value[0])
    decreases ALIASES - n
  {
    if Candidate(name, n) !in used {
      assert Candidate(name, n)[0] == Numbered(name, n)[0];
    } else {
      AliasFromStarts(name, used, n + 1);
    }
  }

  lemma {:induction false} ShortStarts(nodes: seq<Node>, i: nat)
    requires Named(nodes) && Shorts(nodes).Some? && i < |nodes|
    ensures Allowed(Shorts(nodes).value[i][0])
    decreases |nodes|
  {
    ShortsExtend(nodes);
    var init := nodes[..|nodes| - 1];
    if i == |init| {
      AliasStarts(Leaf(nodes[i].path), Used(init, Shorts(init).value, Parent(nodes[i].path)));
    } else {
      ShortStarts(init, i);
      assert Shorts(nodes).value[i] == Shorts(init).value[i];
    }
  }

  lemma {:induction false} UsedIsSmall(nodes: seq<Node>, shorts: seq<Bytes>, p: Path)
    requires Named(nodes) && |shorts| == |nodes|
    ensures |Used(nodes, shorts, p)| <= |nodes|
    decreases |nodes|
  {
    if nodes == [] {
      assert Used(nodes, shorts, p) == {};
    } else {
      var n := |nodes| - 1;
      UsedIsSmall(nodes[..n], shorts[..n], p);
      assert Used(nodes, shorts, p) <= Used(nodes[..n], shorts[..n], p) + {shorts[n]};
      SubsetIsNoLarger(Used(nodes, shorts, p), Used(nodes[..n], shorts[..n], p) + {shorts[n]});
    }
  }

  /** Short names run out only in a tree of a million paths. */
  lemma {:induction false} ShortNamesExist(nodes: seq<Node>)
    requires Named(nodes) && |nodes| < ALIASES
    ensures Shorts(nodes).Some?
    decreases |nodes|
  {
    if nodes != [] {
      var init, last := nodes[..|nodes| - 1], nodes[|nodes| - 1];
      ShortNamesExist(init);
      UsedIsSmall(init, Shorts(init).value, Parent(last.path));
      AliasExists(Leaf(last.path), Used(init, Shorts(init).value, Parent(last.path)));
    }
  }

  // ----- Clusters ----------------------------------------------------------

  function DirCount(nodes: seq<Node>): nat {
    if nodes == [] then 0 else DirCount(nodes[..|nodes| - 1]) + if nodes[|nodes| - 1].Dir? then 1 else 0
  }

  function NodeChunks(n: Node): (r: seq<Bytes>)
    ensures Sized(r, CLUSTER)
  {
    if n.File? then Chunks(n.data, CLUSTER) else []
  }

  /** The clusters of all files, in order. */
  function FileClusters(nodes: seq<Node>): (r: seq<Bytes>)
    ensures Sized(r, CLUSTER)
  {
    if nodes == [] then [] else FileClusters(nodes[..|nodes| - 1]) + NodeChunks(nodes[|nodes| - 1])
  }

  function Links(first: nat, n: nat): (r: seq<nat>)
    ensures |r| == n && forall i :: 0 <= i < n ==> r[i] == if i + 1 == n then END_OF_CHAIN else first + i + 1
  {
    seq(n, i requires 0 <= i < n => if i + 1 == n then END_OF_CHAIN else first + i + 1)
  }

  function Total(counts: seq<nat>): nat {
    if counts == [] then 0 else Total(counts[..|counts| - 1]) + counts[|counts| - 1]
  }

  /** The table entries of chains of these lengths, one after the other from
      cluster `base` on. */
  function LinksOf(counts: seq<nat>, base: nat): (r: seq<nat>)
    ensures |r| == Total(counts)
  {
    if counts == [] then []
    else LinksOf(counts[..|counts| - 1], base) + Links(base + Total(counts[..|counts| - 1]), counts[|counts| - 1])
  }

  function Counts(nodes: seq<Node>): (r: seq<nat>)
    ensures |r| == |nodes|
  {
    seq(|nodes|, i requires 0 <= i < |nodes| => |NodeChunks(nodes[i])|)
  }

  lemma {:induction false} CountsTotal(nodes: seq<Node>)
    ensures |FileClusters(nodes)| == Total(Counts(nodes))
  {
    if nodes != [] {
      CountsTotal(nodes[..|nodes| - 1]);
      assert Counts(nodes)[..|nodes| - 1] == Counts(nodes[..|nodes| - 1]);
    }
  }

  /** The table entries of all files; their first cluster is `base`. */
  function FileLinks(nodes: seq<Node>, base: nat): (r: seq<nat>)
    ensures |r| == |FileClusters(nodes)|
  {
    CountsTotal(nodes);
    LinksOf(Counts(nodes), base)
  }

  /** The first cluster of entry `i`; an empty file has none. */
  function First(nodes: seq<Node>, i: nat): nat
    requires i < |nodes|
  {
    if nodes[i].Dir? then 2 + DirCount(nodes[..i])
    else if nodes[i].data == [] then 0
    else 2 + DirCount(nodes) + |FileClusters(nodes[..i])|
  }

  function Length(n: Node): nat { if n.Dir? then 1 else |NodeChunks(n)| }

  function Fat(nodes: seq<Node>): (t: seq<nat>)
    ensures |t| == 2 + DirCount(nodes) + |FileClusters(nodes)|
  {
    FatHead(nodes) + FileLinks(nodes, 2 + DirCount(nodes))
  }

  lemma {:induction false} DirCountGrows(nodes: seq<Node>, i: nat)
    requires i < |nodes|
    ensures DirCount(nodes[..i]) + (if nodes[i].Dir? then 1 else 0) <= DirCount(nodes)
    decreases |nodes|
  {
    if i < |nodes| - 1 {
      DirCountGrows(nodes[..|nodes| - 1], i);
      assert nodes[..|nodes| - 1][..i] == nodes[..i];
    }
  }

  lemma {:induction false} EarlierClusters(nodes: seq<Node>, k: nat)
    requires k <= |nodes|
    ensures FileClusters(nodes[..k]) <= FileClusters(nodes)
    decreases |nodes|
  {
    if k == |nodes| {
      assert nodes[..k] == nodes;
    } else {
      EarlierClusters(nodes[..|nodes| - 1], k);
      assert nodes[..|nodes| - 1][..k] == nodes[..k];
    }
  }

  lemma {:induction false} EarlierLinks(counts: seq<nat>, base: nat, k: nat)
    requires k <= |counts|
    ensures LinksOf(counts[..k], base) <= LinksOf(counts, base)
    decreases |counts|
  {
    if k == |counts| {
      assert counts[..k] == counts;
    } else {
      EarlierLinks(counts[..|counts| - 1], base, k);
      assert counts[..|counts| - 1][..k] == counts[..k];
    }
  }

  lemma {:induction false} PrefixMiddle(a: seq<Bytes>, m: seq<Bytes>, all: seq<Bytes>)
    requires a + m <= all
    ensures |a| + |m| <= |all| && all[|a|..|a| + |m|] == m
  {
    assert all[|a|..|a| + |m|] == (a + m)[|a|..];
  }

  lemma {:induction false} LinksMiddle(a: seq<nat>, m: seq<nat>, b: seq<nat>, all: seq<nat>, at: nat, n: nat)
    requires b == a + m && b <= all && |a| == at && |m| == n
    ensures at + n <= |all| && all[at..at + n] == m
  {
    assert all[at..at + n] == b[at..];
  }

  lemma {:induction false} FileClustersSnoc(nodes: seq<Node>, last: Node)
    ensures FileClusters(nodes + [last]) == FileClusters(nodes) + NodeChunks(last)
  {
    assert (nodes + [last])[..|nodes + [last]| - 1] == nodes;
  }

  lemma {:induction false} OneMore(nodes: seq<Node>, i: nat)
    requires i < |nodes|
    ensures nodes[..i + 1] == nodes[..i] + [nodes[i]]
  {}

  /** A file's clusters stand together in the list. */
  lemma {:induction false} ClustersPlace(nodes: seq<Node>, i: nat)
    requires i < |nodes|
    ensures var at, n := |FileClusters(nodes[..i])|, |NodeChunks(nodes[i])|;
            at + n <= |FileClusters(nodes)| && FileClusters(nodes)[at..at + n] == NodeChunks(nodes[i])
  {
    OneMore(nodes, i);
    FileClustersSnoc(nodes[..i], nodes[i]);
    EarlierClusters(nodes, i + 1);
    PrefixMiddle(FileClusters(nodes[..i]), NodeChunks(nodes[i]), FileClusters(nodes));
  }

  /** And so do the links of one chain. */
  lemma {:induction false} LinksPlace(counts: seq<nat>, base: nat, i: nat)
    requires i < |counts|
    ensures var at := Total(counts[..i]);
            at + counts[i] <= |LinksOf(counts, base)| && LinksOf(counts, base)[at..at + counts[i]] == Links(base + at, counts[i])
  {
    var at, n := Total(counts[..i]), counts[i];
    assert counts[..i + 1][..i] == counts[..i];
    EarlierLinks(counts, base, i + 1);
    LinksMiddle(LinksOf(counts[..i], base), Links(base + at, n), LinksOf(counts[..i + 1], base), LinksOf(counts, base), at, n);
  }

  lemma {:induction false} CountsBefore(nodes: seq<Node>, i: nat)
    requires i < |nodes|
    ensures Total(Counts(nodes)[..i]) == |FileClusters(nodes[..i])| && Counts(nodes)[i] == |NodeChunks(nodes[i])|
  {
    assert Counts(nodes)[..i] == Counts(nodes[..i]);
    CountsTotal(nodes[..i]);
  }

  /** Links read at their place in a table make a chain. */
  lemma {:induction false} LinksAreChained(table: seq<nat>, head: seq<nat>, links: seq<nat>, at: nat, n: nat)
    requires table == head + links && 2 <= |head| && |table| <= MAX_ENTRIES && 0 < n && at + n <= |links|
    requires links[at..at + n] == Links(|head| + at, n)
    ensures Chained(table, |head| + at, n)
  {
    var first := |head| + at;
    forall c | first <= c < first + n ensures table[c] == if c + 1 == first + n then END_OF_CHAIN else c + 1 {
      assert table[c] == links[c - |head|] == links[at..at + n][c - first];
    }
  }

  /** Every directory and every file with data has its chain, ended properly. */
  lemma {:induction false} NodeIsChained(nodes: seq<Node>, i: nat)
    requires i < |nodes| && |Fat(nodes)| <= MAX_ENTRIES && Length(nodes[i]) > 0
    ensures Chained(Fat(nodes), First(nodes, i), Length(nodes[i]))
  {
    if nodes[i].File? { FileIsChained(nodes, i); } else { DirIsChained(nodes, i); }
  }

  function FatHead(nodes: seq<Node>): (h: seq<nat>)
    ensures |h| == 2 + DirCount(nodes) && h[0] == 0xFFF8 && forall c :: 1 <= c < |h| ==> h[c] == END_OF_CHAIN
  {
    [0xFFF8, 0xFFFF] + seq(DirCount(nodes), _ => END_OF_CHAIN)
  }

  lemma {:induction false} DirIsChained(nodes: seq<Node>, i: nat)
    requires i < |nodes| && |Fat(nodes)| <= MAX_ENTRIES && nodes[i].Dir?
    ensures Chained(Fat(nodes), First(nodes, i), 1)
  {
    DirCountGrows(nodes, i);
    assert Fat(nodes)[First(nodes, i)] == FatHead(nodes)[First(nodes, i)];
  }

  lemma {:induction false} FileIsChained(nodes: seq<Node>, i: nat)
    requires i < |nodes| && |Fat(nodes)| <= MAX_ENTRIES && nodes[i].File? && nodes[i].data != []
    ensures Chained(Fat(nodes), First(nodes, i), |NodeChunks(nodes[i])|)
  {
    FileChainAt(nodes, i, |FileClusters(nodes[..i])|, |NodeChunks(nodes[i])|);
  }

  lemma {:induction false} FileChainAt(nodes: seq<Node>, i: nat, at: nat, n: nat)
    requires i < |nodes| && |Fat(nodes)| <= MAX_ENTRIES
    requires at == |FileClusters(nodes[..i])| && 0 < n == |NodeChunks(nodes[i])|
    ensures Chained(Fat(nodes), 2 + DirCount(nodes) + at, n)
  {
    CountsBefore(nodes, i);
    FatIs(nodes, 2 + DirCount(nodes));
    CountedChain(Fat(nodes), FatHead(nodes), Counts(nodes), 2 + DirCount(nodes), i);
  }

  lemma {:induction false} CountedChain(table: seq<nat>, head: seq<nat>, counts: seq<nat>, base: nat, i: nat)
    requires table == head + LinksOf(counts, base) && 2 <= |head| == base && |table| <= MAX_ENTRIES
    requires i < |counts| && 0 < counts[i]
    ensures Chained(table, base + Total(counts[..i]), counts[i])
  {
    LinksPlace(counts, base, i);
    ChainedLinks(table, head, LinksOf(counts, base), base, Total(counts[..i]), counts[i]);
  }

  lemma {:induction false} ChainedLinks(table: seq<nat>, head: seq<nat>, links: seq<nat>, base: nat, at: nat, n: nat)
    requires table == head + links && 2 <= |head| == base && |table| <= MAX_ENTRIES && 0 < n && at + n <= |links|
    requires links[at..at + n] == Links(base + at, n)
    ensures Chained(table, base + at, n)
  {
    LinksAreChained(table, head, links, at, n);
  }

  lemma {:induction false} FatIs(nodes: seq<Node>, base: nat)
    requires base == 2 + DirCount(nodes)
    ensures |FatHead(nodes)| == base && Fat(nodes) == FatHead(nodes) + LinksOf(Counts(nodes), base)
  {
  }

  lemma {:induction false} FileClustersGrow(nodes: seq<Node>, i: nat, j: nat)
    requires i < j <= |nodes|
    ensures |FileClusters(nodes[..i])| + |NodeChunks(nodes[i])| <= |FileClusters(nodes[..j])|
    decreases j
  {
    assert nodes[..j][..j - 1] == nodes[..j - 1];
    if i < j - 1 { FileClustersGrow(nodes, i, j - 1); }
  }

  lemma {:induction false} DirCountIncreases(nodes: seq<Node>, i: nat, j: nat)
    requires i < j <= |nodes| && nodes[i].Dir?
    ensures DirCount(nodes[..i]) < DirCount(nodes[..j])
    decreases j
  {
    assert nodes[..j][..j - 1] == nodes[..j - 1];
    if i < j - 1 { DirCountIncreases(nodes, i, j - 1); }
  }

  /** No two chains share a cluster. */
  lemma {:induction false} ChainsAreDisjoint(nodes: seq<Node>, i: nat, j: nat)
    requires i < j < |nodes| && Length(nodes[i]) > 0 && Length(nodes[j]) > 0
    ensures First(nodes, i) + Length(nodes[i]) <= First(nodes, j) || First(nodes, j) + Length(nodes[j]) <= First(nodes, i)
  {
    DirCountGrows(nodes, i);
    DirCountGrows(nodes, j);
    FileClustersGrow(nodes, i, j);
    if nodes[i].Dir? { DirCountIncreases(nodes, i, j); }
  }

  lemma {:induction false} LinksAreSmall(counts: seq<nat>, base: nat)
    requires base + Total(counts) <= MAX_ENTRIES
    ensures forall k :: 0 <= k < |LinksOf(counts, base)| ==> LinksOf(counts, base)[k] < 0x10000
    decreases |counts|
  {
    if counts != [] { LinksAreSmall(counts[..|counts| - 1], base); }
  }

  lemma {:induction false} FatEntriesFit(nodes: seq<Node>)
    requires |Fat(nodes)| <= MAX_ENTRIES
    ensures forall c :: 0 <= c < |Fat(nodes)| ==> Fat(nodes)[c] < 0x10000
  {
    CountsTotal(nodes);
    LinksAreSmall(Counts(nodes), 2 + DirCount(nodes));
    var head, links := FatHead(nodes), FileLinks(nodes, 2 + DirCount(nodes));
    forall c | 0 <= c < |Fat(nodes)| ensures Fat(nodes)[c] < 0x10000 {
      assert Fat(nodes)[c] == if c < |head| then head[c] else links[c - |head|];
    }
  }
}
