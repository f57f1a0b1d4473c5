/** Reading a built volume back, whatever the directories' bytes are: each
    directory's cluster and each file's data come back from their chains, and a
    path is followed through listings (scripts/make_live_iso.py). */
module FatChains {
  import opened FatBytes
  import opened FatNames
  import opened FatRecords
  import opened FatVolume
  import opened FatTree
  import opened FatDirs

  /** Where the directories are in the listing. */
  function DirNodes(nodes: seq<Node>): (r: seq<nat>)
    ensures |r| == DirCount(nodes)
    ensures forall k :: 0 <= k < |r| ==> r[k] < |nodes| && nodes[r[k]].Dir?
  {
    if nodes == [] then []
    else
      var n := |nodes| - 1;
      assert forall k :: 0 <= k < n ==> nodes[..n][k] == nodes[k];
      DirNodes(nodes[..n]) + if nodes[n].Dir? then [n] else []
  }

  lemma {:induction false} DirNodesFinds(nodes: seq<Node>, i: nat)
    requires i < |nodes| && nodes[i].Dir?
    ensures DirCount(nodes[..i]) < |DirNodes(nodes)| && DirNodes(nodes)[DirCount(nodes[..i])] == i
    decreases |nodes|
  {
    var n := |nodes| - 1;
    if i < n {
      DirNodesFinds(nodes[..n], i);
      assert nodes[..n][..i] == nodes[..i];
    } else {
      assert nodes[..n] == nodes[..i];
    }
  }

  /** Every directory of the listing has one cluster's worth of bytes. */
  predicate RegionsOk(nodes: seq<Node>, regions: seq<Bytes>) {
    |regions| == |nodes| && forall i :: 0 <= i < |nodes| && nodes[i].Dir? ==> |regions[i]| == CLUSTER
  }

  function DirClusters(nodes: seq<Node>, regions: seq<Bytes>): (r: seq<Bytes>)
    requires RegionsOk(nodes, regions)
    ensures |r| == DirCount(nodes) && Sized(r, CLUSTER)
    ensures forall k :: 0 <= k < |r| ==> r[k] == regions[DirNodes(nodes)[k]]
  {
    var dirs := DirNodes(nodes);
    assert forall k :: 0 <= k < |dirs| ==> |regions[dirs[k]]| == CLUSTER;
    seq(|dirs|, k requires 0 <= k < |dirs| => regions[dirs[k]])
  }

  /** One cluster per directory, then the clusters of the files. */
  function Clusters(nodes: seq<Node>, regions: seq<Bytes>): (r: seq<Bytes>)
    requires RegionsOk(nodes, regions)
    ensures |r| == DirCount(nodes) + |FileClusters(nodes)| && Sized(r, CLUSTER)
  {
    DirClusters(nodes, regions) + FileClusters(nodes)
  }

  // ----- Chains ------------------------------------------------------------

  lemma {:induction false} ReadsDir(img: Bytes, nodes: seq<Node>, regions: seq<Bytes>, v: Volume, i: nat)
    requires RegionsOk(nodes, regions) && |Fat(nodes)| <= MAX_ENTRIES && i < |nodes| && nodes[i].Dir?
    requires v.table == Fat(nodes) && v.clusters == Clusters(nodes, regions) && Shows(img, v)
    ensures ReadChain(img, First(nodes, i)) == regions[i]
  {
    DirIsChained(nodes, i);
    DirInClusters(nodes, regions, i);
    OneOfBoth(DirClusters(nodes, regions), FileClusters(nodes), First(nodes, i) - 2, regions[i]);
    ReadsChain(img, v, First(nodes, i), [regions[i]]);
    FlattenOne(regions[i]);
  }

  lemma {:induction false} DirInClusters(nodes: seq<Node>, regions: seq<Bytes>, i: nat)
    requires RegionsOk(nodes, regions) && i < |nodes| && nodes[i].Dir?
    ensures 2 <= First(nodes, i) < 2 + |DirClusters(nodes, regions)| && DirClusters(nodes, regions)[First(nodes, i) - 2] == regions[i]
  {
    DirNodesFinds(nodes, i);
  }

  lemma {:induction false} OneOfBoth(dirs: seq<Bytes>, files: seq<Bytes>, at: nat, one: Bytes)
    requires at < |dirs| && dirs[at] == one
    ensures (dirs + files)[at..at + 1] == [one]
  {}

  lemma {:induction false} PartOfBoth(all: seq<Bytes>, dirs: seq<Bytes>, files: seq<Bytes>, at: nat, from: nat, part: seq<Bytes>)
    requires PartAt(files, at, part) && all == dirs + files && from == |dirs| + at
    ensures PartAt(all, from, part)
  {}

  lemma {:induction false} ReadsFileChain(img: Bytes, nodes: seq<Node>, regions: seq<Bytes>, v: Volume, i: nat)
    requires RegionsOk(nodes, regions) && |Fat(nodes)| <= MAX_ENTRIES && i < |nodes| && nodes[i].File? && nodes[i].data != []
    requires v.table == Fat(nodes) && v.clusters == Clusters(nodes, regions) && Shows(img, v)
    ensures ReadChain(img, First(nodes, i)) == Flatten(NodeChunks(nodes[i]))
  {
    FileIsChained(nodes, i);
    var first, part := FileInClusters(nodes, DirClusters(nodes, regions), v.clusters, i);
    ReadsChain(img, v, first, part);
  }

  lemma {:induction false} FileInClusters(nodes: seq<Node>, dirs: seq<Bytes>, clusters: seq<Bytes>, i: nat)
    returns (first: nat, part: seq<Bytes>)
    requires i < |nodes| && nodes[i].File? && nodes[i].data != []
    requires |dirs| == DirCount(nodes) && clusters == dirs + FileClusters(nodes)
    ensures 2 <= first == First(nodes, i) && part == NodeChunks(nodes[i]) && PartAt(clusters, first - 2, part)
  {
    var at;
    first, at, part := FilePlace(nodes, i, FileClusters(nodes));
    PartOfBoth(clusters, dirs, FileClusters(nodes), at, first - 2, part);
  }

  predicate PartAt(files: seq<Bytes>, at: nat, part: seq<Bytes>) {
    at + |part| <= |files| && files[at..at + |part|] == part
  }

  lemma {:induction false} FilePlace(nodes: seq<Node>, i: nat, files: seq<Bytes>) returns (first: nat, at: nat, part: seq<Bytes>)
    requires i < |nodes| && nodes[i].File? && nodes[i].data != [] && files == FileClusters(nodes)
    ensures first == First(nodes, i) == 2 + DirCount(nodes) + at && part == NodeChunks(nodes[i]) && PartAt(files, at, part)
  {
    ClustersPlace(nodes, i);
    first := First(nodes, i);
    at, part := |FileClusters(nodes[..i])|, NodeChunks(nodes[i]);
  }

  function Take(b: Bytes, n: nat): Bytes { if n <= |b| then b[..n] else b }

  /** Following a file's chain and cutting it to its size gives its bytes. */
  lemma {:induction false} ReadsFile(img: Bytes, nodes: seq<Node>, regions: seq<Bytes>, v: Volume, i: nat)
    requires RegionsOk(nodes, regions) && |Fat(nodes)| <= MAX_ENTRIES && i < |nodes| && nodes[i].File?
    requires v.table == Fat(nodes) && v.clusters == Clusters(nodes, regions) && Shows(img, v)
    ensures Take(ReadChain(img, First(nodes, i)), |nodes[i].data|) == nodes[i].data
  {
    if nodes[i].data == [] {
      ReadsNothing(img);
    } else {
      ReadsFileChain(img, nodes, regions, v, i);
      ChunksHoldData(nodes[i].data, CLUSTER);
    }
  }

  // ----- No cluster is left over -------------------------------------------

  lemma {:induction false} DirNodeFirst(nodes: seq<Node>, k: nat)
    requires k < DirCount(nodes)
    ensures DirCount(nodes[..DirNodes(nodes)[k]]) == k
    decreases |nodes|
  {
    var n := |nodes| - 1;
    if k < DirCount(nodes[..n]) {
      DirNodeFirst(nodes[..n], k);
      assert nodes[..n][..DirNodes(nodes[..n])[k]] == nodes[..DirNodes(nodes)[k]];
    }
  }

  lemma {:induction false} FileOwner(nodes: seq<Node>, k: nat) returns (i: nat)
    requires k < |FileClusters(nodes)|
    ensures i < |nodes| && nodes[i].File?
    ensures |FileClusters(nodes[..i])| <= k < |FileClusters(nodes[..i])| + |NodeChunks(nodes[i])|
    decreases |nodes|
  {
    var n := |nodes| - 1;
    if k < |FileClusters(nodes[..n])| {
      i := FileOwner(nodes[..n], k);
      assert nodes[..n][..i] == nodes[..i];
    } else {
      i := n;
    }
  }

  /** Every cluster belongs to some chain: none has to be marked free. */
  lemma {:induction false} EveryClusterIsUsed(nodes: seq<Node>, c: nat) returns (i: nat)
    requires 2 <= c < |Fat(nodes)|
    ensures i < |nodes| && First(nodes, i) <= c < First(nodes, i) + Length(nodes[i])
  {
    var d := DirCount(nodes);
    if c - 2 < d {
      i := DirOwner(nodes, c - 2);
    } else {
      i := FileOwner(nodes, c - 2 - d);
    }
  }

  lemma {:induction false} DirOwner(nodes: seq<Node>, k: nat) returns (i: nat)
    requires k < DirCount(nodes)
    ensures i < |nodes| && nodes[i].Dir? && First(nodes, i) == 2 + k
  {
    DirNodeFirst(nodes, k);
    i := DirNodes(nodes)[k];
  }

  // ----- Following a path --------------------------------------------------

  datatype Sight = Missing | Folder(region: Bytes) | Data(bytes: Bytes)

  function Open(img: Bytes, item: Item): Sight
    requires SECTOR <= |img|
  {
    if item.attr as int / 16 % 2 == 1 then Folder(ReadChain(img, item.first))
    else Data(Take(ReadChain(img, item.first), item.size))
  }

  /** What an image holds at a path, one component at a time from the root. */
  function Look(img: Bytes, p: Path): Sight
    requires SECTOR <= |img|
    decreases |p|
  {
    if p == [] then Folder(RootRegion(img))
    else
      var up := Look(img, Parent(p));
      if !up.Folder? then Missing
      else
        var found := Find(Listing(up.region), Leaf(p));
        if found.None? then Missing else Open(img, found.value)
  }

  /** A region that lists what the tree has in directory `d`. */
  ghost predicate ListsKids(nodes: seq<Node>, d: Path, region: Bytes)
    requires Named(nodes)
  {
    forall name :: Supported(name) ==> Find(Listing(region), name) == Find(Items(nodes, Kids(nodes, d)), name)
  }

  /** What the reader gets for entry `i` is what the tree has there. */
  ghost predicate ReadsNode(img: Bytes, nodes: seq<Node>, regions: seq<Bytes>, i: nat)
    requires SECTOR <= |img| && Named(nodes) && i < |nodes| == |regions|
  {
    if nodes[i].Dir? then ReadChain(img, First(nodes, i)) == regions[i] && ListsKids(nodes, nodes[i].path, regions[i])
    else Take(ReadChain(img, First(nodes, i)), |nodes[i].data|) == nodes[i].data
  }

  ghost predicate Sees(img: Bytes, nodes: seq<Node>, regions: seq<Bytes>) {
    && SECTOR <= |img| && TreeOk(nodes) && |regions| == |nodes|
    && ListsKids(nodes, [], RootRegion(img))
    && forall i :: 0 <= i < |nodes| ==> ReadsNode(img, nodes, regions, i)
  }

  function Expected(nodes: seq<Node>, regions: seq<Bytes>, i: nat): Sight
    requires i < |nodes| == |regions|
  {
    if nodes[i].Dir? then Folder(regions[i]) else Data(nodes[i].data)
  }

  lemma {:induction false} OpenByKind(img: Bytes, item: Item)
    requires SECTOR <= |img| && (item.attr == DIR_ATTR || item.attr == FILE_ATTR)
    ensures Open(img, item) == if item.attr == DIR_ATTR then Folder(ReadChain(img, item.first))
                               else Data(Take(ReadChain(img, item.first), item.size))
  {}

  lemma {:induction false} OpensItem(img: Bytes, nodes: seq<Node>, regions: seq<Bytes>, i: nat)
    requires Sees(img, nodes, regions) && i < |nodes|
    ensures Open(img, KidItem(nodes, i)) == Expected(nodes, regions, i)
  {
    OpenByKind(img, KidItem(nodes, i));
    assert ReadsNode(img, nodes, regions, i);
  }

  /** One component further from a directory that was found. */
  lemma {:induction false} LookStep(img: Bytes, nodes: seq<Node>, regions: seq<Bytes>, p: Path)
    requires Sees(img, nodes, regions) && p != [] && Supported(Leaf(p))
    requires Look(img, Parent(p)).Folder? && ListsKids(nodes, Parent(p), Look(img, Parent(p)).region)
    ensures forall i :: 0 <= i < |nodes| && nodes[i].path == p ==> Look(img, p) == Expected(nodes, regions, i)
    ensures !HasPath(nodes, p) ==> Look(img, p) == Missing
  {
    forall i | 0 <= i < |nodes| && nodes[i].path == p ensures Look(img, p) == Expected(nodes, regions, i) {
      FindKid(nodes, p, i);
      OpensItem(img, nodes, regions, i);
    }
    if !HasPath(nodes, p) { FindNoKid(nodes, p); }
  }

  /** A path of names that could have been added. */
  predicate Nameable(p: Path) {
    forall k :: 0 <= k < |p| ==> Supported(p[k])
  }

  /** Reading any path of the image gives what the tree has there. */
  lemma {:induction false} LookIsTree(img: Bytes, nodes: seq<Node>, regions: seq<Bytes>, p: Path)
    requires Sees(img, nodes, regions) && Nameable(p)
    ensures p == [] ==> Look(img, p).Folder? && ListsKids(nodes, p, Look(img, p).region)
    ensures forall i :: 0 <= i < |nodes| && nodes[i].path == p ==> Look(img, p) == Expected(nodes, regions, i)
    ensures p != [] && !HasPath(nodes, p) ==> Look(img, p) == Missing
    decreases |p|
  {
    if p != [] {
      LookIsTree(img, nodes, regions, Parent(p));
      if IsDir(nodes, Parent(p)) {
        if Parent(p) != [] {
          var j :| 0 <= j < |nodes| && nodes[j].Dir? && nodes[j].path == Parent(p);
          assert ReadsNode(img, nodes, regions, j);
        }
        LookStep(img, nodes, regions, p);
      } else {
        LookBelowNothing(img, nodes, regions, p);
      }
    }
  }

  lemma {:induction false} ParentIsDir(nodes: seq<Node>, p: Path)
    requires TreeOk(nodes) && p != [] && HasPath(nodes, p)
    ensures IsDir(nodes, Parent(p))
  {
    var i :| 0 <= i < |nodes| && nodes[i].path == p;
    assert Housed(nodes, i);
  }

  /** Below a file, or below nothing, there is nothing. */
  lemma {:induction false} LookBelowNothing(img: Bytes, nodes: seq<Node>, regions: seq<Bytes>, p: Path)
    requires Sees(img, nodes, regions) && p != [] && !IsDir(nodes, Parent(p))
    requires forall i :: 0 <= i < |nodes| && nodes[i].path == Parent(p) ==> Look(img, Parent(p)) == Expected(nodes, regions, i)
    requires !HasPath(nodes, Parent(p)) ==> Look(img, Parent(p)) == Missing
    ensures Look(img, p) == Missing && !HasPath(nodes, p)
  {
    if HasPath(nodes, p) { ParentIsDir(nodes, p); }
    if HasPath(nodes, Parent(p)) {
      var i :| 0 <= i < |nodes| && nodes[i].path == Parent(p);
      assert nodes[i].File?;
    }
  }
}
