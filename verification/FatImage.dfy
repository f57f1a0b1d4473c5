/** FatBuilder.build (scripts/make_live_iso.py): a tree of files becomes a FAT16
    image, and a reader that knows of the image only that a table entry has 16
    bits gets the tree back. */
module FatImage {
  import opened FatBytes
  import opened FatNames
  import opened FatRecords
  import opened FatVolume
  import opened FatTree
  import opened FatDirs
  import opened FatChains

  // ----- Directories -------------------------------------------------------

  function Locate(nodes: seq<Node>, p: Path, k: nat): (j: nat)
    requires k <= |nodes|
    ensures k <= j <= |nodes| && (j < |nodes| ==> nodes[j].Dir? && nodes[j].path == p)
    decreases |nodes| - k
  {
    if k == |nodes| || (nodes[k].Dir? && nodes[k].path == p) then k else Locate(nodes, p, k + 1)
  }

  /** The first cluster of directory `p`; the root has none. */
  function DirFirst(nodes: seq<Node>, p: Path): nat {
    if p == [] || Locate(nodes, p, 0) == |nodes| then 0 else First(nodes, Locate(nodes, p, 0))
  }

  lemma {:induction false} DirFirstFits(nodes: seq<Node>, shorts: seq<Bytes>, p: Path)
    requires Ready(nodes, shorts)
    ensures DirFirst(nodes, p) < 0x10000
  {
    var j := Locate(nodes, p, 0);
    if j < |nodes| { assert Fitting(nodes, shorts, j); }
  }

  function NodeRecords(nodes: seq<Node>, shorts: seq<Bytes>, i: nat): (r: seq<Bytes>)
    requires Ready(nodes, shorts) && i < |nodes|
    ensures Sized(r, RECORD)
  {
    assert Fitting(nodes, shorts, i);
    DirFirstFits(nodes, shorts, Parent(nodes[i].path));
    DirRecords(nodes, shorts, nodes[i].path, First(nodes, i), DirFirst(nodes, Parent(nodes[i].path)))
  }

  predicate DirFits(nodes: seq<Node>, shorts: seq<Bytes>, i: nat)
    requires Ready(nodes, shorts) && i < |nodes|
  {
    nodes[i].Dir? ==> |Flatten(NodeRecords(nodes, shorts, i))| <= CLUSTER
  }

  predicate DirsFit(nodes: seq<Node>, shorts: seq<Bytes>)
    requires Ready(nodes, shorts)
  {
    forall i :: 0 <= i < |nodes| ==> DirFits(nodes, shorts, i)
  }

  function NodeRegion(nodes: seq<Node>, shorts: seq<Bytes>, i: nat): (r: Bytes)
    requires Ready(nodes, shorts) && i < |nodes| && DirFits(nodes, shorts, i)
    ensures nodes[i].Dir? ==> |r| == CLUSTER
  {
    if nodes[i].Dir? then Region(NodeRecords(nodes, shorts, i), CLUSTER) else []
  }

  /** The bytes of every directory of the listing. */
  function Regions(nodes: seq<Node>, shorts: seq<Bytes>): (r: seq<Bytes>)
    requires Ready(nodes, shorts) && DirsFit(nodes, shorts)
    ensures RegionsOk(nodes, r)
  {
    seq(|nodes|, i requires 0 <= i < |nodes| && DirFits(nodes, shorts, i) => NodeRegion(nodes, shorts, i))
  }

  lemma {:induction false} RegionListsKids(nodes: seq<Node>, shorts: seq<Bytes>, i: nat)
    requires Ready(nodes, shorts) && i < |nodes| && DirFits(nodes, shorts, i) && nodes[i].Dir?
    ensures ListsKids(nodes, nodes[i].path, NodeRegion(nodes, shorts, i))
  {
    assert Fitting(nodes, shorts, i);
    var self, up := First(nodes, i), DirFirst(nodes, Parent(nodes[i].path));
    DirFirstFits(nodes, shorts, Parent(nodes[i].path));
    DirListing(nodes, shorts, nodes[i].path, self, up, CLUSTER);
    DotsDoNotCount(self, up, Items(nodes, Kids(nodes, nodes[i].path)));
  }

  lemma {:induction false} DotsDoNotCount(self: nat, up: nat, items: seq<Item>)
    ensures forall name :: Supported(name) ==> Find(DotItems(self, up) + items, name) == Find(items, name)
  {
    forall name | Supported(name) ensures Find(DotItems(self, up) + items, name) == Find(items, name) {
      assert DotItems(self, up)[0].name[0] == DOT && DotItems(self, up)[1].name[0] == DOT;
      FindSkips(DotItems(self, up), items, name);
    }
  }

  // ----- The build ---------------------------------------------------------

  datatype Error = NoAlias | FieldOverflow | DirectoryTooLarge | TooManyClusters | RootTooLarge
  datatype Result = Built(image: Bytes) | Failed(error: Error)

  /** The cluster numbers and sizes fit their record fields. */
  predicate FieldsFit(nodes: seq<Node>) {
    forall i :: 0 <= i < |nodes| ==> FieldFits(nodes, i)
  }

  predicate FieldFits(nodes: seq<Node>, i: nat)
    requires i < |nodes|
  {
    First(nodes, i) < 0x10000 && Size(nodes[i]) < 0x1_0000_0000
  }

  lemma {:induction false} ShortsReady(nodes: seq<Node>)
    requires Named(nodes) && Shorts(nodes).Some? && FieldsFit(nodes)
    ensures Ready(nodes, Shorts(nodes).value)
  {
    forall i | 0 <= i < |nodes| ensures Fitting(nodes, Shorts(nodes).value, i) {
      ShortStarts(nodes, i);
      assert FieldFits(nodes, i);
    }
  }

  function VolumeOf(nodes: seq<Node>, regions: seq<Bytes>, root: Bytes): (v: Volume)
    requires RegionsOk(nodes, regions) && |root| == ROOT_BYTES && |Fat(nodes)| <= MAX_ENTRIES
    ensures FatVolume.Ok(v)
  {
    FatEntriesFit(nodes);
    Volume(Fat(nodes), root, Clusters(nodes, regions))
  }

  /** The build, with its refusals in the order it meets them. */
  function Build(nodes: seq<Node>, tag: Bytes, serial: nat): Result
    requires Named(nodes) && |tag| == 11
  {
    if Shorts(nodes).None? then Failed(NoAlias)
    else if !FieldsFit(nodes) then Failed(FieldOverflow)
    else
      var shorts := Shorts(nodes).value;
      ShortsReady(nodes);
      if !DirsFit(nodes, shorts) then Failed(DirectoryTooLarge)
      else if |Fat(nodes)| > MAX_ENTRIES then Failed(TooManyClusters)
      else if |Flatten(RootRecords(nodes, shorts, tag))| > ROOT_BYTES then Failed(RootTooLarge)
      else if serial >= 0x1_0000_0000 then Failed(FieldOverflow)
      else
        var root := Region(RootRecords(nodes, shorts, tag), ROOT_BYTES);
        Built(Image(VolumeOf(nodes, Regions(nodes, shorts), root), tag, serial))
  }

  // ----- The reader on a built image ---------------------------------------

  lemma {:induction false} VolumeReadsNode(img: Bytes, nodes: seq<Node>, regions: seq<Bytes>, v: Volume, i: nat)
    requires Named(nodes) && RegionsOk(nodes, regions) && |Fat(nodes)| <= MAX_ENTRIES && i < |nodes|
    requires v.table == Fat(nodes) && v.clusters == Clusters(nodes, regions) && Shows(img, v)
    requires nodes[i].Dir? ==> ListsKids(nodes, nodes[i].path, regions[i])
    ensures ReadsNode(img, nodes, regions, i)
  {
    if nodes[i].Dir? { ReadsDir(img, nodes, regions, v, i); } else { ReadsFile(img, nodes, regions, v, i); }
  }

  lemma {:induction false} VolumeSees(nodes: seq<Node>, regions: seq<Bytes>, root: Bytes, tag: Bytes, serial: nat)
    requires TreeOk(nodes) && RegionsOk(nodes, regions) && |root| == ROOT_BYTES && |Fat(nodes)| <= MAX_ENTRIES
    requires |tag| == 11 && serial < 0x1_0000_0000 && ListsKids(nodes, [], root)
    requires forall i :: 0 <= i < |nodes| && nodes[i].Dir? ==> ListsKids(nodes, nodes[i].path, regions[i])
    ensures Sees(Image(VolumeOf(nodes, regions, root), tag, serial), nodes, regions)
  {
    var v := VolumeOf(nodes, regions, root);
    ImageShows(v, tag, serial);
    ReadsRoot(v, tag, serial);
    var img := Image(v, tag, serial);
    forall i | 0 <= i < |nodes| ensures ReadsNode(img, nodes, regions, i) { VolumeReadsNode(img, nodes, regions, v, i); }
  }

  lemma {:induction false} RegionsListKids(nodes: seq<Node>, shorts: seq<Bytes>)
    requires Ready(nodes, shorts) && DirsFit(nodes, shorts)
    ensures forall i :: 0 <= i < |nodes| && nodes[i].Dir? ==> ListsKids(nodes, nodes[i].path, Regions(nodes, shorts)[i])
  {
    forall i | 0 <= i < |nodes| && nodes[i].Dir? ensures ListsKids(nodes, nodes[i].path, Regions(nodes, shorts)[i]) {
      assert DirFits(nodes, shorts, i);
      RegionListsKids(nodes, shorts, i);
    }
  }

  lemma {:induction false} BuiltSees(nodes: seq<Node>, tag: Bytes, serial: nat) returns (regions: seq<Bytes>)
    requires TreeOk(nodes) && |tag| == 11 && tag[0] != 0 && Build(nodes, tag, serial).Built?
    ensures Sees(Build(nodes, tag, serial).image, nodes, regions)
    ensures Shorts(nodes).Some? && Ready(nodes, Shorts(nodes).value) && DirsFit(nodes, Shorts(nodes).value)
    ensures regions == Regions(nodes, Shorts(nodes).value)
  {
    ShortsReady(nodes);
    var shorts := Shorts(nodes).value;
    regions := Regions(nodes, shorts);
    RegionsListKids(nodes, shorts);
    RootListing(nodes, shorts, tag, ROOT_BYTES);
    VolumeSees(nodes, regions, Region(RootRecords(nodes, shorts, tag), ROOT_BYTES), tag, serial);
  }

  lemma {:induction false} BuiltRoot(nodes: seq<Node>, tag: Bytes, serial: nat)
    requires TreeOk(nodes) && |tag| == 11 && Build(nodes, tag, serial).Built?
    ensures SECTOR <= |Build(nodes, tag, serial).image|
    ensures Shorts(nodes).Some? && Ready(nodes, Shorts(nodes).value)
    ensures |Flatten(RootRecords(nodes, Shorts(nodes).value, tag))| <= ROOT_BYTES
    ensures RootRegion(Build(nodes, tag, serial).image) == Region(RootRecords(nodes, Shorts(nodes).value, tag), ROOT_BYTES)
  {
    ShortsReady(nodes);
    var shorts := Shorts(nodes).value;
    ReadsRoot(VolumeOf(nodes, Regions(nodes, shorts), Region(RootRecords(nodes, shorts, tag), ROOT_BYTES)), tag, serial);
  }

  // ----- The image holds the tree ------------------------------------------

  datatype Content = Nothing | Folder | Holds(data: Bytes)

  ghost predicate TreeHas(nodes: seq<Node>, p: Path, c: Content) {
    match c
    case Nothing => p != [] && !HasPath(nodes, p)
    case Folder => IsDir(nodes, p)
    case Holds(data) => exists i :: 0 <= i < |nodes| && nodes[i] == File(p, data)
  }

  function ContentAt(img: Bytes, p: Path): Content
    requires SECTOR <= |img|
  {
    match Look(img, p)
    case Missing => Nothing
    case Folder(_) => Content.Folder
    case Data(b) => Holds(b)
  }

  /** The round trip: at every path that could have been added, the built image
      holds exactly what the tree has there, whether a file's bytes, a directory
      or nothing. */
  lemma {:induction false} ImageHoldsTree(nodes: seq<Node>, tag: Bytes, serial: nat, p: Path)
    requires TreeOk(nodes) && |tag| == 11 && tag[0] != 0 && Build(nodes, tag, serial).Built? && Nameable(p)
    ensures SECTOR <= |Build(nodes, tag, serial).image|
    ensures forall c :: ContentAt(Build(nodes, tag, serial).image, p) == c <==> TreeHas(nodes, p, c)
  {
    var regions := BuiltSees(nodes, tag, serial);
    SeesTree(Build(nodes, tag, serial).image, nodes, regions, p);
  }

  lemma {:induction false} SeesTree(img: Bytes, nodes: seq<Node>, regions: seq<Bytes>, p: Path)
    requires Sees(img, nodes, regions) && Nameable(p)
    ensures forall c :: ContentAt(img, p) == c <==> TreeHas(nodes, p, c)
  {
    LookIsTree(img, nodes, regions, p);
    if p == [] {
      assert TreeIs(nodes, p, Content.Folder);
    } else if i :| 0 <= i < |nodes| && nodes[i].path == p {
      assert Look(img, p) == Expected(nodes, regions, i);
      NodeIs(nodes, i);
    } else {
      assert TreeIs(nodes, p, Nothing);
    }
  }

  /** The tree has `c` at `p` and nothing else. */
  ghost predicate TreeIs(nodes: seq<Node>, p: Path, c: Content) {
    forall d :: TreeHas(nodes, p, d) <==> d == c
  }

  lemma {:induction false} NodeIs(nodes: seq<Node>, i: nat)
    requires TreeOk(nodes) && i < |nodes|
    ensures TreeIs(nodes, nodes[i].path, if nodes[i].Dir? then Content.Folder else Holds(nodes[i].data))
  {
    var n, p := nodes[i], nodes[i].path;
    assert n == if n.Dir? then Dir(p) else File(p, n.data);
    forall j | 0 <= j < |nodes| && nodes[j].path == p ensures j == i {}
  }

  lemma {:induction false} GroupsAreShort(nodes: seq<Node>, shorts: seq<Bytes>, kids: seq<nat>)
    requires Ready(nodes, shorts) && FatDirs.Indices(nodes, kids)
    ensures |Groups(nodes, shorts, kids)| <= 21 * |kids|
  {
    if kids != [] { GroupsAreShort(nodes, shorts, kids[1..]); }
  }

  lemma {:induction false} KidsAreFew(nodes: seq<Node>, p: Path, n: nat)
    requires n <= |nodes|
    ensures |KidsUpTo(nodes, p, true, n)| + |KidsUpTo(nodes, p, false, n)| <= n
  {
    if n > 0 { KidsAreFew(nodes, p, n - 1); }
  }

  lemma {:induction false} FewRecords(nodes: seq<Node>, shorts: seq<Bytes>, p: Path, head: seq<Bytes>)
    requires Ready(nodes, shorts) && |nodes| <= 6 && |head| <= 2 && Sized(head, RECORD)
    ensures |Flatten(head + Groups(nodes, shorts, Kids(nodes, p)))| <= CLUSTER
  {
    KidsAreFew(nodes, p, |nodes|);
    GroupsAreShort(nodes, shorts, Kids(nodes, p));
    FlattenLength(head + Groups(nodes, shorts, Kids(nodes, p)), RECORD);
  }

  lemma {:induction false} FewDirsFit(nodes: seq<Node>, shorts: seq<Bytes>)
    requires Ready(nodes, shorts) && |nodes| <= 6
    ensures DirsFit(nodes, shorts)
  {
    forall i | 0 <= i < |nodes| ensures DirFits(nodes, shorts, i) {
      assert Fitting(nodes, shorts, i);
      DirFirstFits(nodes, shorts, Parent(nodes[i].path));
      FewRecords(nodes, shorts, nodes[i].path, DotRecords(First(nodes, i), DirFirst(nodes, Parent(nodes[i].path))));
    }
  }

  /** A tree of at most six nodes is refused only for the size of its files. */
  lemma {:induction false} SmallTreeBuilds(nodes: seq<Node>, tag: Bytes, serial: nat)
    requires Named(nodes) && |nodes| <= 6 && FieldsFit(nodes) && |Fat(nodes)| <= MAX_ENTRIES
    requires |tag| == 11 && serial < 0x1_0000_0000
    ensures Build(nodes, tag, serial).Built?
  {
    ShortNamesExist(nodes);
    ShortsReady(nodes);
    var shorts := Shorts(nodes).value;
    FewDirsFit(nodes, shorts);
    FewRecords(nodes, shorts, [], [LabelRecord(tag)]);
  }

  /** A reader that goes by the number of clusters takes the image for FAT16 if and
      only if it has at least 4085 of them, and for FAT12 otherwise. */
  lemma {:induction false} BuiltType(nodes: seq<Node>, tag: Bytes, serial: nat)
    requires TreeOk(nodes) && |tag| == 11 && Build(nodes, tag, serial).Built?
    ensures SECTOR <= |Build(nodes, tag, serial).image|
    ensures TypeOf(Build(nodes, tag, serial).image) == if |Fat(nodes)| - 2 >= 4085 then Fat16 else Fat12
  {
    ShortsReady(nodes);
    var shorts := Shorts(nodes).value;
    var root := Region(RootRecords(nodes, shorts, tag), ROOT_BYTES);
    TypeByCount(VolumeOf(nodes, Regions(nodes, shorts), root), tag, serial);
  }

  /** The final size test cannot fail: the image is as long as its boot sector
      says, before any padding. */
  lemma {:induction false} BuiltSize(nodes: seq<Node>, tag: Bytes, serial: nat)
    requires TreeOk(nodes) && |tag| == 11 && Build(nodes, tag, serial).Built?
    ensures |Build(nodes, tag, serial).image| ==
            (1 + 2 * FatSectors(|Fat(nodes)|) + 32 + (|Fat(nodes)| - 2) * 8) * SECTOR
  {
    ShortsReady(nodes);
    var shorts := Shorts(nodes).value;
    var root := Region(RootRecords(nodes, shorts, tag), ROOT_BYTES);
    ImageSize(VolumeOf(nodes, Regions(nodes, shorts), root), tag, serial);
  }
}
