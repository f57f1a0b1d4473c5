/** FatBuilder (scripts/make_live_iso.py) as it runs: the set of files and
    directories it collects, and what becomes of them in the image. */
module FatBuilder {
  import opened FatBytes
  import opened FatNames
  import opened FatRecords
  import opened FatVolume
  import opened FatTree
  import opened FatDirs
  import opened FatChains
  import opened FatImage

  // ----- Collecting files --------------------------------------------------

  datatype Added = Accepted | NotNormalized | Unsupported | Duplicate | ParentIsFile

  /** Files and directories are apart, and every parent is a directory. */
  ghost predicate Consistent(files: map<Path, Bytes>, dirs: set<Path>) {
    && [] in dirs && [] !in files && files.Keys !! dirs
    && (forall p :: p in dirs && p != [] ==> Nameable(p) && Parent(p) in dirs)
    && (forall p :: p in files ==> Nameable(p) && p != [] && Parent(p) in dirs)
  }

  /** The directories above a path, the root left out. */
  function Above(p: Path, n: nat): set<Path>
    requires n <= |p|
  {
    set k | 1 <= k < n :: p[..k]
  }

  predicate SpecialPart(part: Name) {
    part == [] || part == [DOT] || part == [DOT, DOT]
  }

  /** What add_file answers. */
  ghost function Verdict(files: map<Path, Bytes>, dirs: set<Path>, p: Path): Added {
    if p == [] || (exists k :: 0 <= k < |p| && SpecialPart(p[k])) then NotNormalized
    else if !Nameable(p) then Unsupported
    else if p in files || p in dirs then Duplicate
    else if exists k :: 1 <= k < |p| && p[..k] in files then ParentIsFile
    else Accepted
  }

  /** Above a directory there are only directories. */
  lemma {:induction false} PrefixOfDir(files: map<Path, Bytes>, dirs: set<Path>, p: Path, k: nat)
    requires Consistent(files, dirs) && p in dirs && k <= |p|
    ensures p[..k] in dirs
    decreases |p|
  {
    if k < |p| {
      PrefixOfDir(files, dirs, Parent(p), k);
      assert Parent(p)[..k] == p[..k];
    } else {
      assert p[..k] == p;
    }
  }

  lemma {:induction false} AddKeepsConsistent(files: map<Path, Bytes>, dirs: set<Path>, p: Path, data: Bytes)
    requires Consistent(files, dirs) && Verdict(files, dirs, p) == Accepted
    ensures Consistent(files[p := data], dirs + Above(p, |p|))
  {
    var more := dirs + Above(p, |p|);
    forall q | q in more && q != [] ensures Nameable(q) && Parent(q) in more {
      if q !in dirs {
        var k :| 1 <= k < |p| && q == p[..k];
        assert Parent(q) == p[..k - 1];
        if k == 1 { assert Parent(q) == []; } else { assert Parent(q) in Above(p, |p|); }
      }
    }
    if |p| == 1 { assert Parent(p) == []; } else { assert Parent(p) in Above(p, |p|); }
  }

  class Builder {
    var files: map<Path, Bytes>
    var dirs: set<Path>

    ghost predicate Valid()
      reads this
    {
      Consistent(files, dirs)
    }

    constructor ()
      ensures Valid() && files == map[]
      ensures dirs == {[], [EFI], [EFI, BOOT], [RABBITBONE]}
    {
      files := map[];
      dirs := {[], [EFI], [EFI, BOOT], [RABBITBONE]};
      new;
      StartIsConsistent();
    }

    /** The check of one path's parts. */
    method CheckParts(p: Path) returns (r: Added)
      ensures r == if p == [] || (exists k :: 0 <= k < |p| && SpecialPart(p[k])) then NotNormalized
                   else if !Nameable(p) then Unsupported else Accepted
    {
      if p == [] {
        return NotNormalized;
      }
      for k := 0 to |p|
        invariant forall j :: 0 <= j < k ==> !SpecialPart(p[j])
      {
        if SpecialPart(p[k]) {
          return NotNormalized;
        }
      }
      for k := 0 to |p|
        invariant forall j :: 0 <= j < k ==> Supported(p[j])
      {
        if !Supported(p[k]) {
          return Unsupported;
        }
      }
      r := Accepted;
    }

    /** add_file: a refused path leaves everything as it was. */
    method AddFile(p: Path, data: Bytes) returns (r: Added)
      requires Valid()
      modifies this
      ensures Valid() && r == Verdict(old(files), old(dirs), p)
      ensures r == Accepted ==> files == old(files)[p := data] && dirs == old(dirs) + Above(p, |p|)
      ensures r != Accepted ==> files == old(files) && dirs == old(dirs)
    {
      r := CheckParts(p);
      if r != Accepted {
        return;
      }
      if p in files || p in dirs {
        return Duplicate;
      }
      assert Above(p, 1) == {} && dirs + {} == dirs;
      for k := 1 to |p|
        invariant files == old(files) && dirs == old(dirs) + Above(p, k)
        invariant forall j :: 1 <= j < k ==> p[..j] !in files
      {
        if p[..k] in files {
          NothingAdded(files, old(dirs), p, k);
          return ParentIsFile;
        }
        dirs := dirs + {p[..k]};
        assert Above(p, k + 1) == Above(p, k) + {p[..k]};
      }
      AddKeepsConsistent(files, old(dirs), p, data);
      files := files[p := data];
    }
  }

  const EFI: Name := [0x45, 0x46, 0x49]
  const BOOT: Name := [0x42, 0x4F, 0x4F, 0x54]
  const RABBITBONE: Name := [0x52, 0x41, 0x42, 0x42, 0x49, 0x54, 0x42, 0x4F, 0x4E, 0x45]

  lemma {:induction false} StartIsConsistent()
    ensures Consistent(map[], {[], [EFI], [EFI, BOOT], [RABBITBONE]})
  {
    assert Parent([EFI]) == [] && Parent([RABBITBONE]) == [] && Parent([EFI, BOOT]) == [EFI];
  }

  /** When a parent turns out to be a file, the parents above it were already
      directories. */
  lemma {:induction false} NothingAdded(files: map<Path, Bytes>, dirs: set<Path>, p: Path, k: nat)
    requires Consistent(files, dirs) && 1 <= k < |p| && p[..k] in files
    ensures dirs + Above(p, k) == dirs
  {
    forall q | q in Above(p, k) ensures q in dirs {
      var j :| 1 <= j < k && q == p[..j];
      PrefixOfDir(files, dirs, Parent(p[..k]), j);
      assert Parent(p[..k])[..j] == p[..j];
    }
  }

  // ----- From the collected files to the image -----------------------------

  /** A listing of exactly these files and directories, in any order. */
  ghost predicate Lists(nodes: seq<Node>, files: map<Path, Bytes>, dirs: set<Path>) {
    && (forall i, j :: 0 <= i < j < |nodes| ==> nodes[i].path != nodes[j].path)
    && (forall i :: 0 <= i < |nodes| ==> if nodes[i].Dir? then nodes[i].path in dirs && nodes[i].path != []
                                         else nodes[i].path in files && files[nodes[i].path] == nodes[i].data)
    && (forall p :: p in dirs ==> IsDir(nodes, p))
    && (forall p :: p in files ==> HasPath(nodes, p))
  }

  lemma {:induction false} ListingIsTree(nodes: seq<Node>, files: map<Path, Bytes>, dirs: set<Path>)
    requires Consistent(files, dirs) && Lists(nodes, files, dirs)
    ensures TreeOk(nodes)
  {
    forall i | 0 <= i < |nodes|
      ensures nodes[i].path != [] && Supported(Leaf(nodes[i].path)) && Housed(nodes, i)
    {
      assert Nameable(nodes[i].path) && Parent(nodes[i].path) in dirs;
    }
  }

  /** What the builder has at a path. */
  function Collected(files: map<Path, Bytes>, dirs: set<Path>, p: Path): Content {
    if p in files then Holds(files[p]) else if p in dirs then Content.Folder else Nothing
  }

  lemma {:induction false} ListingHas(nodes: seq<Node>, files: map<Path, Bytes>, dirs: set<Path>, p: Path)
    requires Consistent(files, dirs) && Lists(nodes, files, dirs)
    ensures TreeHas(nodes, p, Collected(files, dirs, p))
  {
    if p in files {
      assert HasPath(nodes, p);
      var i :| 0 <= i < |nodes| && nodes[i].path == p;
      assert nodes[i] == File(p, files[p]);
    }
  }

  /** Every file that was added is in the image with its bytes, every directory is
      a directory there, and there is nothing else. */
  lemma {:induction false} BuilderRoundTrip(files: map<Path, Bytes>, dirs: set<Path>, nodes: seq<Node>, tag: Bytes, serial: nat, p: Path)
    requires Consistent(files, dirs) && Lists(nodes, files, dirs) && Named(nodes)
    requires |tag| == 11 && tag[0] != 0 && Nameable(p) && Build(nodes, tag, serial).Built?
    ensures SECTOR <= |Build(nodes, tag, serial).image|
    ensures ContentAt(Build(nodes, tag, serial).image, p) == Collected(files, dirs, p)
  {
    ListingIsTree(nodes, files, dirs);
    ListingHas(nodes, files, dirs, p);
    ImageHoldsTree(nodes, tag, serial, p);
  }

  /** The directories of a builder to which nothing was added. */
  function EmptyListing(): seq<Node> { [Dir([EFI]), Dir([EFI, BOOT]), Dir([RABBITBONE])] }

  lemma {:induction false} EmptyListingLists()
    ensures Lists(EmptyListing(), map[], {[], [EFI], [EFI, BOOT], [RABBITBONE]})
  {
    var nodes := EmptyListing();
    assert nodes[0].path == [EFI] && nodes[1].path == [EFI, BOOT] && nodes[2].path == [RABBITBONE];
    assert IsDir(nodes, [EFI]) && IsDir(nodes, [EFI, BOOT]) && IsDir(nodes, [RABBITBONE]) && IsDir(nodes, []);
    assert |[EFI]| != |[EFI, BOOT]| && |EFI| != |RABBITBONE|;
    assert [EFI][0] != [RABBITBONE][0];
  }

  lemma {:induction false} EmptyListingCounts()
    ensures var nodes := EmptyListing(); DirCount(nodes) == 3 && FileClusters(nodes) == [] && |Fat(nodes)| == 5 && FieldsFit(nodes)
  {
    var nodes := EmptyListing();
    var one, two := nodes[..1], nodes[..2];
    assert one[..0] == [] && DirCount(one) == 1 && FileClusters(one) == [];
    assert two[..1] == one && DirCount(two) == 2 && FileClusters(two) == [];
    assert nodes[..2] == two;
    forall i | 0 <= i < |nodes| ensures FieldFits(nodes, i) { DirCountBound(nodes[..i]); }
  }

  lemma {:induction false} DirCountBound(nodes: seq<Node>)
    ensures DirCount(nodes) <= |nodes|
  {
    if nodes != [] { DirCountBound(nodes[..|nodes| - 1]); }
  }

  /** The image of an empty builder has three clusters: by their number a reader
      takes it for FAT12, although its table has 16-bit entries. */
  lemma {:induction false} EmptyBuilderIsFat12(tag: Bytes, serial: nat)
    requires |tag| == 11 && serial < 0x1_0000_0000
    ensures Lists(EmptyListing(), map[], {[], [EFI], [EFI, BOOT], [RABBITBONE]}) && Named(EmptyListing())
    ensures var r := Build(EmptyListing(), tag, serial);
            r.Built? && SECTOR <= |r.image| && TypeOf(r.image) == Fat12
  {
    EmptyListingLists();
    EmptyListingCounts();
    StartIsConsistent();
    ListingIsTree(EmptyListing(), map[], {[], [EFI], [EFI, BOOT], [RABBITBONE]});
    SmallTreeBuilds(EmptyListing(), tag, serial);
    BuiltType(EmptyListing(), tag, serial);
  }
}
