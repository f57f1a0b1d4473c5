/** Long and short names in one directory of a built image. In the FAT file
    system both name an entry; a reader that goes by either finds what the tree
    has exactly when no alias is another entry's name. */
module FatAliases {
  import opened FatBytes
  import opened FatNames
  import opened FatRecords
  import opened FatVolume
  import opened FatTree
  import opened FatDirs
  import opened FatChains
  import opened FatImage

  // ----- The short names a directory lists ---------------------------------

  /** In the order of the items that Scan gives. */
  function ShortScan(records: seq<Bytes>): (r: seq<Bytes>)
    requires Sized(records, RECORD)
    ensures Sized(r, 11)
  {
    if records == [] || records[0][0] == 0 then []
    else
      var r, rest := records[0], records[1..];
      if r[11] == LONG_ATTR || r[11] as int / 8 % 2 == 1 then ShortScan(rest) else [r[..11]] + ShortScan(rest)
  }

  function ShortNames(region: Bytes): (r: seq<Bytes>)
    ensures Sized(r, 11)
  {
    ShortScan(Records(region))
  }

  lemma {:induction false} SkipsLong(long: seq<Bytes>, rest: seq<Bytes>)
    requires Sized(long, RECORD) && IsLong(long) && Sized(rest, RECORD)
    ensures Sized(long + rest, RECORD) && ShortScan(long + rest) == ShortScan(rest)
    decreases |long|
  {
    if long == [] {
      assert long + rest == rest;
    } else {
      assert (long + rest)[0] == long[0] && (long + rest)[1..] == long[1..] + rest;
      SkipsLong(long[1..], rest);
    }
  }

  lemma {:induction false} TakesShort(short: Bytes, attr: byte, first: nat, size: nat, rest: seq<Bytes>)
    requires |short| == 11 && first < 0x10000 && size < 0x1_0000_0000 && short[0] != 0 && Sized(rest, RECORD)
    ensures Sized([ShortRecord(short, attr, first, size)] + rest, RECORD)
    ensures attr == DIR_ATTR || attr == FILE_ATTR ==> ShortScan([ShortRecord(short, attr, first, size)] + rest) == [short] + ShortScan(rest)
    ensures attr == LABEL_ATTR ==> ShortScan([ShortRecord(short, attr, first, size)] + rest) == ShortScan(rest)
  {
    ShortRecordFields(short, attr, first, size);
    var r := ShortRecord(short, attr, first, size);
    assert r[0] == r[..11][0];
    assert ([r] + rest)[1..] == rest;
  }

  lemma {:induction false} TakesGroup(name: Name, short: Bytes, attr: byte, first: nat, size: nat, rest: seq<Bytes>)
    requires Supported(name) && |short| == 11 && first < 0x10000 && size < 0x1_0000_0000 && short[0] != 0
    requires (attr == DIR_ATTR || attr == FILE_ATTR) && Sized(rest, RECORD)
    ensures Sized(Group(name, short, attr, first, size) + rest, RECORD)
    ensures ShortScan(Group(name, short, attr, first, size) + rest) == [short] + ShortScan(rest)
  {
    var long := if Fits83(name) && Upper83(name) == short then [] else LongRecords(name, short);
    var one := [ShortRecord(short, attr, first, size)];
    TakesShort(short, attr, first, size, rest);
    if long != [] { LongRecordsAreLong(name, short); }
    RegroupRecords(long, one, rest);
    SkipsLong(long, one + rest);
  }

  /** The short names of the entries `kids`. */
  function KidShorts(shorts: seq<Bytes>, kids: seq<nat>): (r: seq<Bytes>)
    requires Sized(shorts, 11) && forall k :: 0 <= k < |kids| ==> kids[k] < |shorts|
    ensures |r| == |kids| && Sized(r, 11) && forall k :: 0 <= k < |kids| ==> r[k] == shorts[kids[k]]
  {
    seq(|kids|, k requires 0 <= k < |kids| => shorts[kids[k]])
  }

  lemma {:induction false} TakesGroups(nodes: seq<Node>, shorts: seq<Bytes>, kids: seq<nat>, rest: seq<Bytes>)
    requires Ready(nodes, shorts) && FatDirs.Indices(nodes, kids) && Sized(rest, RECORD)
    ensures Sized(Groups(nodes, shorts, kids) + rest, RECORD)
    ensures ShortScan(Groups(nodes, shorts, kids) + rest) == KidShorts(shorts, kids) + ShortScan(rest)
    decreases |kids|
  {
    if kids == [] {
      assert Groups(nodes, shorts, kids) + rest == rest && KidShorts(shorts, kids) == [];
    } else {
      var i, tail := kids[0], kids[1..];
      TakesGroups(nodes, shorts, tail, rest);
      assert Fitting(nodes, shorts, i);
      TakesGroup(Leaf(nodes[i].path), shorts[i], Attr(nodes[i]), First(nodes, i), Size(nodes[i]), Groups(nodes, shorts, tail) + rest);
      Regrouped(KidGroup(nodes, shorts, i), Groups(nodes, shorts, tail), rest);
      OneMoreShort(shorts, kids, ShortScan(rest));
    }
  }

  lemma {:induction false} OneMoreShort(shorts: seq<Bytes>, kids: seq<nat>, rest: seq<Bytes>)
    requires Sized(shorts, 11) && kids != [] && forall k :: 0 <= k < |kids| ==> kids[k] < |shorts|
    ensures [shorts[kids[0]]] + (KidShorts(shorts, kids[1..]) + rest) == KidShorts(shorts, kids) + rest
  {}

  lemma {:induction false} NoShorts(n: nat)
    ensures ShortScan(Records(Fill(n, 0))) == []
  {}

  lemma {:induction false} ShortsOfRegion(records: seq<Bytes>, size: nat)
    requires Sized(records, RECORD) && |Flatten(records)| <= size
    ensures Sized(records + Records(Fill(size - |Flatten(records)|, 0)), RECORD)
    ensures ShortNames(Region(records, size)) == ShortScan(records + Records(Fill(size - |Flatten(records)|, 0)))
  {
    RecordsOfFlatten(records, Fill(size - |Flatten(records)|, 0));
  }

  lemma {:induction false} GroupsToTheEnd(nodes: seq<Node>, shorts: seq<Bytes>, kids: seq<nat>, n: nat)
    requires Ready(nodes, shorts) && FatDirs.Indices(nodes, kids)
    ensures Sized(Groups(nodes, shorts, kids) + Records(Fill(n, 0)), RECORD)
    ensures ShortScan(Groups(nodes, shorts, kids) + Records(Fill(n, 0))) == KidShorts(shorts, kids)
  {
    NoShorts(n);
    TakesGroups(nodes, shorts, kids, Records(Fill(n, 0)));
  }

  lemma {:induction false} RootShorts(nodes: seq<Node>, shorts: seq<Bytes>, tag: Bytes, size: nat)
    requires Ready(nodes, shorts) && |tag| == 11 && tag[0] != 0 && |Flatten(RootRecords(nodes, shorts, tag))| <= size
    ensures ShortNames(Region(RootRecords(nodes, shorts, tag), size)) == KidShorts(shorts, Kids(nodes, []))
  {
    var g, n := Groups(nodes, shorts, Kids(nodes, [])), size - |Flatten(RootRecords(nodes, shorts, tag))|;
    ShortsOfRegion(RootRecords(nodes, shorts, tag), size);
    GroupsToTheEnd(nodes, shorts, Kids(nodes, []), n);
    Regrouped([LabelRecord(tag)], g, Records(Fill(n, 0)));
    TakesShort(tag, LABEL_ATTR, 0, 0, g + Records(Fill(n, 0)));
  }

  function DotShorts(): seq<Bytes> { [DotName(1), DotName(2)] }

  lemma {:induction false} DirShorts(nodes: seq<Node>, shorts: seq<Bytes>, p: Path, self: nat, parent: nat, size: nat)
    requires Ready(nodes, shorts) && self < 0x10000 && parent < 0x10000
    requires |Flatten(DirRecords(nodes, shorts, p, self, parent))| <= size
    ensures ShortNames(Region(DirRecords(nodes, shorts, p, self, parent), size)) == DotShorts() + KidShorts(shorts, Kids(nodes, p))
  {
    var g, n := Groups(nodes, shorts, Kids(nodes, p)), size - |Flatten(DirRecords(nodes, shorts, p, self, parent))|;
    var rest := g + Records(Fill(n, 0));
    ShortsOfRegion(DirRecords(nodes, shorts, p, self, parent), size);
    GroupsToTheEnd(nodes, shorts, Kids(nodes, p), n);
    Regrouped(DotRecords(self, parent), g, Records(Fill(n, 0)));
    TakesDots(self, parent, rest);
  }

  lemma {:induction false} TakesDots(self: nat, parent: nat, rest: seq<Bytes>)
    requires self < 0x10000 && parent < 0x10000 && Sized(rest, RECORD)
    ensures Sized(DotRecords(self, parent) + rest, RECORD) && ShortScan(DotRecords(self, parent) + rest) == DotShorts() + ShortScan(rest)
  {
    var a, b := ShortRecord(DotName(1), DIR_ATTR, self, 0), ShortRecord(DotName(2), DIR_ATTR, parent, 0);
    TakesShort(DotName(2), DIR_ATTR, parent, 0, rest);
    TakesShort(DotName(1), DIR_ATTR, self, 0, [b] + rest);
    PairFirst(a, b, rest);
    assert [DotName(1)] + ([DotName(2)] + ShortScan(rest)) == DotShorts() + ShortScan(rest);
  }

  // ----- Looking up by either name -----------------------------------------

  /** Entry `k` goes by this name, long or short. */
  predicate Answers(items: seq<Item>, shorts: seq<Bytes>, k: nat, name: Name) {
    k < |items| == |shorts| && |shorts[k]| == 11 && (items[k].name == name || Display(shorts[k]) == name)
  }

  /** Whichever entry that goes by the name is taken, it is this one. */
  ghost predicate AlwaysFinds(items: seq<Item>, shorts: seq<Bytes>, name: Name, item: Item) {
    && (exists k: nat :: Answers(items, shorts, k, name))
    && forall k: nat :: Answers(items, shorts, k, name) ==> items[k] == item
  }

  /** The alias of `j` is the name of `i`, in the same directory. */
  predicate Clash(nodes: seq<Node>, shorts: seq<Bytes>, i: nat, j: nat)
    requires Named(nodes) && |shorts| == |nodes| && Sized(shorts, 11) && i < |nodes| && j < |nodes|
  {
    i != j && Parent(nodes[j].path) == Parent(nodes[i].path) && Display(shorts[j]) == Leaf(nodes[i].path)
  }

  predicate NoClashAt(nodes: seq<Node>, shorts: seq<Bytes>, i: nat)
    requires Named(nodes) && |shorts| == |nodes| && Sized(shorts, 11) && i < |nodes|
  {
    forall j :: 0 <= j < |nodes| ==> !Clash(nodes, shorts, i, j)
  }

  /** The entries before a directory's own do not go by a supported name. */
  predicate Dotted(pre: seq<Item>, preShorts: seq<Bytes>) {
    && |pre| == |preShorts| && Sized(preShorts, 11)
    && forall k :: 0 <= k < |pre| ==> DottedAt(pre[k], preShorts[k])
  }

  predicate DottedAt(item: Item, short: Bytes)
    requires |short| == 11
  {
    item.name != [] && item.name[0] == DOT && Display(short) != [] && Display(short)[0] == DOT
  }

  lemma {:induction false} AnswerIsKid(pre: seq<Item>, preShorts: seq<Bytes>, nodes: seq<Node>, shorts: seq<Bytes>, d: Path, k: nat, name: Name)
    requires Named(nodes) && |shorts| == |nodes| && Sized(shorts, 11) && Dotted(pre, preShorts) && Supported(name)
    requires Answers(pre + Items(nodes, Kids(nodes, d)), preShorts + KidShorts(shorts, Kids(nodes, d)), k, name)
    ensures |pre| <= k < |pre| + |Kids(nodes, d)|
    ensures var j := Kids(nodes, d)[k - |pre|];
            (pre + Items(nodes, Kids(nodes, d)))[k] == KidItem(nodes, j) && (Leaf(nodes[j].path) == name || Display(shorts[j]) == name)
  {
    NotBefore(pre, preShorts, Items(nodes, Kids(nodes, d)), KidShorts(shorts, Kids(nodes, d)), k, name);
  }

  lemma {:induction false} NotBefore(pre: seq<Item>, preShorts: seq<Bytes>, items: seq<Item>, shorts: seq<Bytes>, k: nat, name: Name)
    requires Dotted(pre, preShorts) && Supported(name) && Answers(pre + items, preShorts + shorts, k, name) && |items| == |shorts|
    ensures |pre| <= k && Answers(items, shorts, k - |pre|, name) && (pre + items)[k] == items[k - |pre|]
  {
    assert forall m :: 0 <= m < |pre| ==> DottedAt(pre[m], preShorts[m]);
  }

  lemma {:induction false} KidAnswers(pre: seq<Item>, preShorts: seq<Bytes>, nodes: seq<Node>, shorts: seq<Bytes>, j: nat, name: Name) returns (k: nat)
    requires Named(nodes) && |shorts| == |nodes| && Sized(shorts, 11) && |pre| == |preShorts| && j < |nodes|
    requires Leaf(nodes[j].path) == name || Display(shorts[j]) == name
    ensures var kids := Kids(nodes, Parent(nodes[j].path));
            Answers(pre + Items(nodes, kids), preShorts + KidShorts(shorts, kids), k, name) && (pre + Items(nodes, kids))[k] == KidItem(nodes, j)
  {
    var kids := Kids(nodes, Parent(nodes[j].path));
    var m := KidPlace(nodes, j);
    k := |pre| + m;
    KidAnswersAt(nodes, shorts, kids, m, name);
    Behind(pre, preShorts, Items(nodes, kids), KidShorts(shorts, kids), m, name);
  }

  lemma {:induction false} KidPlace(nodes: seq<Node>, j: nat) returns (m: nat)
    requires Named(nodes) && j < |nodes|
    ensures m < |Kids(nodes, Parent(nodes[j].path))| && Kids(nodes, Parent(nodes[j].path))[m] == j
  {
    KidsHas(nodes, j);
    m :| 0 <= m < |Kids(nodes, Parent(nodes[j].path))| && Kids(nodes, Parent(nodes[j].path))[m] == j;
  }

  lemma {:induction false} KidAnswersAt(nodes: seq<Node>, shorts: seq<Bytes>, kids: seq<nat>, m: nat, name: Name)
    requires Named(nodes) && |shorts| == |nodes| && Sized(shorts, 11) && FatDirs.Indices(nodes, kids) && m < |kids|
    requires Leaf(nodes[kids[m]].path) == name || Display(shorts[kids[m]]) == name
    ensures Answers(Items(nodes, kids), KidShorts(shorts, kids), m, name) && Items(nodes, kids)[m] == KidItem(nodes, kids[m])
  {}

  lemma {:induction false} Behind(pre: seq<Item>, preShorts: seq<Bytes>, items: seq<Item>, shorts: seq<Bytes>, m: nat, name: Name)
    requires |pre| == |preShorts| && Answers(items, shorts, m, name)
    ensures Answers(pre + items, preShorts + shorts, |pre| + m, name) && (pre + items)[|pre| + m] == items[m]
  {}

  lemma {:induction false} FindsIff(pre: seq<Item>, preShorts: seq<Bytes>, nodes: seq<Node>, shorts: seq<Bytes>, i: nat)
    requires TreeOk(nodes) && |shorts| == |nodes| && Sized(shorts, 11) && Dotted(pre, preShorts) && i < |nodes|
    ensures var kids := Kids(nodes, Parent(nodes[i].path));
            AlwaysFinds(pre + Items(nodes, kids), preShorts + KidShorts(shorts, kids), Leaf(nodes[i].path), KidItem(nodes, i))
            <==> NoClashAt(nodes, shorts, i)
  {
    var d, name := Parent(nodes[i].path), Leaf(nodes[i].path);
    var items, ss := pre + Items(nodes, Kids(nodes, d)), preShorts + KidShorts(shorts, Kids(nodes, d));
    var own := KidAnswers(pre, preShorts, nodes, shorts, i, name);
    if NoClashAt(nodes, shorts, i) {
      forall k: nat | Answers(items, ss, k, name) ensures items[k] == KidItem(nodes, i) {
        AnswerIsKid(pre, preShorts, nodes, shorts, d, k, name);
        OnlyItself(nodes, shorts, i, Kids(nodes, d)[k - |pre|]);
      }
    } else {
      var j :| 0 <= j < |nodes| && Clash(nodes, shorts, i, j);
      var k := KidAnswers(pre, preShorts, nodes, shorts, j, name);
      OtherItem(nodes, i, j);
    }
  }

  lemma {:induction false} OnlyItself(nodes: seq<Node>, shorts: seq<Bytes>, i: nat, j: nat)
    requires TreeOk(nodes) && |shorts| == |nodes| && Sized(shorts, 11) && i < |nodes| && j < |nodes| && NoClashAt(nodes, shorts, i)
    requires Parent(nodes[j].path) == Parent(nodes[i].path)
    requires Leaf(nodes[j].path) == Leaf(nodes[i].path) || Display(shorts[j]) == Leaf(nodes[i].path)
    ensures j == i
  {
    assert !Clash(nodes, shorts, i, j);
    if Leaf(nodes[j].path) == Leaf(nodes[i].path) { SamePath(nodes[j].path, nodes[i].path); }
  }

  lemma {:induction false} OtherItem(nodes: seq<Node>, i: nat, j: nat)
    requires TreeOk(nodes) && i < |nodes| && j < |nodes| && i != j && Parent(nodes[j].path) == Parent(nodes[i].path)
    ensures KidItem(nodes, j) != KidItem(nodes, i)
  {
    if Leaf(nodes[j].path) == Leaf(nodes[i].path) { SamePath(nodes[j].path, nodes[i].path); }
  }

  // ----- In a built image --------------------------------------------------

  /** In the directory the image has above entry `i`, the entry's name finds that
      entry and no other, by whichever of the two names a reader goes. */
  ghost predicate EitherFinds(img: Bytes, nodes: seq<Node>, i: nat)
    requires SECTOR <= |img| && Named(nodes) && i < |nodes|
  {
    var up := Look(img, Parent(nodes[i].path));
    up.Folder? && AlwaysFinds(Listing(up.region), ShortNames(up.region), Leaf(nodes[i].path), KidItem(nodes, i))
  }

  lemma {:induction false} DotsAreDotted(self: nat, up: nat)
    ensures Dotted(DotItems(self, up), DotShorts())
  {
    DotDisplay(1);
    DotDisplay(2);
  }

  lemma {:induction false} RootFinds(nodes: seq<Node>, shorts: seq<Bytes>, tag: Bytes, i: nat)
    requires TreeOk(nodes) && Ready(nodes, shorts) && |tag| == 11 && tag[0] != 0 && i < |nodes| && Parent(nodes[i].path) == []
    requires |Flatten(RootRecords(nodes, shorts, tag))| <= ROOT_BYTES
    ensures var region := Region(RootRecords(nodes, shorts, tag), ROOT_BYTES);
            AlwaysFinds(Listing(region), ShortNames(region), Leaf(nodes[i].path), KidItem(nodes, i)) <==> NoClashAt(nodes, shorts, i)
  {
    RootListing(nodes, shorts, tag, ROOT_BYTES);
    RootShorts(nodes, shorts, tag, ROOT_BYTES);
    FindsIff([], [], nodes, shorts, i);
    assert [] + Items(nodes, Kids(nodes, [])) == Items(nodes, Kids(nodes, []));
    assert [] + KidShorts(shorts, Kids(nodes, [])) == KidShorts(shorts, Kids(nodes, []));
  }

  lemma {:induction false} DirFinds(nodes: seq<Node>, shorts: seq<Bytes>, d: nat, i: nat)
    requires TreeOk(nodes) && Ready(nodes, shorts) && i < |nodes| && d < |nodes| && nodes[d].Dir? && nodes[d].path == Parent(nodes[i].path)
    requires DirFits(nodes, shorts, d)
    ensures var region := NodeRegion(nodes, shorts, d);
            AlwaysFinds(Listing(region), ShortNames(region), Leaf(nodes[i].path), KidItem(nodes, i)) <==> NoClashAt(nodes, shorts, i)
  {
    assert Fitting(nodes, shorts, d);
    var self, up := First(nodes, d), DirFirst(nodes, Parent(nodes[d].path));
    DirFirstFits(nodes, shorts, Parent(nodes[d].path));
    DirListing(nodes, shorts, nodes[d].path, self, up, CLUSTER);
    DirShorts(nodes, shorts, nodes[d].path, self, up, CLUSTER);
    DotsAreDotted(self, up);
    FindsIff(DotItems(self, up), DotShorts(), nodes, shorts, i);
  }

  /** The directory above entry `i`, as the image shows it. */
  lemma {:induction false} UpIs(nodes: seq<Node>, tag: Bytes, serial: nat, i: nat) returns (img: Bytes, shorts: seq<Bytes>, region: Bytes)
    requires TreeOk(nodes) && |tag| == 11 && tag[0] != 0 && Build(nodes, tag, serial).Built? && i < |nodes| && Nameable(nodes[i].path)
    ensures img == Build(nodes, tag, serial).image && SECTOR <= |img|
    ensures Shorts(nodes) == Some(shorts) && Ready(nodes, shorts)
    ensures Look(img, Parent(nodes[i].path)) == Sight.Folder(region)
    ensures AlwaysFinds(Listing(region), ShortNames(region), Leaf(nodes[i].path), KidItem(nodes, i)) <==> NoClashAt(nodes, shorts, i)
  {
    img, shorts := Build(nodes, tag, serial).image, Shorts(nodes).value;
    if Parent(nodes[i].path) == [] {
      BuiltRoot(nodes, tag, serial);
      region := RootRegion(img);
      RootFinds(nodes, shorts, tag, i);
    } else {
      var d := UpNode(nodes, tag, serial, i);
      region := NodeRegion(nodes, shorts, d);
      DirFinds(nodes, shorts, d, i);
    }
  }

  lemma {:induction false} UpNode(nodes: seq<Node>, tag: Bytes, serial: nat, i: nat) returns (d: nat)
    requires TreeOk(nodes) && |tag| == 11 && tag[0] != 0 && Build(nodes, tag, serial).Built? && i < |nodes| && Nameable(nodes[i].path)
    requires Parent(nodes[i].path) != []
    ensures SECTOR <= |Build(nodes, tag, serial).image| && Shorts(nodes).Some? && Ready(nodes, Shorts(nodes).value)
    ensures d < |nodes| && nodes[d].Dir? && nodes[d].path == Parent(nodes[i].path) && DirFits(nodes, Shorts(nodes).value, d)
    ensures Look(Build(nodes, tag, serial).image, Parent(nodes[i].path)) == Sight.Folder(NodeRegion(nodes, Shorts(nodes).value, d))
  {
    var regions := BuiltSees(nodes, tag, serial);
    d := SeesUp(Build(nodes, tag, serial).image, nodes, regions, i);
    RegionOf(nodes, Shorts(nodes).value, d);
  }

  lemma {:induction false} SeesUp(img: Bytes, nodes: seq<Node>, regions: seq<Bytes>, i: nat) returns (d: nat)
    requires Sees(img, nodes, regions) && i < |nodes| && Nameable(nodes[i].path) && Parent(nodes[i].path) != []
    ensures d < |nodes| && nodes[d].Dir? && nodes[d].path == Parent(nodes[i].path)
    ensures Look(img, Parent(nodes[i].path)) == Sight.Folder(regions[d])
  {
    assert Housed(nodes, i);
    d :| 0 <= d < |nodes| && nodes[d].Dir? && nodes[d].path == Parent(nodes[i].path);
    LookIsTree(img, nodes, regions, nodes[d].path);
  }

  lemma {:induction false} RegionOf(nodes: seq<Node>, shorts: seq<Bytes>, d: nat)
    requires Ready(nodes, shorts) && DirsFit(nodes, shorts) && d < |nodes|
    ensures DirFits(nodes, shorts, d) && Regions(nodes, shorts)[d] == NodeRegion(nodes, shorts, d)
  {
    assert DirFits(nodes, shorts, d);
  }

  /** In every built image and for every entry: looking up its name, by long and by
      short names alike, gives what the tree has if and only if no other entry of
      its directory was given that name as its alias. */
  lemma {:induction false} EitherFindsIff(nodes: seq<Node>, tag: Bytes, serial: nat, i: nat)
    requires TreeOk(nodes) && |tag| == 11 && tag[0] != 0 && Build(nodes, tag, serial).Built? && i < |nodes| && Nameable(nodes[i].path)
    ensures SECTOR <= |Build(nodes, tag, serial).image| && Shorts(nodes).Some?
    ensures EitherFinds(Build(nodes, tag, serial).image, nodes, i) <==> NoClashAt(nodes, Shorts(nodes).value, i)
  {
    var img, shorts, region := UpIs(nodes, tag, serial, i);
  }

  // ----- An alias that is another file's name ------------------------------

  const LONG_NAME: Name := [0x41, 0x42, 0x43, 0x44, 0x45, 0x46, 0x47, 0x48, 0x49]
  const TILDE_NAME: Name := [0x41, 0x42, 0x43, 0x44, 0x45, 0x46, 0x7E, 0x31]

  function TwoFiles(): seq<Node> { [File([LONG_NAME], []), File([TILDE_NAME], [])] }

  lemma {:induction false} NoDot(name: Name)
    requires DOT !in name
    ensures DotAt(name) == |name| && Base(name) == name && Ext(name) == []
  {
    if name != [] {
      NoDot(name[1..]);
      assert name == [name[0]] + name[1..];
    }
  }

  lemma {:induction false} FirstAlias()
    ensures Alias(LONG_NAME, {}) == Some(TILDE_NAME + Fill(3, SPACE))
  {
    NineLetters();
    AliasOfNine(LONG_NAME, LONG_NAME[..6], 1);
  }

  lemma {:induction false} NineLetters()
    ensures |LONG_NAME| == 9 && DOT !in LONG_NAME && AllAllowed(LONG_NAME)
    ensures LONG_NAME[..6] + [TILDE] + [0x31] == TILDE_NAME
  {
    forall i | 0 <= i < |LONG_NAME| ensures 0x41 <= LONG_NAME[i] <= 0x49 && Allowed(LONG_NAME[i]) {}
  }

  /** A name of nine characters and no dot becomes six of them, `~1` and spaces. */
  lemma {:induction false} AliasOfNine(name: Name, stem: Bytes, n: nat)
    requires |name| == 9 && DOT !in name && AllAllowed(name) && stem == name[..6] && n == 1
    ensures Alias(name, {}) == Some(stem + [TILDE] + [0x31] + Fill(3, SPACE))
  {
    NoDot(name);
    FirstCandidate(name, n);
    SanitizeKeeps(name);
    SanitizeKeeps([]);
    CandidateOf(name, n, stem, [0x31]);
  }

  lemma {:induction false} SanitizeKeeps(b: Bytes)
    requires AllAllowed(b)
    ensures Sanitize(b) == b
  {}

  lemma {:induction false} FirstCandidate(name: Name, n: nat)
    requires !Fits83(name) && n == 1
    ensures Alias(name, {}) == Some(Candidate(name, n))
  {}

  lemma {:induction false} CandidateOf(name: Name, n: nat, stem: Bytes, digits: Bytes)
    requires n < 10 && digits == [0x30 + n] && |Stem(name)| > 6 && stem == Stem(name)[..6] && Tail(name) == []
    ensures Candidate(name, n) == stem + [TILDE] + digits + Fill(3, SPACE)
  {
    assert Decimal(n) == digits && Numbered(name, n) == stem + [TILDE] + digits;
  }

  /** The files /ABCDEFGHI and /ABCDEF~1 are accepted and built, and the alias of
      the first is the name of the second. */
  lemma {:induction false} AliasTakesName(tag: Bytes, serial: nat)
    requires |tag| == 11 && tag[0] != 0 && serial < 0x1_0000_0000
    ensures TreeOk(TwoFiles()) && Build(TwoFiles(), tag, serial).Built? && SECTOR <= |Build(TwoFiles(), tag, serial).image|
    ensures Shorts(TwoFiles()).Some? && Clash(TwoFiles(), Shorts(TwoFiles()).value, 1, 0)
    ensures !EitherFinds(Build(TwoFiles(), tag, serial).image, TwoFiles(), 1)
  {
    var nodes := TwoFiles();
    TwoFilesBuild(tag, serial);
    AliasClashes();
    assert !NoClashAt(nodes, Shorts(nodes).value, 1);
    EitherFindsIff(nodes, tag, serial, 1);
  }

  lemma {:induction false} TwoFilesBuild(tag: Bytes, serial: nat)
    requires |tag| == 11 && serial < 0x1_0000_0000
    ensures TreeOk(TwoFiles()) && Build(TwoFiles(), tag, serial).Built?
    ensures forall i :: 0 <= i < 2 ==> Nameable(TwoFiles()[i].path)
  {
    TwoFilesAreATree();
    NoClusters(TwoFiles());
    SmallTreeBuilds(TwoFiles(), tag, serial);
  }

  lemma {:induction false} TwoFilesAreATree()
    ensures TreeOk(TwoFiles()) && forall i :: 0 <= i < 2 ==> Nameable(TwoFiles()[i].path)
  {
    var nodes := TwoFiles();
    assert nodes[0].path == [LONG_NAME] && nodes[1].path == [TILDE_NAME] && [LONG_NAME][0] != [TILDE_NAME][0];
    forall i | 0 <= i < |nodes| ensures nodes[i].path != [] && Supported(Leaf(nodes[i].path)) && Housed(nodes, i) && Nameable(nodes[i].path) {
      assert Parent(nodes[i].path) == [];
    }
  }

  lemma {:induction false} NoClusters(nodes: seq<Node>)
    requires forall i :: 0 <= i < |nodes| ==> nodes[i].File? && nodes[i].data == []
    ensures DirCount(nodes) == 0 && FileClusters(nodes) == [] && FieldsFit(nodes)
  {
    if nodes != [] { NoClusters(nodes[..|nodes| - 1]); }
    forall i | 0 <= i < |nodes| ensures FieldFits(nodes, i) {}
  }

  lemma {:induction false} AliasClashes()
    requires Named(TwoFiles())
    ensures Shorts(TwoFiles()).Some? && Clash(TwoFiles(), Shorts(TwoFiles()).value, 1, 0)
  {
    ShortNamesExist(TwoFiles());
    FirstShort(TwoFiles());
    FirstAlias();
    ShowsTilde();
    assert Parent([LONG_NAME]) == [] && Parent([TILDE_NAME]) == [];
  }

  lemma {:induction false} ShowsTilde()
    ensures Display(TILDE_NAME + Fill(3, SPACE)) == TILDE_NAME
  {
    assert Justify(TILDE_NAME, 8, SPACE) == TILDE_NAME && Justify([], 3, SPACE) == Fill(3, SPACE);
    ShowsBoth(TILDE_NAME, [], TILDE_NAME + Fill(3, SPACE));
  }

  /** The first entry gets its alias when no name is taken. */
  lemma {:induction false} FirstShort(nodes: seq<Node>)
    requires Named(nodes) && nodes != [] && Shorts(nodes).Some?
    ensures Alias(Leaf(nodes[0].path), {}) == Some(Shorts(nodes).value[0])
    decreases |nodes|
  {
    ShortsExtend(nodes);
    var init := nodes[..|nodes| - 1];
    if init == [] {
      assert Used(init, Shorts(init).value, Parent(nodes[0].path)) == {};
    } else {
      FirstShort(init);
      assert init[0] == nodes[0] && Shorts(init).value[0] == Shorts(nodes).value[0];
    }
  }
}
