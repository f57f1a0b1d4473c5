/** The directories that FatBuilder.build writes (scripts/make_live_iso.py), and
    what a listing of each shows. */
module FatDirs {
  import opened FatBytes
  import opened FatNames
  import opened FatRecords
  import opened FatVolume
  import opened FatTree

  /** All that the records of a tree need: its short names, within the fields. */
  predicate Ready(nodes: seq<Node>, shorts: seq<Bytes>) {
    && Named(nodes) && |shorts| == |nodes| && Sized(shorts, 11)
    && forall i :: 0 <= i < |nodes| ==> Fitting(nodes, shorts, i)
  }

  predicate Fitting(nodes: seq<Node>, shorts: seq<Bytes>, i: nat)
    requires i < |nodes| == |shorts| && Sized(shorts, 11)
  {
    shorts[i][0] != 0 && First(nodes, i) < 0x10000 && Size(nodes[i]) < 0x1_0000_0000
  }

  function Size(n: Node): nat { if n.File? then |n.data| else 0 }

  function Attr(n: Node): byte { if n.Dir? then DIR_ATTR else FILE_ATTR }

  // ----- Who is in a directory ---------------------------------------------

  predicate IsKid(n: Node, p: Path, dirs: bool) {
    n.path != [] && Parent(n.path) == p && n.Dir? == dirs
  }

  function KidsUpTo(nodes: seq<Node>, p: Path, dirs: bool, n: nat): (r: seq<nat>)
    requires n <= |nodes|
    ensures forall k :: 0 <= k < |r| ==> r[k] < n && IsKid(nodes[r[k]], p, dirs)
  {
    if n == 0 then []
    else KidsUpTo(nodes, p, dirs, n - 1) + if IsKid(nodes[n - 1], p, dirs) then [n - 1] else []
  }

  /** The entries of directory `p`: its directories, then its files. */
  function Kids(nodes: seq<Node>, p: Path): (r: seq<nat>)
    ensures forall k :: 0 <= k < |r| ==> r[k] < |nodes| && nodes[r[k]].path != [] && Parent(nodes[r[k]].path) == p
  {
    KidsUpTo(nodes, p, true, |nodes|) + KidsUpTo(nodes, p, false, |nodes|)
  }

  lemma {:induction false} KidsUpToHas(nodes: seq<Node>, p: Path, dirs: bool, n: nat, i: nat)
    requires i < n <= |nodes| && IsKid(nodes[i], p, dirs)
    ensures i in KidsUpTo(nodes, p, dirs, n)
    decreases n
  {
    if i < n - 1 { KidsUpToHas(nodes, p, dirs, n - 1, i); }
  }

  lemma {:induction false} KidsHas(nodes: seq<Node>, i: nat)
    requires i < |nodes| && nodes[i].path != []
    ensures i in Kids(nodes, Parent(nodes[i].path))
  {
    KidsUpToHas(nodes, Parent(nodes[i].path), nodes[i].Dir?, |nodes|, i);
  }

  // ----- Records and what they list ----------------------------------------

  function KidGroup(nodes: seq<Node>, shorts: seq<Bytes>, i: nat): (r: seq<Bytes>)
    requires Ready(nodes, shorts) && i < |nodes|
    ensures Sized(r, RECORD)
  {
    assert Fitting(nodes, shorts, i);
    Group(Leaf(nodes[i].path), shorts[i], Attr(nodes[i]), First(nodes, i), Size(nodes[i]))
  }

  function KidItem(nodes: seq<Node>, i: nat): Item
    requires i < |nodes| && nodes[i].path != []
  {
    Item(Leaf(nodes[i].path), Attr(nodes[i]), First(nodes, i), Size(nodes[i]))
  }

  predicate Indices(nodes: seq<Node>, kids: seq<nat>) {
    forall k :: 0 <= k < |kids| ==> kids[k] < |nodes|
  }

  function Groups(nodes: seq<Node>, shorts: seq<Bytes>, kids: seq<nat>): (r: seq<Bytes>)
    requires Ready(nodes, shorts) && Indices(nodes, kids)
    ensures Sized(r, RECORD)
  {
    if kids == [] then [] else KidGroup(nodes, shorts, kids[0]) + Groups(nodes, shorts, kids[1..])
  }

  function Items(nodes: seq<Node>, kids: seq<nat>): (r: seq<Item>)
    requires Named(nodes) && Indices(nodes, kids)
    ensures |r| == |kids| && forall k :: 0 <= k < |kids| ==> r[k] == KidItem(nodes, kids[k])
  {
    seq(|kids|, k requires 0 <= k < |kids| => KidItem(nodes, kids[k]))
  }

  lemma {:induction false} ScanKid(nodes: seq<Node>, shorts: seq<Bytes>, i: nat, tail: seq<Bytes>)
    requires Ready(nodes, shorts) && i < |nodes| && Sized(tail, RECORD)
    ensures Sized(KidGroup(nodes, shorts, i) + tail, RECORD)
    ensures Scan(KidGroup(nodes, shorts, i) + tail, []) == [KidItem(nodes, i)] + Scan(tail, [])
  {
    assert Fitting(nodes, shorts, i);
    ScanGroup(Leaf(nodes[i].path), shorts[i], Attr(nodes[i]), First(nodes, i), Size(nodes[i]), tail);
  }

  lemma {:induction false} Regrouped(a: seq<Bytes>, b: seq<Bytes>, c: seq<Bytes>)
    ensures a + b + c == a + (b + c)
  {}

  lemma {:induction false} ItemsCons(nodes: seq<Node>, kids: seq<nat>)
    requires Named(nodes) && Indices(nodes, kids) && kids != []
    ensures Items(nodes, kids) == [KidItem(nodes, kids[0])] + Items(nodes, kids[1..])
  {}

  lemma {:induction false} ScanGroups(nodes: seq<Node>, shorts: seq<Bytes>, kids: seq<nat>, rest: seq<Bytes>)
    requires Ready(nodes, shorts) && Indices(nodes, kids) && Sized(rest, RECORD)
    ensures Sized(Groups(nodes, shorts, kids) + rest, RECORD)
    ensures Scan(Groups(nodes, shorts, kids) + rest, []) == Items(nodes, kids) + Scan(rest, [])
    decreases |kids|
  {
    if kids == [] {
      assert Groups(nodes, shorts, kids) + rest == rest && Items(nodes, kids) == [];
    } else {
      ScanGroups(nodes, shorts, kids[1..], rest);
      ScanOneMore(nodes, shorts, kids[0], Groups(nodes, shorts, kids[1..]), rest, Items(nodes, kids[1..]));
      ItemsCons(nodes, kids);
    }
  }

  lemma {:induction false} ScanOneMore(nodes: seq<Node>, shorts: seq<Bytes>, i: nat, tail: seq<Bytes>, rest: seq<Bytes>, items: seq<Item>)
    requires Ready(nodes, shorts) && i < |nodes| && Sized(tail, RECORD) && Sized(rest, RECORD)
    requires Sized(tail + rest, RECORD) && Scan(tail + rest, []) == items + Scan(rest, [])
    ensures Sized(KidGroup(nodes, shorts, i) + tail + rest, RECORD)
    ensures Scan(KidGroup(nodes, shorts, i) + tail + rest, []) == [KidItem(nodes, i)] + items + Scan(rest, [])
  {
    ScanKid(nodes, shorts, i, tail + rest);
    Regrouped(KidGroup(nodes, shorts, i), tail, rest);
    assert [KidItem(nodes, i)] + (items + Scan(rest, [])) == [KidItem(nodes, i)] + items + Scan(rest, []);
  }

  lemma {:induction false} ScanAllGroups(nodes: seq<Node>, shorts: seq<Bytes>, kids: seq<nat>, n: nat)
    requires Ready(nodes, shorts) && Indices(nodes, kids)
    ensures Sized(Groups(nodes, shorts, kids) + Records(Fill(n, 0)), RECORD)
    ensures Scan(Groups(nodes, shorts, kids) + Records(Fill(n, 0)), []) == Items(nodes, kids)
  {
    ScanEnd(n);
    ScanGroups(nodes, shorts, kids, Records(Fill(n, 0)));
  }

  // ----- Dot entries and the root ------------------------------------------

  function DotName(dots: nat): (s: Bytes)
    requires 1 <= dots <= 2
    ensures |s| == 11 && s[0] == DOT
  {
    Justify(Fill(dots, DOT), 11, SPACE)
  }

  /** The two entries every directory but the root starts with. */
  function DotRecords(self: nat, parent: nat): (r: seq<Bytes>)
    requires self < 0x10000 && parent < 0x10000
    ensures Sized(r, RECORD)
  {
    [ShortRecord(DotName(1), DIR_ATTR, self, 0), ShortRecord(DotName(2), DIR_ATTR, parent, 0)]
  }

  lemma {:induction false} DotDisplay(dots: nat)
    requires 1 <= dots <= 2
    ensures Display(DotName(dots)) == Fill(dots, DOT)
  {
    var s := DotName(dots);
    assert s[..8] == Fill(dots, DOT) + Fill(8 - dots, SPACE) && s[8..] == [] + Fill(3, SPACE);
    StripUndoesFill(Fill(dots, DOT), 8 - dots);
    StripUndoesFill([], 3);
  }

  lemma {:induction false} ScanDots(self: nat, parent: nat, rest: seq<Bytes>)
    requires self < 0x10000 && parent < 0x10000 && Sized(rest, RECORD)
    ensures Sized(DotRecords(self, parent) + rest, RECORD)
    ensures Scan(DotRecords(self, parent) + rest, []) ==
            [Item(Fill(1, DOT), DIR_ATTR, self, 0), Item(Fill(2, DOT), DIR_ATTR, parent, 0)] + Scan(rest, [])
  {
    DotDisplay(1);
    DotDisplay(2);
    ScanPair(DotName(1), self, DotName(2), parent, rest);
  }

  lemma {:induction false} ScanPair(s: Bytes, first: nat, t: Bytes, second: nat, rest: seq<Bytes>)
    requires |s| == 11 && |t| == 11 && s[0] != 0 && t[0] != 0 && first < 0x10000 && second < 0x10000 && Sized(rest, RECORD)
    ensures var pair := [ShortRecord(s, DIR_ATTR, first, 0), ShortRecord(t, DIR_ATTR, second, 0)];
            && Sized(pair + rest, RECORD)
            && Scan(pair + rest, []) == [Item(Display(s), DIR_ATTR, first, 0), Item(Display(t), DIR_ATTR, second, 0)] + Scan(rest, [])
  {
    var a, b := ShortRecord(s, DIR_ATTR, first, 0), ShortRecord(t, DIR_ATTR, second, 0);
    ScanShort(t, DIR_ATTR, second, 0, rest, []);
    ScanShort(s, DIR_ATTR, first, 0, [b] + rest, []);
    PairFirst(a, b, rest);
  }

  lemma {:induction false} PairFirst(a: Bytes, b: Bytes, rest: seq<Bytes>)
    ensures [a, b] + rest == [a] + ([b] + rest)
  {}

  function LabelRecord(tag: Bytes): (r: Bytes)
    requires |tag| == 11
    ensures |r| == RECORD
  {
    ShortRecord(tag, LABEL_ATTR, 0, 0)
  }

  lemma {:induction false} ScanLabel(tag: Bytes, rest: seq<Bytes>)
    requires |tag| == 11 && tag[0] != 0 && Sized(rest, RECORD)
    ensures Sized([LabelRecord(tag)] + rest, RECORD)
    ensures Scan([LabelRecord(tag)] + rest, []) == Scan(rest, [])
  {
    ShortRecordFields(tag, LABEL_ATTR, 0, 0);
    var r := LabelRecord(tag);
    assert r[0] == r[..11][0] && ([r] + rest)[1..] == rest;
  }

  // ----- Regions -----------------------------------------------------------

  /** The records, filled up to the region's size. */
  function Region(records: seq<Bytes>, size: nat): (r: Bytes)
    requires Sized(records, RECORD) && |Flatten(records)| <= size
    ensures |r| == size
  {
    Justify(Flatten(records), size, 0)
  }

  lemma {:induction false} ListingOfRegion(records: seq<Bytes>, size: nat)
    requires Sized(records, RECORD) && |Flatten(records)| <= size
    ensures Sized(records + Records(Fill(size - |Flatten(records)|, 0)), RECORD)
    ensures Listing(Region(records, size)) == Scan(records + Records(Fill(size - |Flatten(records)|, 0)), [])
  {
    RecordsOfFlatten(records, Fill(size - |Flatten(records)|, 0));
  }

  function DotItems(self: nat, parent: nat): seq<Item> {
    [Item(Fill(1, DOT), DIR_ATTR, self, 0), Item(Fill(2, DOT), DIR_ATTR, parent, 0)]
  }

  lemma {:induction false} DotListing(self: nat, parent: nat, g: seq<Bytes>, size: nat)
    requires self < 0x10000 && parent < 0x10000 && Sized(g, RECORD)
    requires Sized(DotRecords(self, parent) + g, RECORD) && |Flatten(DotRecords(self, parent) + g)| <= size
    ensures var zeros := Records(Fill(size - |Flatten(DotRecords(self, parent) + g)|, 0));
            && Sized(g + zeros, RECORD)
            && Listing(Region(DotRecords(self, parent) + g, size)) == DotItems(self, parent) + Scan(g + zeros, [])
  {
    var dots := DotRecords(self, parent);
    ListingOfRegion(dots + g, size);
    var zeros := Records(Fill(size - |Flatten(dots + g)|, 0));
    Regrouped(dots, g, zeros);
    ScanDots(self, parent, g + zeros);
  }

  lemma {:induction false} LabelListing(tag: Bytes, g: seq<Bytes>, size: nat)
    requires |tag| == 11 && tag[0] != 0 && Sized(g, RECORD)
    requires Sized([LabelRecord(tag)] + g, RECORD) && |Flatten([LabelRecord(tag)] + g)| <= size
    ensures var zeros := Records(Fill(size - |Flatten([LabelRecord(tag)] + g)|, 0));
            Sized(g + zeros, RECORD) && Listing(Region([LabelRecord(tag)] + g, size)) == Scan(g + zeros, [])
  {
    ListingOfRegion([LabelRecord(tag)] + g, size);
    var zeros := Records(Fill(size - |Flatten([LabelRecord(tag)] + g)|, 0));
    Regrouped([LabelRecord(tag)], g, zeros);
    ScanLabel(tag, g + zeros);
  }

  /** The records of a directory below the root. */
  function DirRecords(nodes: seq<Node>, shorts: seq<Bytes>, p: Path, self: nat, parent: nat): (r: seq<Bytes>)
    requires Ready(nodes, shorts) && self < 0x10000 && parent < 0x10000
    ensures Sized(r, RECORD)
  {
    DotRecords(self, parent) + Groups(nodes, shorts, Kids(nodes, p))
  }

  function RootRecords(nodes: seq<Node>, shorts: seq<Bytes>, tag: Bytes): (r: seq<Bytes>)
    requires Ready(nodes, shorts) && |tag| == 11
    ensures Sized(r, RECORD)
  {
    [LabelRecord(tag)] + Groups(nodes, shorts, Kids(nodes, []))
  }

  /** A directory below the root lists its dot entries and its own entries. */
  lemma {:induction false} DirListing(nodes: seq<Node>, shorts: seq<Bytes>, p: Path, self: nat, parent: nat, size: nat)
    requires Ready(nodes, shorts) && self < 0x10000 && parent < 0x10000
    requires |Flatten(DirRecords(nodes, shorts, p, self, parent))| <= size
    ensures Listing(Region(DirRecords(nodes, shorts, p, self, parent), size)) == DotItems(self, parent) + Items(nodes, Kids(nodes, p))
  {
    var kids := Kids(nodes, p);
    DotListing(self, parent, Groups(nodes, shorts, kids), size);
    ScanAllGroups(nodes, shorts, kids, size - |Flatten(DirRecords(nodes, shorts, p, self, parent))|);
  }

  /** The root lists its own entries; the volume label does not show. */
  lemma {:induction false} RootListing(nodes: seq<Node>, shorts: seq<Bytes>, tag: Bytes, size: nat)
    requires Ready(nodes, shorts) && |tag| == 11 && tag[0] != 0
    requires |Flatten(RootRecords(nodes, shorts, tag))| <= size
    ensures Listing(Region(RootRecords(nodes, shorts, tag), size)) == Items(nodes, Kids(nodes, []))
  {
    var kids := Kids(nodes, []);
    LabelListing(tag, Groups(nodes, shorts, kids), size);
    ScanAllGroups(nodes, shorts, kids, size - |Flatten(RootRecords(nodes, shorts, tag))|);
  }

  // ----- Looking a name up -------------------------------------------------

  function Find(items: seq<Item>, name: Name): Option<Item> {
    if items == [] then None else if items[0].name == name then Some(items[0]) else Find(items[1..], name)
  }

  lemma {:induction false} FindMisses(items: seq<Item>, name: Name)
    requires forall k :: 0 <= k < |items| ==> items[k].name != name
    ensures Find(items, name) == None
    decreases |items|
  {
    if items != [] { FindMisses(items[1..], name); }
  }

  lemma {:induction false} FindHits(items: seq<Item>, name: Name, item: Item)
    requires item in items && item.name == name && forall k :: 0 <= k < |items| && items[k].name == name ==> items[k] == item
    ensures Find(items, name) == Some(item)
    decreases |items|
  {
    if items[0].name != name {
      assert items == [items[0]] + items[1..];
      FindHits(items[1..], name, item);
    }
  }

  lemma {:induction false} FindSkips(first: seq<Item>, rest: seq<Item>, name: Name)
    requires |first| == 2 && first[0].name != name && first[1].name != name
    ensures Find(first + rest, name) == Find(rest, name)
  {
    assert (first + rest)[1..][0] == first[1] && (first + rest)[1..][1..] == rest;
  }

  predicate HasPath(nodes: seq<Node>, p: Path) {
    exists i :: 0 <= i < |nodes| && nodes[i].path == p
  }

  /** Among a directory's entries a name finds the entry of that path, and
      nothing else. */
  lemma {:induction false} FindKid(nodes: seq<Node>, p: Path, i: nat)
    requires TreeOk(nodes) && i < |nodes| && nodes[i].path == p && p != []
    ensures Find(Items(nodes, Kids(nodes, Parent(p))), Leaf(p)) == Some(KidItem(nodes, i))
  {
    var kids := Kids(nodes, Parent(p));
    var items := Items(nodes, kids);
    KidsHas(nodes, i);
    var k :| 0 <= k < |kids| && kids[k] == i;
    assert items[k] == KidItem(nodes, i);
    forall m | 0 <= m < |items| && items[m].name == Leaf(p) ensures items[m] == KidItem(nodes, i) {
      SamePath(nodes[kids[m]].path, p);
    }
    FindHits(items, Leaf(p), KidItem(nodes, i));
  }

  lemma {:induction false} SamePath(p: Path, q: Path)
    requires p != [] && q != [] && Parent(p) == Parent(q) && Leaf(p) == Leaf(q)
    ensures p == q
  {
    assert p == Parent(p) + [Leaf(p)] && q == Parent(q) + [Leaf(q)];
  }

  lemma {:induction false} FindNoKid(nodes: seq<Node>, p: Path)
    requires TreeOk(nodes) && p != [] && !HasPath(nodes, p)
    ensures Find(Items(nodes, Kids(nodes, Parent(p))), Leaf(p)) == None
  {
    var kids := Kids(nodes, Parent(p));
    var items := Items(nodes, kids);
    forall m | 0 <= m < |items| ensures items[m].name != Leaf(p) {
      if items[m].name == Leaf(p) { SamePath(nodes[kids[m]].path, p); }
    }
    FindMisses(items, Leaf(p));
  }
}
