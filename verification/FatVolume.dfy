/** The layout of a FAT16 volume (scripts/make_live_iso.py): boot sector, two
    copies of the allocation table, root directory and data clusters, and a reader
    that finds its way from the boot sector's fields. */
module FatVolume {
  import opened FatBytes
  import opened FatRecords
  import Arith

  const SECTOR: nat := 512
  const CLUSTER: nat := 4096
  const ROOT_BYTES: nat := 16384
  const MAX_ENTRIES: nat := 0xFFEF
  const END_OF_CHAIN: nat := 0xFFFF

  // ----- Writing -----------------------------------------------------------

  function CeilDiv(v: nat, d: nat): nat
    requires 0 < d
  {
    (v + d - 1) / d
  }

  function FatSectors(entries: nat): nat { CeilDiv(entries * 2, SECTOR) }

  lemma {:induction false} FatSectorsHold(entries: nat)
    ensures 2 * entries <= FatSectors(entries) * SECTOR < 2 * entries + SECTOR
  {}

  /** Jump, name and the geometry a reader needs. */
  function BootHead(fatSectors: nat, total: nat): (b: Bytes)
    requires fatSectors < 0x10000 && total < 0x1_0000_0000
    ensures |b| == 36
  {
    [0xEB, 0x3C, 0x90] + [0x52, 0x42, 0x42, 0x4F, 0x4E, 0x45, 0x31, 0x35]
    + Le16(SECTOR) + [8] + Le16(1) + [2] + Le16(512) + Le16(if total < 0x10000 then total else 0)
    + [0xF8] + Le16(fatSectors) + Le16(63) + Le16(255) + Le32(0) + Le32(if total < 0x10000 then 0 else total)
  }

  function BootTail(tag: Bytes, serial: nat): (b: Bytes)
    requires |tag| == 11 && serial < 0x1_0000_0000
    ensures |b| == SECTOR - 36
  {
    [0x80, 0, 0x29] + Le32(serial) + tag + [0x46, 0x41, 0x54, 0x31, 0x36, 0x20, 0x20, 0x20] + Fill(448, 0) + [0x55, 0xAA]
  }

  function Words(table: seq<nat>): (r: seq<Bytes>)
    requires forall i :: 0 <= i < |table| ==> table[i] < 0x10000
    ensures |r| == |table| && Sized(r, 2) && forall i :: 0 <= i < |r| ==> r[i] == Le16(table[i])
  {
    seq(|table|, i requires 0 <= i < |table| => Le16(table[i]))
  }

  /** The parts of a volume: allocation table, root directory, data clusters. */
  datatype Volume = Volume(table: seq<nat>, root: Bytes, clusters: seq<Bytes>)

  predicate Ok(v: Volume) {
    && |v.table| == |v.clusters| + 2 <= MAX_ENTRIES
    && (forall i :: 0 <= i < |v.table| ==> v.table[i] < 0x10000)
    && |v.root| == ROOT_BYTES && Sized(v.clusters, CLUSTER)
  }

  function Sectors(v: Volume): nat { FatSectors(|v.table|) }

  function TotalSectors(v: Volume): nat {
    1 + 2 * Sectors(v) + 32 + |v.clusters| * 8
  }

  lemma {:induction false} SectorsFit(v: Volume)
    requires Ok(v)
    ensures Sectors(v) <= 256 && TotalSectors(v) < 0x1_0000_0000
  {
    FatSectorsHold(|v.table|);
  }

  function Table(v: Volume): (b: Bytes)
    requires Ok(v)
    ensures |b| == Sectors(v) * SECTOR
  {
    FatSectorsHold(|v.table|);
    FlattenLength(Words(v.table), 2);
    Justify(Flatten(Words(v.table)), Sectors(v) * SECTOR, 0)
  }

  function Image(v: Volume, tag: Bytes, serial: nat): Bytes
    requires Ok(v) && |tag| == 11 && serial < 0x1_0000_0000
  {
    SectorsFit(v);
    BootHead(Sectors(v), TotalSectors(v)) + BootTail(tag, serial) + Table(v) + Table(v) + v.root + Flatten(v.clusters)
  }

  /** The image is already a whole number of sectors, and as many as the boot
      sector says: padding it adds nothing and the final size test cannot fail. */
  lemma {:induction false} ImageSize(v: Volume, tag: Bytes, serial: nat)
    requires Ok(v) && |tag| == 11 && serial < 0x1_0000_0000
    ensures |Image(v, tag, serial)| == TotalSectors(v) * SECTOR
  {
    SectorsFit(v);
    FlattenLength(v.clusters, CLUSTER);
  }

  // ----- Reading -----------------------------------------------------------

  datatype Geometry = Geometry(sector: nat, perCluster: nat, reserved: nat, fats: nat, rootEntries: nat, fatSectors: nat)

  function GeometryOf(img: Bytes): Geometry
    requires SECTOR <= |img|
  {
    Geometry(Get16(img, 11), img[13] as int, Get16(img, 14), img[16] as int, Get16(img, 17), Get16(img, 22))
  }

  /** The sector count of the boot sector, from whichever field holds it. */
  function TotalOf(img: Bytes): nat
    requires SECTOR <= |img|
  {
    if Get16(img, 19) != 0 then Get16(img, 19) else Get32(img, 32)
  }

  /** The number of data clusters a reader works out from the boot sector. */
  function ClusterCount(img: Bytes): int
    requires SECTOR <= |img|
  {
    var g := GeometryOf(img);
    if g.sector == 0 || g.perCluster == 0 then 0
    else (TotalOf(img) - (g.reserved + g.fats * g.fatSectors + CeilDiv(g.rootEntries * RECORD, g.sector))) / g.perCluster
  }

  datatype FatType = Fat12 | Fat16 | Fat32

  /** The type of the volume, which by Microsoft's FAT File System Specification
      the number of clusters alone decides. */
  function TypeOf(img: Bytes): FatType
    requires SECTOR <= |img|
  {
    if ClusterCount(img) < 4085 then Fat12 else if ClusterCount(img) < 65525 then Fat16 else Fat32
  }

  function RootStart(g: Geometry): nat { g.reserved * g.sector + g.fats * (g.fatSectors * g.sector) }

  function DataStart(g: Geometry): nat { RootStart(g) + g.rootEntries * RECORD }

  function ClusterSize(g: Geometry): nat { g.perCluster * g.sector }

  /** Bytes `at..at + n`, cut off at the end of the image. */
  function Slice(img: Bytes, at: nat, n: nat): Bytes {
    if at + n <= |img| then img[at..at + n] else if at <= |img| then img[at..] else []
  }

  function Next(img: Bytes, c: nat): nat
    requires SECTOR <= |img|
  {
    var g := GeometryOf(img);
    var at := g.reserved * g.sector + 2 * c;
    if at + 2 <= |img| then Get16(img, at) else 0
  }

  function ClusterAt(img: Bytes, c: nat): Bytes
    requires SECTOR <= |img| && 2 <= c
  {
    var g := GeometryOf(img);
    Arith.MulMono(0, c - 2, ClusterSize(g));
    Slice(img, DataStart(g) + (c - 2) * ClusterSize(g), ClusterSize(g))
  }

  function RootRegion(img: Bytes): Bytes
    requires SECTOR <= |img|
  {
    var g := GeometryOf(img);
    Slice(img, RootStart(g), g.rootEntries * RECORD)
  }

  /** The clusters of a chain, at most `limit` of them. */
  function Walk(img: Bytes, c: nat, limit: nat): (r: seq<nat>)
    requires SECTOR <= |img|
    ensures forall i :: 0 <= i < |r| ==> 2 <= r[i]
    decreases limit
  {
    if limit == 0 || c < 2 || c >= 0xFFF0 then [] else [c] + Walk(img, Next(img, c), limit - 1)
  }

  function Contents(img: Bytes, chain: seq<nat>): (r: seq<Bytes>)
    requires SECTOR <= |img| && forall i :: 0 <= i < |chain| ==> 2 <= chain[i]
    ensures |r| == |chain| && forall i :: 0 <= i < |chain| ==> r[i] == ClusterAt(img, chain[i])
  {
    seq(|chain|, i requires 0 <= i < |chain| => ClusterAt(img, chain[i]))
  }

  /** A chain's bytes; no chain has more clusters than the image has bytes. */
  function ReadChain(img: Bytes, first: nat): Bytes
    requires SECTOR <= |img|
  {
    Flatten(Contents(img, Walk(img, first, |img|)))
  }

  // ----- The reader on a written volume ------------------------------------

  lemma {:induction false} HeadFields(fatSectors: nat, total: nat)
    requires fatSectors < 0x10000 && total < 0x1_0000_0000
    ensures var b := BootHead(fatSectors, total);
            && b[11..13] == Le16(SECTOR) && b[13] == 8 && b[14..16] == Le16(1) && b[16] == 2
            && b[17..19] == Le16(512) && b[22..24] == Le16(fatSectors)
            && b[19..21] == Le16(if total < 0x10000 then total else 0)
            && b[32..36] == Le32(if total < 0x10000 then 0 else total)
  {
    var b := BootHead(fatSectors, total);
    var low, high := Le16(if total < 0x10000 then total else 0), Le32(if total < 0x10000 then 0 else total);
    assert b[11..13] == [b[11], b[12]] && b[14..16] == [b[14], b[15]] && b[17..19] == [b[17], b[18]];
    assert b[19] == low[0] && b[20] == low[1] && b[19..21] == [b[19], b[20]];
    assert b[22] == Le16(fatSectors)[0] && b[23] == Le16(fatSectors)[1] && b[22..24] == [b[22], b[23]];
    assert b[32] == high[0] && b[33] == high[1] && b[34] == high[2] && b[35] == high[3];
    assert b[32..36] == [b[32], b[33], b[34], b[35]];
  }

  lemma {:induction false} PrefixReads(a: Bytes, b: Bytes, at: nat, v: nat)
    requires at + 2 <= |a| && v < 0x10000 && a[at..at + 2] == Le16(v)
    ensures Get16(a + b, at) == v
  {
    assert (a + b)[at..at + 2] == a[at..at + 2];
    Get16Reads(a + b, at, v);
  }

  function Body(v: Volume, tag: Bytes, serial: nat): Bytes
    requires Ok(v) && |tag| == 11 && serial < 0x1_0000_0000
  {
    BootTail(tag, serial) + Table(v) + Table(v) + v.root + Flatten(v.clusters)
  }

  lemma {:induction false} ImageIsHeadAndBody(v: Volume, tag: Bytes, serial: nat)
    requires Ok(v) && |tag| == 11 && serial < 0x1_0000_0000
    ensures Sectors(v) < 0x10000 && TotalSectors(v) < 0x1_0000_0000
    ensures Image(v, tag, serial) == BootHead(Sectors(v), TotalSectors(v)) + Body(v, tag, serial)
    ensures SECTOR <= |Image(v, tag, serial)|
  {
    SectorsFit(v);
    ImageSize(v, tag, serial);
  }

  /** The reader sees the geometry the writer used. */
  lemma {:induction false} ReadsGeometry(v: Volume, tag: Bytes, serial: nat)
    requires Ok(v) && |tag| == 11 && serial < 0x1_0000_0000
    ensures SECTOR <= |Image(v, tag, serial)|
    ensures GeometryOf(Image(v, tag, serial)) == Geometry(SECTOR, 8, 1, 2, 512, Sectors(v))
  {
    SectorsFit(v);
    ImageIsHeadAndBody(v, tag, serial);
    var h, b := BootHead(Sectors(v), TotalSectors(v)), Body(v, tag, serial);
    HeadFields(Sectors(v), TotalSectors(v));
    PrefixReads(h, b, 11, SECTOR);
    PrefixReads(h, b, 14, 1);
    PrefixReads(h, b, 17, 512);
    PrefixReads(h, b, 22, Sectors(v));
  }

  lemma {:induction false} ReadsTotal(v: Volume, tag: Bytes, serial: nat)
    requires Ok(v) && |tag| == 11 && serial < 0x1_0000_0000
    ensures SECTOR <= |Image(v, tag, serial)| && TotalOf(Image(v, tag, serial)) == TotalSectors(v)
  {
    SectorsFit(v);
    ImageIsHeadAndBody(v, tag, serial);
    var total := TotalSectors(v);
    var h, b := BootHead(Sectors(v), total), Body(v, tag, serial);
    HeadFields(Sectors(v), total);
    PrefixReads(h, b, 19, if total < 0x10000 then total else 0);
    assert (h + b)[32..36] == h[32..36];
    Get32Reads(h + b, 32, if total < 0x10000 then 0 else total);
  }

  /** The reader counts the clusters that were written, so the volume is what its
      name says, FAT16, if and only if there are at least 4085 of them. */
  lemma {:induction false} TypeByCount(v: Volume, tag: Bytes, serial: nat)
    requires Ok(v) && |tag| == 11 && serial < 0x1_0000_0000
    ensures SECTOR <= |Image(v, tag, serial)| && ClusterCount(Image(v, tag, serial)) == |v.clusters|
    ensures TypeOf(Image(v, tag, serial)) == if |v.clusters| >= 4085 then Fat16 else Fat12
  {
    ReadsGeometry(v, tag, serial);
    ReadsTotal(v, tag, serial);
    assert CeilDiv(512 * RECORD, SECTOR) == 32;
    Arith.DivUnique(|v.clusters| * 8, 8, |v.clusters|, 0);
  }

  lemma {:induction false} SliceOfMiddle(a: Bytes, m: Bytes, z: Bytes, at: nat, n: nat)
    requires at + n <= |m|
    ensures (a + m + z)[|a| + at..|a| + at + n] == m[at..at + n]
  {}

  /** Entry `c` of the allocation table is read back. */
  lemma {:induction false} ReadsTable(v: Volume, tag: Bytes, serial: nat, c: nat)
    requires Ok(v) && |tag| == 11 && serial < 0x1_0000_0000 && c < |v.table|
    ensures SECTOR <= |Image(v, tag, serial)| && Next(Image(v, tag, serial), c) == v.table[c]
  {
    SectorsFit(v);
    ReadsGeometry(v, tag, serial);
    var img := Image(v, tag, serial);
    var a, z := BootHead(Sectors(v), TotalSectors(v)) + BootTail(tag, serial), Table(v) + v.root + Flatten(v.clusters);
    assert img == a + Table(v) + z;
    TableWord(v, c);
    SliceOfMiddle(a, Table(v), z, 2 * c, 2);
    Get16Reads(img, SECTOR + 2 * c, v.table[c]);
  }

  lemma {:induction false} TableWord(v: Volume, c: nat)
    requires Ok(v) && c < |v.table|
    ensures 2 * c + 2 <= |Table(v)| && Table(v)[2 * c..2 * c + 2] == Le16(v.table[c])
  {
    var w := Words(v.table);
    FatSectorsHold(|v.table|);
    FlattenLength(w, 2);
    FlattenBlock(w, 2, c);
    assert Table(v)[2 * c..2 * c + 2] == Flatten(w)[c * 2..c * 2 + 2];
  }

  lemma {:induction false} DataIsAt(v: Volume)
    requires Ok(v)
    ensures DataStart(Geometry(SECTOR, 8, 1, 2, 512, Sectors(v))) == SECTOR + 2 * (Sectors(v) * SECTOR) + ROOT_BYTES
    ensures RootStart(Geometry(SECTOR, 8, 1, 2, 512, Sectors(v))) == SECTOR + 2 * (Sectors(v) * SECTOR)
    ensures ClusterSize(Geometry(SECTOR, 8, 1, 2, 512, Sectors(v))) == CLUSTER
  {}

  lemma {:induction false} ReadsRoot(v: Volume, tag: Bytes, serial: nat)
    requires Ok(v) && |tag| == 11 && serial < 0x1_0000_0000
    ensures SECTOR <= |Image(v, tag, serial)| && RootRegion(Image(v, tag, serial)) == v.root
  {
    SectorsFit(v);
    ReadsGeometry(v, tag, serial);
    DataIsAt(v);
    var a := BootHead(Sectors(v), TotalSectors(v)) + BootTail(tag, serial) + Table(v) + Table(v);
    assert Image(v, tag, serial) == a + v.root + Flatten(v.clusters);
    SliceOfMiddle(a, v.root, Flatten(v.clusters), 0, ROOT_BYTES);
  }

  /** Every data cluster is read back. */
  lemma {:induction false} ReadsCluster(v: Volume, tag: Bytes, serial: nat, c: nat)
    requires Ok(v) && |tag| == 11 && serial < 0x1_0000_0000 && 2 <= c < |v.table|
    ensures SECTOR <= |Image(v, tag, serial)| && ClusterAt(Image(v, tag, serial), c) == v.clusters[c - 2]
  {
    SectorsFit(v);
    ReadsGeometry(v, tag, serial);
    DataIsAt(v);
    FlattenBlock(v.clusters, CLUSTER, c - 2);
    var a := BootHead(Sectors(v), TotalSectors(v)) + BootTail(tag, serial) + Table(v) + Table(v) + v.root;
    var data := Flatten(v.clusters);
    assert Image(v, tag, serial) == a + data + [];
    SliceOfMiddle(a, data, [], (c - 2) * CLUSTER, CLUSTER);
  }

  // ----- Chains ------------------------------------------------------------

  function Count(first: nat, n: nat): (r: seq<nat>)
    ensures |r| == n && forall i :: 0 <= i < n ==> r[i] == first + i
  {
    seq(n, i requires 0 <= i < n => first + i)
  }

  /** The table links `n` clusters in a row and ends the chain there. */
  predicate Chained(table: seq<nat>, first: nat, n: nat) {
    && 0 < n && 2 <= first && first + n <= |table| <= MAX_ENTRIES
    && forall c :: first <= c < first + n ==> table[c] == if c + 1 == first + n then END_OF_CHAIN else c + 1
  }

  /** What the reader sees is this table and these clusters. */
  ghost predicate Shows(img: Bytes, v: Volume) {
    && SECTOR <= |img| && |v.table| == |v.clusters| + 2 <= |img|
    && (forall c :: 0 <= c < |v.table| ==> Next(img, c) == v.table[c])
    && (forall c :: 2 <= c < |v.table| ==> ClusterAt(img, c) == v.clusters[c - 2])
  }

  lemma {:induction false} ImageShows(v: Volume, tag: Bytes, serial: nat)
    requires Ok(v) && |tag| == 11 && serial < 0x1_0000_0000
    ensures Shows(Image(v, tag, serial), v)
  {
    ReadsGeometry(v, tag, serial);
    ImageSize(v, tag, serial);
    FatSectorsHold(|v.table|);
    var img := Image(v, tag, serial);
    forall c | 0 <= c < |v.table| ensures Next(img, c) == v.table[c] { ReadsTable(v, tag, serial, c); }
    forall c | 2 <= c < |v.table| ensures ClusterAt(img, c) == v.clusters[c - 2] { ReadsCluster(v, tag, serial, c); }
  }

  lemma {:induction false} WalksChain(img: Bytes, v: Volume, first: nat, n: nat, limit: nat)
    requires Shows(img, v) && Chained(v.table, first, n) && n <= limit
    ensures Walk(img, first, limit) == Count(first, n)
    decreases n
  {
    assert Next(img, first) == v.table[first];
    if n > 1 {
      WalksChain(img, v, first + 1, n - 1, limit - 1);
      assert Count(first, n) == [first] + Count(first + 1, n - 1);
    } else {
      assert Walk(img, END_OF_CHAIN, limit - 1) == [];
      assert Count(first, n) == [first];
    }
  }

  /** Following a chain reads exactly its clusters, in order. */
  lemma {:induction false} ReadsChain(img: Bytes, v: Volume, first: nat, part: seq<Bytes>)
    requires Shows(img, v) && Chained(v.table, first, |part|) && part == v.clusters[first - 2..first - 2 + |part|]
    ensures ReadChain(img, first) == Flatten(part)
  {
    WalksChain(img, v, first, |part|, |img|);
    ContentsOfRange(img, v, first, part);
  }

  lemma {:induction false} ContentsOfRange(img: Bytes, v: Volume, first: nat, part: seq<Bytes>)
    requires Shows(img, v) && 2 <= first && first + |part| <= |v.table| && part == v.clusters[first - 2..first - 2 + |part|]
    ensures Contents(img, Count(first, |part|)) == part
  {
    forall i | 0 <= i < |part| ensures Contents(img, Count(first, |part|))[i] == part[i] {
      ShowsCluster(img, v, first + i);
    }
  }

  lemma {:induction false} ShowsCluster(img: Bytes, v: Volume, c: nat)
    requires Shows(img, v) && 2 <= c < |v.table|
    ensures ClusterAt(img, c) == v.clusters[c - 2]
  {}

  lemma {:induction false} ReadsNothing(img: Bytes)
    requires SECTOR <= |img|
    ensures ReadChain(img, 0) == []
  {}
}
