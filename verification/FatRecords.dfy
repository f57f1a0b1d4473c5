/** Directory records of a FAT volume (scripts/make_live_iso.py): the short record
    of a file or directory and the long-name records before it, and a reader that
    lists a directory from its bytes alone. */
module FatRecords {
  import opened FatBytes
  import opened FatNames

  const RECORD: nat := 32
  const LONG_ATTR: byte := 0x0F
  const LABEL_ATTR: byte := 0x08
  const DIR_ATTR: byte := 0x10
  const FILE_ATTR: byte := 0x20
  const BUILD_DATE: nat := 23726

  // ----- Writing -----------------------------------------------------------

  /** fat_lfn_checksum over the first `n` bytes. */
  function ChecksumOf(short: Bytes, n: nat): byte
    requires n <= |short|
  {
    if n == 0 then 0
    else
      var v := ChecksumOf(short, n - 1) as int;
      (v % 2 * 128 + v / 2 + short[n - 1] as int) % 256
  }

  function Checksum(short: Bytes): byte { ChecksumOf(short, |short|) }

  /** Long-name records needed for a name and its terminator, 13 units each. */
  function LongCount(name: Name): (n: nat)
    ensures 0 < n && 13 * (n - 1) <= |name| < 13 * n
  {
    |name| / 13 + 1
  }

  /** A long name's units: its characters, a zero, then filler. */
  function Unit(name: Name, i: nat): (u: nat)
    ensures u < 0x10000
  {
    if i < |name| then name[i] as int else if i == |name| then 0 else 0xFFFF
  }

  /** Where unit `j` of a record is kept. */
  function Pos(j: nat): (p: nat)
    requires j < 13
    ensures 1 <= p <= 30 && p + 1 != 11 && p != 11 && p != 12 && p + 1 != 13 && p != 13 && p != 26 && p + 1 != 26 && p != 27
  {
    if j < 5 then 1 + 2 * j else if j < 11 then 4 + 2 * j else 6 + 2 * j
  }

  /** Records are numbered from one; the one written first, the last, is marked. */
  function Order(count: nat, idx: nat): nat
    requires idx < count
  {
    idx + 1 + if idx == count - 1 then 0x40 else 0
  }

  function Half(u: nat, high: bool): byte
    requires u < 0x10000
  {
    if high then u / 256 else u % 256
  }

  function LongByte(name: Name, sum: byte, idx: nat, i: nat): byte
    requires idx < LongCount(name) <= 20 && i < RECORD
  {
    if i == 0 then Order(LongCount(name), idx)
    else if i < 11 then Half(Unit(name, 13 * idx + (i - 1) / 2), (i - 1) % 2 == 1)
    else if i == 11 then LONG_ATTR
    else if i == 12 then 0
    else if i == 13 then sum
    else if i < 26 then Half(Unit(name, 13 * idx + 5 + (i - 14) / 2), (i - 14) % 2 == 1)
    else if i < 28 then 0
    else Half(Unit(name, 13 * idx + 11 + (i - 28) / 2), (i - 28) % 2 == 1)
  }

  function LongRecord(name: Name, sum: byte, idx: nat): (r: Bytes)
    requires idx < LongCount(name) <= 20
    ensures |r| == RECORD && forall i :: 0 <= i < RECORD ==> r[i] == LongByte(name, sum, idx, i)
  {
    seq(RECORD, i requires 0 <= i < RECORD => LongByte(name, sum, idx, i))
  }

  /** fat_lfn_entries: the last part of the name first. */
  function LongRecords(name: Name, short: Bytes): (r: seq<Bytes>)
    requires Supported(name)
    ensures |r| == LongCount(name) <= 20 && Sized(r, RECORD)
    ensures forall k :: 0 <= k < |r| ==> r[k] == LongRecord(name, Checksum(short), |r| - 1 - k)
  {
    seq(LongCount(name), k requires 0 <= k < LongCount(name) => LongRecord(name, Checksum(short), LongCount(name) - 1 - k))
  }

  /** make_short_entry, byte by byte: name, attribute, times and dates, first
      cluster and size. */
  function ShortByte(short: Bytes, attr: byte, first: nat, size: nat, i: nat): byte
    requires |short| == 11 && first < 0x10000 && size < 0x1_0000_0000 && i < RECORD
  {
    if i < 11 then short[i]
    else if i == 11 then attr
    else if i == 16 || i == 18 || i == 24 then Half(BUILD_DATE, false)
    else if i == 17 || i == 19 || i == 25 then Half(BUILD_DATE, true)
    else if i == 26 || i == 27 then Half(first, i == 27)
    else if i >= 28 then Le32(size)[i - 28]
    else 0
  }

  function ShortRecord(short: Bytes, attr: byte, first: nat, size: nat): (r: Bytes)
    requires |short| == 11 && first < 0x10000 && size < 0x1_0000_0000
    ensures |r| == RECORD
  {
    seq(RECORD, i requires 0 <= i < RECORD => ShortByte(short, attr, first, size, i))
  }

  lemma {:induction false} ShortRecordFields(short: Bytes, attr: byte, first: nat, size: nat)
    requires |short| == 11 && first < 0x10000 && size < 0x1_0000_0000
    ensures var r := ShortRecord(short, attr, first, size);
            r[..11] == short && r[11] == attr && Get16(r, 26) == first && Get32(r, 28) == size
  {
    var r := ShortRecord(short, attr, first, size);
    assert r[26] == ShortByte(short, attr, first, size, 26) && r[27] == ShortByte(short, attr, first, size, 27);
    assert r[28..32] == Le32(size);
    Get32Reads(r, 28, size);
  }

  /** make_named_entries: long-name records unless the 8.3 name says it all. */
  function Group(name: Name, short: Bytes, attr: byte, first: nat, size: nat): (r: seq<Bytes>)
    requires Supported(name) && |short| == 11 && first < 0x10000 && size < 0x1_0000_0000
    ensures Sized(r, RECORD)
  {
    (if Fits83(name) && Upper83(name) == short then [] else LongRecords(name, short)) + [ShortRecord(short, attr, first, size)]
  }

  // ----- Reading -----------------------------------------------------------

  datatype Item = Item(name: Name, attr: byte, first: nat, size: nat)

  /** Unit `i` of the long name that pending records hold, last part first. */
  function UnitOf(records: seq<Bytes>, i: nat): nat
    requires Sized(records, RECORD) && i / 13 < |records|
  {
    Get16(records[|records| - 1 - i / 13], Pos(i % 13))
  }

  function ReadUnits(records: seq<Bytes>, i: nat): Name
    requires Sized(records, RECORD)
    decreases 13 * |records| - i
  {
    if i / 13 >= |records| || UnitOf(records, i) == 0 then []
    else [if UnitOf(records, i) < 256 then UnitOf(records, i) else 0x3F] + ReadUnits(records, i + 1)
  }

  /** The pending records belong to this short name and are all there. */
  predicate Intact(records: seq<Bytes>, short: Bytes)
    requires Sized(records, RECORD)
  {
    forall k :: 0 <= k < |records| ==> records[k][13] == Checksum(short) && records[k][0] as int == Order(|records|, |records| - 1 - k)
  }

  function NameOf(pending: seq<Bytes>, short: Bytes): Name
    requires Sized(pending, RECORD) && |short| == 11
  {
    if pending != [] && Intact(pending, short) then ReadUnits(pending, 0) else Display(short)
  }

  /** The items a directory lists: up to the first record that starts with zero,
      leaving out the volume label. */
  function Scan(records: seq<Bytes>, pending: seq<Bytes>): seq<Item>
    requires Sized(records, RECORD) && Sized(pending, RECORD)
    decreases |records|
  {
    if records == [] || records[0][0] == 0 then []
    else
      var r, rest := records[0], records[1..];
      if r[11] == LONG_ATTR then Scan(rest, pending + [r])
      else if r[11] as int / 8 % 2 == 1 then Scan(rest, [])
      else [Item(NameOf(pending, r[..11]), r[11], Get16(r, 26), Get32(r, 28))] + Scan(rest, [])
  }

  // ----- Reading undoes writing --------------------------------------------

  lemma {:induction false} LongRecordUnit(name: Name, sum: byte, idx: nat, j: nat)
    requires idx < LongCount(name) <= 20 && j < 13
    ensures Get16(LongRecord(name, sum, idx), Pos(j)) == Unit(name, 13 * idx + j)
  {
    var r, p, u := LongRecord(name, sum, idx), Pos(j), Unit(name, 13 * idx + j);
    assert r[p] == LongByte(name, sum, idx, p) == u % 256;
    assert r[p + 1] == LongByte(name, sum, idx, p + 1) == u / 256;
  }

  lemma {:induction false} LongRecordsUnit(name: Name, short: Bytes, i: nat)
    requires Supported(name) && i < 13 * LongCount(name)
    ensures i / 13 < LongCount(name) && UnitOf(LongRecords(name, short), i) == Unit(name, i)
  {
    LongRecordUnit(name, Checksum(short), i / 13, i % 13);
  }

  lemma {:induction false} ReadUnitsStep(records: seq<Bytes>, i: nat, u: nat)
    requires Sized(records, RECORD) && i / 13 < |records| && UnitOf(records, i) == u < 256
    ensures ReadUnits(records, i) == if u == 0 then [] else [u] + ReadUnits(records, i + 1)
  {}

  /** The records hold the name's units up to its terminator. */
  ghost predicate HoldUnits(records: seq<Bytes>, name: Name)
    requires Sized(records, RECORD)
  {
    forall i :: 0 <= i <= |name| ==> HoldsUnit(records, name, i)
  }

  predicate HoldsUnit(records: seq<Bytes>, name: Name, i: nat)
    requires Sized(records, RECORD)
  {
    i / 13 < |records| && UnitOf(records, i) == Unit(name, i)
  }

  lemma {:induction false} ReadUnitsAre(records: seq<Bytes>, name: Name, i: nat)
    requires Sized(records, RECORD) && HoldUnits(records, name) && i <= |name|
    requires forall k :: 0 <= k < |name| ==> name[k] != 0
    ensures ReadUnits(records, i) == name[i..]
    decreases |name| - i
  {
    assert HoldsUnit(records, name, i);
    ReadUnitsStep(records, i, Unit(name, i));
    if i < |name| {
      ReadUnitsAre(records, name, i + 1);
      FirstAndRest(name, i);
    }
  }

  lemma {:induction false} FirstAndRest(name: Name, i: nat)
    requires i < |name|
    ensures name[i..] == [name[i]] + name[i + 1..]
  {}

  lemma {:induction false} ReadUnitsIsName(name: Name, short: Bytes)
    requires Supported(name)
    ensures ReadUnits(LongRecords(name, short), 0) == name
  {
    var r := LongRecords(name, short);
    forall i | 0 <= i <= |name| ensures HoldsUnit(r, name, i) { LongRecordsUnit(name, short, i); }
    forall k | 0 <= k < |name| ensures name[k] != 0 { assert Allowed(name[k]) || name[k] == DOT; }
    ReadUnitsAre(r, name, 0);
    assert name[0..] == name;
  }

  lemma {:induction false} LongRecordsIntact(name: Name, short: Bytes)
    requires Supported(name)
    ensures Intact(LongRecords(name, short), short)
  {
    var r := LongRecords(name, short);
    forall k | 0 <= k < |r|
      ensures r[k][13] == Checksum(short) && r[k][0] as int == Order(|r|, |r| - 1 - k)
    {
      var idx := |r| - 1 - k;
      assert r[k][13] == LongByte(name, Checksum(short), idx, 13) && r[k][0] == LongByte(name, Checksum(short), idx, 0);
    }
  }

  /** A long name is read back whole from its records. */
  lemma {:induction false} LongNameReadsBack(name: Name, short: Bytes)
    requires Supported(name) && |short| == 11
    ensures NameOf(LongRecords(name, short), short) == name
  {
    LongRecordsIntact(name, short);
    ReadUnitsIsName(name, short);
  }

  predicate IsLong(records: seq<Bytes>)
    requires Sized(records, RECORD)
  {
    forall k :: 0 <= k < |records| ==> records[k][0] != 0 && records[k][11] == LONG_ATTR
  }

  lemma {:induction false} ScanPending(long: seq<Bytes>, rest: seq<Bytes>, pending: seq<Bytes>)
    requires Sized(long, RECORD) && IsLong(long) && Sized(rest, RECORD) && Sized(pending, RECORD)
    ensures Sized(long + rest, RECORD) && Sized(pending + long, RECORD)
    ensures Scan(long + rest, pending) == Scan(rest, pending + long)
    decreases |long|
  {
    if long == [] {
      assert long + rest == rest && pending + long == pending;
    } else {
      assert (long + rest)[0] == long[0] && (long + rest)[1..] == long[1..] + rest;
      ScanPending(long[1..], rest, pending + [long[0]]);
      assert pending + [long[0]] + long[1..] == pending + long;
    }
  }

  lemma {:induction false} LongRecordsAreLong(name: Name, short: Bytes)
    requires Supported(name)
    ensures IsLong(LongRecords(name, short))
  {
    var r := LongRecords(name, short);
    forall k | 0 <= k < |r| ensures r[k][0] != 0 && r[k][11] == LONG_ATTR {
      var idx := |r| - 1 - k;
      assert r[k][0] == LongByte(name, Checksum(short), idx, 0) && r[k][11] == LongByte(name, Checksum(short), idx, 11);
    }
  }

  lemma {:induction false} ScanShort(short: Bytes, attr: byte, first: nat, size: nat, rest: seq<Bytes>, pending: seq<Bytes>)
    requires |short| == 11 && first < 0x10000 && size < 0x1_0000_0000 && short[0] != 0
    requires (attr == DIR_ATTR || attr == FILE_ATTR) && Sized(rest, RECORD) && Sized(pending, RECORD)
    ensures Sized([ShortRecord(short, attr, first, size)] + rest, RECORD)
    ensures Scan([ShortRecord(short, attr, first, size)] + rest, pending) ==
            [Item(NameOf(pending, short), attr, first, size)] + Scan(rest, [])
  {
    ShortRecordFields(short, attr, first, size);
    var r := ShortRecord(short, attr, first, size);
    assert r[0] == r[..11][0];
    assert ([r] + rest)[1..] == rest;
  }

  /** One entry's records list exactly that entry under its full name. */
  lemma {:induction false} ScanGroup(name: Name, short: Bytes, attr: byte, first: nat, size: nat, rest: seq<Bytes>)
    requires Supported(name) && |short| == 11 && first < 0x10000 && size < 0x1_0000_0000 && short[0] != 0
    requires (attr == DIR_ATTR || attr == FILE_ATTR) && Sized(rest, RECORD)
    ensures Sized(Group(name, short, attr, first, size) + rest, RECORD)
    ensures Scan(Group(name, short, attr, first, size) + rest, []) == [Item(name, attr, first, size)] + Scan(rest, [])
  {
    if Fits83(name) && Upper83(name) == short {
      ScanPlain(name, attr, first, size, rest);
    } else {
      ScanLong(name, short, attr, first, size, rest);
      RegroupRecords(LongRecords(name, short), [ShortRecord(short, attr, first, size)], rest);
    }
  }

  lemma {:induction false} RegroupRecords(a: seq<Bytes>, b: seq<Bytes>, c: seq<Bytes>)
    ensures a + b + c == a + (b + c)
  {}

  lemma {:induction false} ScanPlain(name: Name, attr: byte, first: nat, size: nat, rest: seq<Bytes>)
    requires Supported(name) && Fits83(name) && first < 0x10000 && size < 0x1_0000_0000 && Upper83(name)[0] != 0
    requires (attr == DIR_ATTR || attr == FILE_ATTR) && Sized(rest, RECORD)
    ensures var all := [] + [ShortRecord(Upper83(name), attr, first, size)] + rest;
            Sized(all, RECORD) && Scan(all, []) == [Item(name, attr, first, size)] + Scan(rest, [])
  {
    var s := [ShortRecord(Upper83(name), attr, first, size)];
    assert [] + s + rest == s + rest;
    ScanShort(Upper83(name), attr, first, size, rest, []);
    DisplayUndoesUpper83(name);
  }

  lemma {:induction false} ScanLong(name: Name, short: Bytes, attr: byte, first: nat, size: nat, rest: seq<Bytes>)
    requires Supported(name) && |short| == 11 && first < 0x10000 && size < 0x1_0000_0000 && short[0] != 0
    requires (attr == DIR_ATTR || attr == FILE_ATTR) && Sized(rest, RECORD)
    ensures var all := LongRecords(name, short) + ([ShortRecord(short, attr, first, size)] + rest);
            Sized(all, RECORD) && Scan(all, []) == [Item(name, attr, first, size)] + Scan(rest, [])
  {
    var long, s := LongRecords(name, short), [ShortRecord(short, attr, first, size)];
    LongRecordsAreLong(name, short);
    ScanPending(long, s + rest, []);
    assert [] + long == long;
    ScanShort(short, attr, first, size, rest, long);
    LongNameReadsBack(name, short);
  }

  // ----- Records and bytes -------------------------------------------------

  /** The whole records of a directory's bytes. */
  function Records(region: Bytes): (r: seq<Bytes>)
    ensures Sized(r, RECORD)
  {
    seq(|region| / RECORD, i requires 0 <= i < |region| / RECORD => region[RECORD * i..RECORD * i + RECORD])
  }

  lemma {:induction false} RecordsOfFlatten(records: seq<Bytes>, rest: Bytes)
    requires Sized(records, RECORD)
    ensures Records(Flatten(records) + rest) == records + Records(rest)
  {
    FlattenLength(records, RECORD);
    var n, all := |records| * RECORD, Flatten(records) + rest;
    assert |all| / RECORD == |records| + |rest| / RECORD;
    forall i | 0 <= i < |records| ensures Records(all)[i] == records[i] {
      FlattenBlock(records, RECORD, i);
      assert all[RECORD * i..RECORD * i + RECORD] == Flatten(records)[i * RECORD..i * RECORD + RECORD];
    }
    forall i | 0 <= i < |rest| / RECORD ensures Records(all)[|records| + i] == Records(rest)[i] {
      assert all[n + RECORD * i..n + RECORD * i + RECORD] == rest[RECORD * i..RECORD * i + RECORD];
    }
  }

  /** A zero-filled end lists nothing. */
  lemma {:induction false} ScanEnd(n: nat)
    ensures Scan(Records(Fill(n, 0)), []) == []
  {}

  /** A directory's listing from its bytes. */
  function Listing(region: Bytes): seq<Item> {
    Scan(Records(region), [])
  }
}
