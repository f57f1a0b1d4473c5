/** Bytes, little-endian fields and fixed-size blocks, as the FAT image writer
    uses them (scripts/make_live_iso.py). */
module FatBytes {
  import Arith

  type byte = x: int | 0 <= x < 256
  type Bytes = seq<byte>

  datatype Option<T> = None | Some(value: T)

  function Fill(n: nat, c: byte): (r: Bytes)
    ensures |r| == n && forall i :: 0 <= i < n ==> r[i] == c
  {
    seq(n, _ => c)
  }

  /** Left-justified in a field of `n` bytes. */
  function Justify(b: Bytes, n: nat, c: byte): (r: Bytes)
    requires |b| <= n
    ensures |r| == n && r[..|b|] == b
  {
    b + Fill(n - |b|, c)
  }

  // ----- Little-endian fields ----------------------------------------------

  function Le16(v: nat): (r: Bytes)
    requires v < 0x10000
    ensures |r| == 2
  {
    [v % 256, v / 256]
  }

  function Get16(b: Bytes, at: nat): (v: nat)
    requires at + 2 <= |b|
    ensures v < 0x10000
  {
    (b[at] as int) + 256 * (b[at + 1] as int)
  }

  function Le32(v: nat): (r: Bytes)
    requires v < 0x1_0000_0000
    ensures |r| == 4
  {
    Le16(v % 0x10000) + Le16(v / 0x10000)
  }

  function Get32(b: Bytes, at: nat): (v: nat)
    requires at + 4 <= |b|
    ensures v < 0x1_0000_0000
  {
    Get16(b, at) + 0x10000 * Get16(b, at + 2)
  }

  lemma {:induction false} Get16Reads(b: Bytes, at: nat, v: nat)
    requires v < 0x10000 && at + 2 <= |b| && b[at..at + 2] == Le16(v)
    ensures Get16(b, at) == v
  {
    assert b[at] == b[at..at + 2][0] && b[at + 1] == b[at..at + 2][1];
  }

  lemma {:induction false} Get32Reads(b: Bytes, at: nat, v: nat)
    requires v < 0x1_0000_0000 && at + 4 <= |b| && b[at..at + 4] == Le32(v)
    ensures Get32(b, at) == v
  {
    assert b[at..at + 2] == b[at..at + 4][..2] && b[at + 2..at + 4] == b[at..at + 4][2..];
    Get16Reads(b, at, v % 0x10000);
    Get16Reads(b, at + 2, v / 0x10000);
  }

  // ----- Blocks of one size ------------------------------------------------

  predicate Sized(blocks: seq<Bytes>, size: nat) {
    forall i :: 0 <= i < |blocks| ==> |blocks[i]| == size
  }

  function Flatten(blocks: seq<Bytes>): Bytes {
    if blocks == [] then [] else Flatten(blocks[..|blocks| - 1]) + blocks[|blocks| - 1]
  }

  lemma {:induction false} FlattenOne(b: Bytes)
    ensures Flatten([b]) == b
  {
    assert [b][..0] == [] && [] + b == b;
  }

  lemma {:induction false} FlattenConcat(a: seq<Bytes>, b: seq<Bytes>)
    ensures Flatten(a + b) == Flatten(a) + Flatten(b)
    decreases |b|
  {
    if b == [] {
      assert a + b == a && Flatten(a) + [] == Flatten(a);
    } else {
      FlattenConcat(a, b[..|b| - 1]);
      assert (a + b)[..|a + b| - 1] == a + b[..|b| - 1];
      Regroup(Flatten(a), Flatten(b[..|b| - 1]), b[|b| - 1]);
    }
  }

  lemma {:induction false} Regroup(a: Bytes, b: Bytes, c: Bytes)
    ensures a + b + c == a + (b + c)
  {}

  lemma {:induction false} FlattenLength(blocks: seq<Bytes>, size: nat)
    requires Sized(blocks, size)
    ensures |Flatten(blocks)| == |blocks| * size
    decreases |blocks|
  {
    if blocks != [] {
      FlattenLength(blocks[..|blocks| - 1], size);
      Arith.Distribute(|blocks| - 1, 1, size);
    }
  }

  /** Block `k` is where its number says. */
  lemma {:induction false} FlattenBlock(blocks: seq<Bytes>, size: nat, k: nat)
    requires Sized(blocks, size) && k < |blocks|
    ensures 0 <= k * size <= k * size + size <= |Flatten(blocks)|
    ensures Flatten(blocks)[k * size..k * size + size] == blocks[k]
    decreases |blocks|
  {
    var init, last := blocks[..|blocks| - 1], blocks[|blocks| - 1];
    FlattenLength(init, size);
    if k == |blocks| - 1 {
      assert Flatten(blocks) == Flatten(init) + last;
    } else {
      FlattenBlock(init, size, k);
      assert init[k] == blocks[k];
    }
  }

  /** Data cut into blocks, the last one filled up with zeros. */
  function Chunks(data: Bytes, size: nat): (r: seq<Bytes>)
    requires 0 < size
    ensures Sized(r, size)
    ensures r == [] <==> data == []
  {
    if data == [] then []
    else if |data| <= size then [Justify(data, size, 0)]
    else [data[..size]] + Chunks(data[size..], size)
  }

  /** Cutting loses nothing: the blocks start with the data. */
  lemma {:induction false} ChunksHoldData(data: Bytes, size: nat)
    requires 0 < size
    ensures |data| <= |Flatten(Chunks(data, size))| && Flatten(Chunks(data, size))[..|data|] == data
    decreases |data|
  {
    if data == [] {
    } else if |data| <= size {
      FlattenOne(Justify(data, size, 0));
    } else {
      var rest := Chunks(data[size..], size);
      ChunksHoldData(data[size..], size);
      FlattenConcat([data[..size]], rest);
      FlattenOne(data[..size]);
      assert data == data[..size] + data[size..];
      assert (data[..size] + Flatten(rest))[..|data|] == data[..size] + Flatten(rest)[..|data| - size];
    }
  }
}
