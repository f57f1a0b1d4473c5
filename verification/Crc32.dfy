/** CRC-32 as computed by kernel/lib/crc32.c: a reflected, bit-at-a-time shift
    register over the polynomial 0xedb88320 (section 8 of RFC 1952).

    The streaming law, the bijectivity of every message's state map and the
    detection of every error burst of up to 32 bits are proved for messages of
    any length. */
module Crc32 {
  import opened ShiftRegister

  const POLY: bv32 := 0xedb88320

  /** One turn of the inner loop. */
  function ShiftBit(c: bv32): bv32 {
    if c & 1 == 1 then (c >> 1) ^ POLY else c >> 1
  }

  /** Its inverse: the polynomial's top bit tells which bit was shifted out. */
  function UnshiftBit(c: bv32): bv32 {
    if c & 0x8000_0000 != 0 then ((c ^ POLY) << 1) | 1 else c << 1
  }

  function Xor(c: bv32, x: bv32): bv32 { c ^ x }

  function Low(w: bv32): bv32 { w & 1 }

  function Half(w: bv32): bv32 { w >> 1 }

  function One(bit: bool): bv32 { if bit then 1 else 0 }

  const CRC: Register<bv32> := Register(
    ShiftBit,
    UnshiftBit,
    Xor,
    Low,
    Half,
    One,
    0
  )

  /** The source selects the polynomial with a mask instead of a branch. */
  lemma {:induction false} MaskSelects(c: bv32)
    ensures (c >> 1) ^ (POLY & (0 - (c & 1))) == ShiftBit(c)
  {
    assert c & 1 == 0 || c & 1 == 1;
    assert POLY & 0xffff_ffff == POLY;
    assert (c >> 1) ^ 0 == c >> 1;
  }

  lemma {:induction false} UnshiftShift(c: bv32)
    ensures UnshiftBit(ShiftBit(c)) == c
  {}

  lemma {:induction false} TopBitCase(c: bv32)
    requires c & 0x8000_0000 != 0
    ensures (((c ^ POLY) << 1) | 1) & 1 == 1
    ensures ((((c ^ POLY) << 1) | 1) >> 1) ^ POLY == c
  {}

  lemma {:induction false} NoTopBitCase(c: bv32)
    requires c & 0x8000_0000 == 0
    ensures (c << 1) & 1 == 0 && (c << 1) >> 1 == c
  {}

  lemma {:induction false} ShiftUnshift(c: bv32)
    ensures ShiftBit(UnshiftBit(c)) == c
  {
    if c & 0x8000_0000 != 0 { TopBitCase(c); } else { NoTopBitCase(c); }
  }

  lemma {:induction false} SlideOdd(c: bv32, w: bv32)
    requires (c ^ w) & 1 == 1
    ensures (c ^ (w & 1)) & 1 == 1
    ensures ((c ^ w) >> 1) ^ POLY == (((c ^ (w & 1)) >> 1) ^ POLY) ^ (w >> 1)
  {}

  lemma {:induction false} SlideEven(c: bv32, w: bv32)
    requires (c ^ w) & 1 != 1
    ensures (c ^ (w & 1)) & 1 != 1
    ensures (c ^ w) >> 1 == ((c ^ (w & 1)) >> 1) ^ (w >> 1)
  {}

  /** Pending message bits above the lowest one slide down untouched. */
  lemma {:induction false} SlideStep(c: bv32, w: bv32)
    ensures ShiftBit(Xor(c, w)) == Xor(ShiftBit(Xor(c, Low(w))), Half(w))
  {
    if (c ^ w) & 1 == 1 { SlideOdd(c, w); } else { SlideEven(c, w); }
  }

  lemma {:induction false} XorLaws(c: bv32, x: bv32)
    ensures (c ^ x) ^ x == c && c ^ x == x ^ c && c ^ 0 == c
  {}

  lemma {:induction false} StepLaws()
    ensures forall c :: CRC.unstep(CRC.step(c)) == c
    ensures forall c :: CRC.step(CRC.unstep(c)) == c
  {
    forall c ensures CRC.unstep(CRC.step(c)) == c { UnshiftShift(c); }
    forall c ensures CRC.step(CRC.unstep(c)) == c { ShiftUnshift(c); }
  }

  lemma {:induction false} MixLaws()
    ensures forall c, x :: CRC.xor(CRC.xor(c, x), x) == c
    ensures forall c, x :: CRC.xor(c, x) == CRC.xor(x, c)
    ensures forall c :: CRC.xor(c, CRC.zero) == c
  {
    forall c, x ensures CRC.xor(CRC.xor(c, x), x) == c { XorLaws(c, x); }
    forall c, x ensures CRC.xor(c, x) == CRC.xor(x, c) { XorLaws(c, x); }
    forall c ensures CRC.xor(c, CRC.zero) == c { XorLaws(c, 0); }
  }

  lemma {:induction false} SlideLaw(c: bv32, w: bv32)
    ensures CRC.step(CRC.xor(c, w)) == CRC.xor(CRC.step(CRC.xor(c, CRC.low(w))), CRC.half(w))
  {
    SlideStep(c, w);
  }

  lemma {:induction false} CrcIsLawful()
    ensures Lawful(CRC)
  {
    StepLaws();
    MixLaws();
    forall c, w ensures CRC.step(CRC.xor(c, w)) == CRC.xor(CRC.step(CRC.xor(c, CRC.low(w))), CRC.half(w)) {
      SlideLaw(c, w);
    }
  }

  // ----- Bytes -------------------------------------------------------------

  function Extend(b: bv8): bv32 { b as bv32 }

  /** The bits of a byte in the order the register consumes them. */
  function ByteBits(b: bv8): seq<bool> {
    [b & 1 != 0, b & 2 != 0, b & 4 != 0, b & 8 != 0,
     b & 16 != 0, b & 32 != 0, b & 64 != 0, b & 128 != 0]
  }

  const BYTES: Alphabet<bv32, bv8> := Alphabet(Extend, ByteBits, 8)

  lemma {:induction false} SpellsBit(w: bv32, bit: bool, rest: seq<bool>)
    requires w & 1 == One(bit) && Spells(CRC, w >> 1, rest)
    ensures Spells(CRC, w, [bit] + rest)
  {
    assert CRC.low(w) == w & 1 && CRC.half(w) == w >> 1;
    SpellsCons(CRC, w, bit, rest);
  }

  lemma {:induction false} PairSpells(w: bv32, a: bool, b: bool, rest: seq<bool>)
    requires w & 1 == One(a) && (w >> 1) & 1 == One(b)
    requires Spells(CRC, w >> 1 >> 1, rest)
    ensures Spells(CRC, w, [a, b] + rest)
  {
    SpellsBit(w >> 1, b, rest);
    SpellsBit(w, a, [b] + rest);
    assert [a] + ([b] + rest) == [a, b] + rest;
  }

  lemma {:induction false} NibbleSpells(w: bv32, a: bool, b: bool, c: bool, d: bool, rest: seq<bool>)
    requires w & 1 == One(a) && (w >> 1) & 1 == One(b)
    requires (w >> 1 >> 1) & 1 == One(c) && (w >> 1 >> 1 >> 1) & 1 == One(d)
    requires Spells(CRC, w >> 1 >> 1 >> 1 >> 1, rest)
    ensures Spells(CRC, w, [a, b, c, d] + rest)
  {
    PairSpells(w >> 1 >> 1, c, d, rest);
    PairSpells(w, a, b, [c, d] + rest);
    assert [a, b] + ([c, d] + rest) == [a, b, c, d] + rest;
  }

  lemma {:induction false} LowNibble(b: bv8, w: bv32)
    requires w == b as bv32
    ensures w & 1 == One(b & 1 != 0) && (w >> 1) & 1 == One(b & 2 != 0)
    ensures (w >> 1 >> 1) & 1 == One(b & 4 != 0) && (w >> 1 >> 1 >> 1) & 1 == One(b & 8 != 0)
  {}

  lemma {:induction false} HighNibble(b: bv8, w: bv32)
    requires w == (b as bv32) >> 1 >> 1 >> 1 >> 1
    ensures w & 1 == One(b & 16 != 0) && (w >> 1) & 1 == One(b & 32 != 0)
    ensures (w >> 1 >> 1) & 1 == One(b & 64 != 0) && (w >> 1 >> 1 >> 1) & 1 == One(b & 128 != 0)
    ensures w >> 1 >> 1 >> 1 >> 1 == 0
  {}

  lemma {:induction false} HighNibbleSpells(b: bv8)
    ensures Spells(CRC, (b as bv32) >> 1 >> 1 >> 1 >> 1,
                   [b & 16 != 0, b & 32 != 0, b & 64 != 0, b & 128 != 0] + [])
  {
    var w := (b as bv32) >> 1 >> 1 >> 1 >> 1;
    HighNibble(b, w);
    NibbleSpells(w, b & 16 != 0, b & 32 != 0, b & 64 != 0, b & 128 != 0, []);
  }

  lemma {:induction false} ByteSpells(b: bv8)
    ensures Spells(CRC, b as bv32, ByteBits(b))
  {
    HighNibbleSpells(b);
    LowNibble(b, b as bv32);
    NibblesSpell(b as bv32, b & 1 != 0, b & 2 != 0, b & 4 != 0, b & 8 != 0,
                 b & 16 != 0, b & 32 != 0, b & 64 != 0, b & 128 != 0);
  }

  lemma {:induction false} NibblesSpell(w: bv32, a: bool, b: bool, c: bool, d: bool, e: bool, f: bool, g: bool, h: bool)
    requires w & 1 == One(a) && (w >> 1) & 1 == One(b)
    requires (w >> 1 >> 1) & 1 == One(c) && (w >> 1 >> 1 >> 1) & 1 == One(d)
    requires Spells(CRC, w >> 1 >> 1 >> 1 >> 1, [e, f, g, h] + [])
    ensures Spells(CRC, w, [a, b, c, d, e, f, g, h])
  {
    NibbleSpells(w, a, b, c, d, [e, f, g, h] + []);
    assert [a, b, c, d] + ([e, f, g, h] + []) == [a, b, c, d, e, f, g, h];
  }

  lemma {:induction false} SameByte(a: bv8, b: bv8)
    requires (a & 1 != 0) == (b & 1 != 0) && (a & 2 != 0) == (b & 2 != 0)
    requires (a & 4 != 0) == (b & 4 != 0) && (a & 8 != 0) == (b & 8 != 0)
    requires (a & 16 != 0) == (b & 16 != 0) && (a & 32 != 0) == (b & 32 != 0)
    requires (a & 64 != 0) == (b & 64 != 0) && (a & 128 != 0) == (b & 128 != 0)
    ensures a == b
  {}

  lemma {:induction false} ByteBitsInjective(a: bv8, b: bv8)
    requires ByteBits(a) == ByteBits(b)
    ensures a == b
  {
    var s, t := ByteBits(a), ByteBits(b);
    assert s[0] == t[0] && s[1] == t[1] && s[2] == t[2] && s[3] == t[3];
    assert s[4] == t[4] && s[5] == t[5] && s[6] == t[6] && s[7] == t[7];
    SameByte(a, b);
  }

  lemma {:induction false} BytesAreSpelled()
    ensures SpelledBy(CRC, BYTES)
    ensures forall b, d :: BYTES.bits(b) == BYTES.bits(d) ==> b == d
  {
    forall b ensures |BYTES.bits(b)| == 8 && Spells(CRC, BYTES.word(b), BYTES.bits(b)) {
      ByteSpells(b);
    }
    forall b, d | BYTES.bits(b) == BYTES.bits(d) ensures b == d { ByteBitsInjective(b, d); }
  }

  // ----- Words of up to 32 bits --------------------------------------------

  /** The word whose bits are `bits`, lowest first. */
  function Word(bits: seq<bool>): bv32
    requires |bits| <= 32
  {
    if bits == [] then 0 else Append(Word(bits[1..]), One(bits[0]))
  }

  function Append(w: bv32, x: bv32): bv32 { (w << 1) | x }

  /** The largest word spelled by `n` bits. */
  function Ones(n: nat): bv32 {
    if n == 0 then 0 else Append(Ones(n - 1), 1)
  }

  const TOP: bv32 := 0x8000_0000

  lemma {:induction false} OnesBelowTop(n: nat)
    requires n <= 31
    ensures Ones(n) & TOP == 0
  {
    assert Ones(0) == 0x0; assert Ones(1) == 0x1; assert Ones(2) == 0x3; assert Ones(3) == 0x7;
    assert Ones(4) == 0xf; assert Ones(5) == 0x1f; assert Ones(6) == 0x3f; assert Ones(7) == 0x7f;
    assert Ones(8) == 0xff; assert Ones(9) == 0x1ff; assert Ones(10) == 0x3ff; assert Ones(11) == 0x7ff;
    assert Ones(12) == 0xfff; assert Ones(13) == 0x1fff; assert Ones(14) == 0x3fff; assert Ones(15) == 0x7fff;
    assert Ones(16) == 0xffff; assert Ones(17) == 0x1ffff; assert Ones(18) == 0x3ffff; assert Ones(19) == 0x7ffff;
    assert Ones(20) == 0xfffff; assert Ones(21) == 0x1fffff; assert Ones(22) == 0x3fffff; assert Ones(23) == 0x7fffff;
    assert Ones(24) == 0xffffff; assert Ones(25) == 0x1ffffff; assert Ones(26) == 0x3ffffff; assert Ones(27) == 0x7ffffff;
    assert Ones(28) == 0xfffffff; assert Ones(29) == 0x1fffffff; assert Ones(30) == 0x3fffffff; assert Ones(31) == 0x7fffffff;
  }

  predicate Within(w: bv32, o: bv32) { w | o == o }

  lemma {:induction false} AppendWithin(w: bv32, o: bv32, bit: bool)
    requires Within(w, o)
    ensures Within(Append(w, One(bit)), Append(o, 1))
  {
    ShiftedWithin(w, o, One(bit));
  }

  lemma {:induction false} ShiftedWithin(w: bv32, o: bv32, x: bv32)
    requires w | o == o && x & 1 == x
    ensures ((w << 1) | x) | ((o << 1) | 1) == (o << 1) | 1
  {}

  lemma {:induction false} WithinBelowTop(w: bv32, o: bv32)
    requires Within(w, o) && o & TOP == 0
    ensures w & TOP == 0
  {}

  lemma {:induction false} AppendSplits(w: bv32, x: bv32)
    requires w & TOP == 0 && (x == 0 || x == 1)
    ensures Append(w, x) >> 1 == w && Append(w, x) & 1 == x
  {}

  lemma {:induction false} WordWithin(bits: seq<bool>)
    requires |bits| <= 32
    ensures Within(Word(bits), Ones(|bits|))
  {
    if bits != [] {
      WordWithin(bits[1..]);
      AppendWithin(Word(bits[1..]), Ones(|bits| - 1), bits[0]);
    }
  }

  lemma {:induction false} WordBelowTop(bits: seq<bool>)
    requires |bits| <= 31
    ensures Word(bits) & TOP == 0
  {
    WordWithin(bits);
    OnesBelowTop(|bits|);
    WithinBelowTop(Word(bits), Ones(|bits|));
  }

  lemma {:induction false} AppendSpells(w: bv32, bit: bool, rest: seq<bool>)
    requires w & TOP == 0 && Spells(CRC, w, rest)
    ensures Spells(CRC, Append(w, One(bit)), [bit] + rest)
  {
    AppendSplits(w, One(bit));
    SpellsBit(Append(w, One(bit)), bit, rest);
  }

  lemma {:induction false} WordSpells(bits: seq<bool>)
    requires |bits| <= 32
    ensures Spells(CRC, Word(bits), bits)
  {
    if bits != [] {
      WordBelowTop(bits[1..]);
      WordSpells(bits[1..]);
      AppendSpells(Word(bits[1..]), bits[0], bits[1..]);
      assert [bits[0]] + bits[1..] == bits;
    }
  }

  lemma {:induction false} CrcHoldsWords()
    ensures HoldsWords(CRC, 32)
  {
    forall bits: seq<bool> | |bits| <= 32 ensures exists w :: Spells(CRC, w, bits) {
      WordSpells(bits);
    }
  }

  // ----- The checksum ------------------------------------------------------

  function Not(c: bv32): bv32 { !c }

  lemma {:induction false} NotNot(c: bv32)
    ensures Not(Not(c)) == c
  {}

  /** The specification of crc32_update on a readable buffer. */
  function Update(crc: bv32, m: seq<bv8>): bv32 {
    Not(Run(CRC, BYTES, Not(crc), m))
  }

  /** The inner loop. */
  method ShiftByte(start: bv32) returns (c: bv32)
    ensures c == StepN(CRC, start, 8)
  {
    c := start;
    var bit := 0;
    while bit < 8
      invariant 0 <= bit <= 8
      invariant StepN(CRC, start, 8) == StepN(CRC, c, 8 - bit)
    {
      MaskedStep(c, 8 - bit);
      var mask := 0 - (c & 1);
      c := (c >> 1) ^ (POLY & mask);
      bit := bit + 1;
    }
  }

  /** The whole of crc32_update, including the null buffer. */
  method Crc32Update(crc: bv32, data: array?<bv8>, size: nat) returns (r: bv32)
    requires data != null ==> size <= data.Length
    ensures r == if data == null then crc else Update(crc, data[..size])
  {
    if data == null && size != 0 { return crc; }
    var c := Not(crc);
    if data == null {
      NotNot(crc);
      return Not(c);
    }
    ghost var m := data[..size];
    var i := 0;
    while i < size
      invariant 0 <= i <= size
      invariant c == Run(CRC, BYTES, Not(crc), m[..i])
    {
      RunNext(CRC, BYTES, Not(crc), m, i);
      c := TakeByte(c, data[i]);
      i := i + 1;
    }
    assert m[..size] == m;
    r := Not(c);
  }

  /** One byte: mixed into the register, then eight steps. */
  method TakeByte(c: bv32, b: bv8) returns (r: bv32)
    ensures r == Absorb(CRC, c, BYTES.word(b), BYTES.width)
  {
    AbsorbByte(c, b);
    r := ShiftByte(c ^ (b as bv32));
  }

  lemma {:induction false} MaskedStep(c: bv32, n: nat)
    requires n > 0
    ensures StepN(CRC, c, n) == StepN(CRC, (c >> 1) ^ (POLY & (0 - (c & 1))), n - 1)
  {
    MaskSelects(c);
    assert CRC.step(c) == ShiftBit(c);
  }

  lemma {:induction false} AbsorbByte(c: bv32, b: bv8)
    ensures Absorb(CRC, c, BYTES.word(b), BYTES.width) == StepN(CRC, c ^ (b as bv32), 8)
  {
    assert CRC.xor(c, BYTES.word(b)) == c ^ (b as bv32);
  }

  /** Checksumming in pieces gives the checksum of the whole. */
  lemma {:induction false} UpdateStreams(crc: bv32, a: seq<bv8>, b: seq<bv8>)
    ensures Update(Update(crc, a), b) == Update(crc, a + b)
  {
    RunConcat(CRC, BYTES, Not(crc), a, b);
    NotNot(Run(CRC, BYTES, Not(crc), a));
  }

  /** The start value that gives `crc` over `m`. */
  function Unupdate(crc: bv32, m: seq<bv8>): bv32 {
    Not(Rewind(CRC, BYTES, Not(crc), m))
  }

  /** Over a fixed message the checksum map is a bijection. */
  lemma {:induction false} UpdateIsBijective(crc: bv32, m: seq<bv8>)
    ensures Unupdate(Update(crc, m), m) == crc
    ensures Update(Unupdate(crc, m), m) == crc
  {
    CrcIsLawful();
    RewindRun(CRC, BYTES, Not(crc), m);
    NotNot(crc);
    NotNot(Run(CRC, BYTES, Not(crc), m));
    NotNot(Rewind(CRC, BYTES, Not(crc), m));
  }

  /** Messages of one length whose differences lie within 32 consecutive bits
      share a checksum only when they are equal. */
  lemma {:induction false} BurstDetected(crc: bv32, a: seq<bv8>, b: seq<bv8>, p: nat)
    requires |a| == |b| && |Bits(BYTES, a)| == |Bits(BYTES, b)|
    requires AgreeOutside(Bits(BYTES, a), Bits(BYTES, b), p, 32)
    ensures Update(crc, a) == Update(crc, b) <==> a == b
  {
    CrcIsLawful();
    BytesAreSpelled();
    CrcHoldsWords();
    if Update(crc, a) == Update(crc, b) {
      NotNot(Run(CRC, BYTES, Not(crc), a));
      NotNot(Run(CRC, BYTES, Not(crc), b));
      NoMessageCollision(CRC, BYTES, Not(crc), a, b, p, 32);
    }
  }

  /** In bytes: every change confined to four consecutive bytes is detected. */
  lemma {:induction false} FourByteBurstDetected(crc: bv32, pre: seq<bv8>, x: seq<bv8>, y: seq<bv8>, post: seq<bv8>)
    requires |x| == |y| <= 4
    ensures Update(crc, pre + x + post) == Update(crc, pre + y + post) <==> x == y
  {
    CrcIsLawful();
    BytesAreSpelled();
    CrcHoldsWords();
    if Update(crc, pre + x + post) == Update(crc, pre + y + post) {
      NotNot(Run(CRC, BYTES, Not(crc), pre + x + post));
      NotNot(Run(CRC, BYTES, Not(crc), pre + y + post));
      NoSegmentCollision(CRC, BYTES, Not(crc), pre, x, y, post, 32);
    }
  }
}
