/** The bitmap of kernel/lib/bitmap.c: bits packed into 64-bit words. Words are
    natural numbers below 2^64 and the bitwise operators of the source are
    defined on them digit by digit. */
module Bitmap {
  import opened Arith
  import opened Math64

  const WORD: nat := 64

  // ----- Bitwise operators -------------------------------------------------

  predicate Bit(w: nat, b: nat)
    decreases b
  {
    if b == 0 then w % 2 == 1 else Bit(w / 2, b - 1)
  }

  function Or(x: nat, y: nat): nat {
    if x == 0 then y else if y == 0 then x
    else 2 * Or(x / 2, y / 2) + if x % 2 == 1 || y % 2 == 1 then 1 else 0
  }

  function And(x: nat, y: nat): nat {
    if x == 0 || y == 0 then 0
    else 2 * And(x / 2, y / 2) + if x % 2 == 1 && y % 2 == 1 then 1 else 0
  }

  /** `~x` on 64 bits. */
  function Not(x: u64): u64 { MAX64 - x }

  lemma {:induction false} ZeroBits(b: nat)
    ensures !Bit(0, b)
    decreases b
  {
    if b > 0 { ZeroBits(b - 1); }
  }

  lemma {:induction false} OrBits(x: nat, y: nat, b: nat)
    ensures Bit(Or(x, y), b) <==> Bit(x, b) || Bit(y, b)
    decreases b
  {
    ZeroBits(b);
    if x != 0 && y != 0 && b > 0 {
      assert Or(x, y) / 2 == Or(x / 2, y / 2);
      OrBits(x / 2, y / 2, b - 1);
    }
  }

  lemma {:induction false} AndBits(x: nat, y: nat, b: nat)
    ensures Bit(And(x, y), b) <==> Bit(x, b) && Bit(y, b)
    decreases b
  {
    ZeroBits(b);
    if x != 0 && y != 0 && b > 0 {
      assert And(x, y) / 2 == And(x / 2, y / 2);
      AndBits(x / 2, y / 2, b - 1);
    }
  }

  lemma {:induction false} HalfOfComplement(p: nat, x: nat)
    requires x < 2 * p
    ensures (2 * p - 1 - x) / 2 == p - 1 - x / 2 && 0 <= x / 2 < p
  {}

  lemma {:induction false} NotBits(x: nat, n: nat, b: nat)
    requires x < Pow2(n) && b < n
    ensures Bit(Pow2(n) - 1 - x, b) <==> !Bit(x, b)
    decreases b
  {
    if b > 0 {
      HalfOfComplement(Pow2(n - 1), x);
      NotBits(x / 2, n - 1, b - 1);
    }
  }

  lemma {:induction false} PowerBits(k: nat, b: nat)
    ensures Bit(Pow2(k), b) <==> b == k
    decreases b
  {
    if k == 0 {
      if b > 0 { ZeroBits(b - 1); }
    } else if b > 0 {
      PowerBits(k - 1, b - 1);
    }
  }

  lemma {:induction false} LowMaskBits(r: nat, b: nat)
    ensures Bit(Pow2(r) - 1, b) <==> b < r
    decreases b
  {
    if r == 0 {
      ZeroBits(b);
    } else if b > 0 {
      assert (Pow2(r) - 1) / 2 == Pow2(r - 1) - 1;
      LowMaskBits(r - 1, b - 1);
    }
  }

  lemma {:induction false} OrFits(x: nat, y: nat, n: nat)
    requires x < Pow2(n) && y < Pow2(n)
    ensures Or(x, y) < Pow2(n)
    decreases n
  {
    if x != 0 && y != 0 && n > 0 { OrFits(x / 2, y / 2, n - 1); }
  }

  lemma {:induction false} AndFits(x: nat, y: nat)
    ensures And(x, y) <= x
  {
    if x != 0 && y != 0 { AndFits(x / 2, y / 2); }
  }

  lemma {:induction false} PowFits(b: nat, n: nat)
    requires b < n
    ensures Pow2(b) < Pow2(n)
    decreases n - b
  {
    if b + 1 < n { PowFits(b + 1, n); }
  }

  // ----- Counting ----------------------------------------------------------

  /** Set bits among the lowest `n`. */
  function CountLow(w: nat, n: nat): (r: nat)
    ensures r <= n
  {
    if n == 0 then 0 else CountLow(w, n - 1) + if Bit(w, n - 1) then 1 else 0
  }

  function Popcount(w: nat): nat {
    if w == 0 then 0 else Popcount(w / 2) + w % 2
  }

  lemma {:induction false} AndSelf(w: nat)
    ensures And(w, w) == w
  {
    if w != 0 { AndSelf(w / 2); }
  }

  /** `w & (w - 1)` drops exactly one set bit. */
  lemma {:induction false} DropLowest(w: nat)
    requires w > 0
    ensures Popcount(And(w, w - 1)) == Popcount(w) - 1
  {
    if w % 2 == 1 {
      AndSelf(w / 2);
      assert w > 1 ==> And(w, w - 1) == 2 * And(w / 2, w / 2);
      assert w > 1 ==> (w - 1) / 2 == w / 2;
    } else {
      assert (w - 1) / 2 == w / 2 - 1;
      assert And(w, w - 1) == 2 * And(w / 2, w / 2 - 1);
      DropLowest(w / 2);
      assert (2 * And(w / 2, w / 2 - 1)) / 2 == And(w / 2, w / 2 - 1);
    }
  }

  lemma {:induction false} CountLowHalves(w: nat, n: nat)
    ensures CountLow(w, n + 1) == w % 2 + CountLow(w / 2, n)
    decreases n
  {
    if n > 0 { CountLowHalves(w, n - 1); }
  }

  lemma {:induction false} PopcountIsCount(w: nat, n: nat)
    requires w < Pow2(n)
    ensures Popcount(w) == CountLow(w, n)
    decreases n
  {
    if n > 0 {
      CountLowHalves(w, n - 1);
      PopcountIsCount(w / 2, n - 1);
    }
  }

  lemma {:induction false} CountMasked(w: nat, r: nat, n: nat)
    ensures CountLow(And(w, Pow2(r) - 1), n) == CountLow(w, if n < r then n else r)
    decreases n
  {
    if n > 0 {
      CountMasked(w, r, n - 1);
      AndBits(w, Pow2(r) - 1, n - 1);
      LowMaskBits(r, n - 1);
    }
  }

  // ----- Bits of an array of words -----------------------------------------

  predicate TestIn(words: seq<u64>, i: nat)
    requires i < WORD * |words|
  {
    Bit(words[i / WORD], i % WORD)
  }

  /** The first `n` bits of the words. */
  function BitsOf(words: seq<u64>, n: nat): (r: seq<bool>)
    requires n <= WORD * |words|
    ensures |r| == n
  {
    seq(n, i requires 0 <= i < n => TestIn(words, i))
  }

  function CountTrue(s: seq<bool>): (r: nat)
    ensures r <= |s|
  {
    if s == [] then 0 else CountTrue(s[..|s| - 1]) + if s[|s| - 1] then 1 else 0
  }

  lemma {:induction false} UpdateWord(words: seq<u64>, n: nat, i: nat, w: u64, v: bool)
    requires n <= WORD * |words| && i < n
    requires forall b :: 0 <= b < WORD ==> (Bit(w, b) <==> if b == i % WORD then v else Bit(words[i / WORD], b))
    ensures BitsOf(words[i / WORD := w], n) == BitsOf(words, n)[i := v]
  {
    var words' := words[i / WORD := w];
    forall j | 0 <= j < n ensures BitsOf(words', n)[j] == BitsOf(words, n)[i := v][j] {
      if j / WORD == i / WORD { assert j != i ==> j % WORD != i % WORD; }
    }
  }

  /** The bits of one more word. */
  lemma {:induction false} CountExtends(words: seq<u64>, k: nat, m: nat)
    requires m <= WORD && WORD * k + m <= WORD * |words| && k < |words|
    ensures CountTrue(BitsOf(words, WORD * k + m)) == CountTrue(BitsOf(words, WORD * k)) + CountLow(words[k], m)
    decreases m
  {
    if m > 0 {
      CountExtends(words, k, m - 1);
      var n := WORD * k + m;
      assert BitsOf(words, n)[..n - 1] == BitsOf(words, n - 1);
      DivUnique(n - 1, WORD, k, m - 1);
    }
  }

  /** bitmap_t over caller-provided storage. Words may extend past the last
      tracked bit; those bits are not part of the bitmap. */
  class BitmapT {
    const words: array<u64>
    const bitCount: nat

    ghost predicate Valid() {
      bitCount <= WORD * words.Length
    }

    ghost function Bits(): (r: seq<bool>)
      requires Valid()
      reads words
      ensures |r| == bitCount
    {
      BitsOf(words[..], bitCount)
    }

    /** bitmap_init over zeroed storage. */
    constructor (storage: nat, bits: nat)
      requires bits <= WORD * storage
      ensures Valid() && bitCount == bits && words.Length == storage && fresh(words)
    {
      words := new u64[storage](_ => 0);
      bitCount := bits;
    }

    /** memset of the whole storage with 0xff. */
    method Fill()
      requires Valid()
      modifies words
      ensures forall i :: 0 <= i < bitCount ==> Bits()[i]
    {
      forall i | 0 <= i < words.Length { words[i] := MAX64; }
      forall i | 0 <= i < bitCount ensures Bits()[i] {
        Pow2At64();
        LowMaskBits(64, i % WORD);
      }
    }

    method Set(bit: nat)
      requires Valid()
      modifies words
      ensures Bits() == if bit < bitCount then old(Bits())[bit := true] else old(Bits())
    {
      if bit >= bitCount { return; }
      var w := words[bit / WORD];
      Pow2At64();
      PowFits(bit % WORD, 64);
      OrFits(w, Pow2(bit % WORD), 64);
      forall b | 0 <= b < WORD ensures Bit(Or(w, Pow2(bit % WORD)), b) <==> (if b == bit % WORD then true else Bit(w, b)) {
        OrBits(w, Pow2(bit % WORD), b);
        PowerBits(bit % WORD, b);
      }
      UpdateWord(words[..], bitCount, bit, Or(w, Pow2(bit % WORD)), true);
      words[bit / WORD] := Or(w, Pow2(bit % WORD));
    }

    method Clear(bit: nat)
      requires Valid()
      modifies words
      ensures Bits() == if bit < bitCount then old(Bits())[bit := false] else old(Bits())
    {
      if bit >= bitCount { return; }
      var w := words[bit / WORD];
      Pow2At64();
      PowFits(bit % WORD, 64);
      var mask := Not(Pow2(bit % WORD));
      AndFits(w, mask);
      forall b | 0 <= b < WORD ensures Bit(And(w, mask), b) <==> (if b == bit % WORD then false else Bit(w, b)) {
        AndBits(w, mask, b);
        NotBits(Pow2(bit % WORD), 64, b);
        PowerBits(bit % WORD, b);
      }
      UpdateWord(words[..], bitCount, bit, And(w, mask), false);
      words[bit / WORD] := And(w, mask);
    }

    method Test(bit: nat) returns (r: bool)
      requires Valid()
      ensures r == (bit < bitCount && Bits()[bit])
    {
      if bit >= bitCount { return false; }
      var w := words[bit / WORD];
      TestByMask(w, bit % WORD);
      r := And(w, Pow2(bit % WORD)) != 0;
    }

    /** bitmap_count_set: the mask on the last word hides the bits past the end. */
    method CountSet() returns (total: nat)
      requires Valid()
      ensures total == CountTrue(Bits())
    {
      total := 0;
      var n := (bitCount + WORD - 1) / WORD;
      var i := 0;
      assert BitsOf(words[..], 0) == [];
      while i < n
        invariant 0 <= i <= n <= words.Length
        invariant total == CountTrue(BitsOf(words[..], Upto(bitCount, i)))
      {
        total := CountNext(i, n, total);
        i := i + 1;
      }
    }

    method CountNext(i: nat, n: nat, total: nat) returns (next: nat)
      requires Valid() && i < n == (bitCount + WORD - 1) / WORD && total == CountTrue(BitsOf(words[..], Upto(bitCount, i)))
      ensures next == CountTrue(BitsOf(words[..], Upto(bitCount, i + 1)))
    {
      CountWordBits(words[..], bitCount, i);
      var w := words[i];
      if i + 1 == n && bitCount % WORD != 0 {
        w := And(w, Pow2(bitCount % WORD) - 1);
      }
      var c := CountWord(w);
      next := total + c;
    }
  }

  /** Tracked bits in the first `i` words. */
  function Upto(bitCount: nat, i: nat): (r: nat)
    ensures r <= bitCount && r <= WORD * i
  {
    if WORD * i <= bitCount then WORD * i else bitCount
  }

  lemma {:induction false} WordIndex(bitCount: nat, i: nat)
    requires i < (bitCount + WORD - 1) / WORD
    ensures WORD * i < bitCount
    ensures i + 1 == (bitCount + WORD - 1) / WORD && bitCount % WORD != 0 <==> WORD * (i + 1) > bitCount
    ensures WORD * (i + 1) > bitCount ==> bitCount % WORD == bitCount - WORD * i
  {}

  lemma {:induction false} PopcountOfPart(w: u64, m: nat)
    requires m <= WORD
    ensures Popcount(if m < WORD then And(w, Pow2(m) - 1) else w) == CountLow(w, m)
  {
    Pow2At64();
    if m < WORD {
      CountMasked(w, m, 64);
      AndFits(w, Pow2(m) - 1);
      PopcountIsCount(And(w, Pow2(m) - 1), 64);
    } else {
      PopcountIsCount(w, 64);
    }
  }

  /** One word of the count, masked when it is the last and only partly used. */
  lemma {:induction false} CountWordBits(words: seq<u64>, bitCount: nat, i: nat)
    requires bitCount <= WORD * |words| && i < (bitCount + WORD - 1) / WORD
    ensures i < |words|
    ensures var n := (bitCount + WORD - 1) / WORD;
            var w := if i + 1 == n && bitCount % WORD != 0
                     then And(words[i], Pow2(bitCount % WORD) - 1) else words[i];
            CountTrue(BitsOf(words, Upto(bitCount, i + 1)))
            == CountTrue(BitsOf(words, Upto(bitCount, i))) + Popcount(w)
  {
    WordIndex(bitCount, i);
    var here := if WORD * (i + 1) > bitCount then bitCount % WORD else WORD;
    UptoNext(bitCount, i, here);
    CountExtends(words, i, here);
    PopcountOfPart(words[i], here);
  }

  lemma {:induction false} UptoNext(bitCount: nat, i: nat, here: nat)
    requires WORD * i < bitCount && here == if WORD * (i + 1) > bitCount then bitCount - WORD * i else WORD
    ensures Upto(bitCount, i) == WORD * i && Upto(bitCount, i + 1) == WORD * i + here
  {}

  /** The loop that clears one set bit per turn. */
  method CountWord(w0: nat) returns (c: nat)
    ensures c == Popcount(w0)
  {
    var w := w0;
    c := 0;
    while w != 0
      invariant c + Popcount(w) == Popcount(w0)
      decreases w
    {
      DropLowest(w);
      AndFits(w - 1, w);
      AndCommutes(w, w - 1);
      w := And(w, w - 1);
      c := c + 1;
    }
  }

  lemma {:induction false} AndCommutes(x: nat, y: nat)
    ensures And(x, y) == And(y, x)
  {
    if x != 0 && y != 0 { AndCommutes(x / 2, y / 2); }
  }

  lemma {:induction false} NonZeroHasBit(w: nat)
    requires w != 0
    ensures exists b: nat :: Bit(w, b)
  {
    if w % 2 == 1 {
      assert Bit(w, 0);
    } else {
      NonZeroHasBit(w / 2);
      var b: nat :| Bit(w / 2, b);
      assert Bit(w, b + 1);
    }
  }

  /** The test the source makes with a mask. */
  lemma {:induction false} TestByMask(w: nat, b: nat)
    ensures And(w, Pow2(b)) != 0 <==> Bit(w, b)
  {
    var m := And(w, Pow2(b));
    AndBits(w, Pow2(b), b);
    PowerBits(b, b);
    ZeroBits(b);
    if m != 0 {
      NonZeroHasBit(m);
      var c: nat :| Bit(m, c);
      AndBits(w, Pow2(b), c);
      PowerBits(b, c);
    }
  }
}
