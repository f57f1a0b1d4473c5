/** Saturating 64-bit arithmetic (kernel/include/rabbitbone/math64.h) and the
    calibrated clock built on it (kernel/core/timer.c). Words are unbounded
    integers with their widths as subset types, so every operation that could
    wrap is proved not to. */
module Math64 {
  import opened Arith

  const TWO64: int := 0x1_0000_0000_0000_0000
  const MAX64: int := 0xffff_ffff_ffff_ffff
  const TWO128: int := 0x1_0000_0000_0000_0000_0000_0000_0000_0000

  type u64 = x: int | 0 <= x < 0x1_0000_0000_0000_0000
  type u128 = x: int | 0 <= x < 0x1_0000_0000_0000_0000_0000_0000_0000_0000

  function Min(a: int, b: int): int { if a <= b then a else b }

  function Pow2(n: nat): (r: int)
    ensures r > 0
  {
    if n == 0 then 1 else 2 * Pow2(n - 1)
  }

  // ----- Binary digits -----------------------------------------------------

  /** Bit `k` of `x`, as `(x >> k) & 1`. */
  function BitAt(x: nat, k: nat): (r: int)
    ensures r == 0 || r == 1
  {
    (x / Pow2(k)) % 2
  }

  /** `x | (1 << k)`. */
  function OrBit(x: nat, k: nat): nat {
    if BitAt(x, k) == 1 then x else x + Pow2(k)
  }

  lemma {:induction false} Pow2Add(m: nat, n: nat)
    ensures Pow2(m + n) == Pow2(m) * Pow2(n)
    decreases n
  {
    if n > 0 {
      Pow2Add(m, n - 1);
      assert Pow2(m + n) == 2 * (Pow2(m) * Pow2(n - 1)) == Pow2(m) * (2 * Pow2(n - 1));
    }
  }

  lemma {:induction false} Pow2At16()
    ensures Pow2(16) == 0x1_0000
  {
    assert Pow2(4) == 16;
    Pow2Add(4, 4);
    Pow2Add(8, 8);
  }

  lemma {:induction false} Pow2At64()
    ensures Pow2(64) == TWO64 && Pow2(128) == TWO128
  {
    Pow2At16();
    Pow2Doubles(16, 0x1_0000);
    Pow2Doubles(32, 0x1_0000_0000);
    Pow2Doubles(64, TWO64);
  }

  lemma {:induction false} Pow2Doubles(k: nat, w: nat)
    requires Pow2(k) == w
    ensures Pow2(k + k) == w * w
  {
    Pow2Add(k, k);
  }

  lemma {:induction false} ShiftSplits(x: nat, k: nat)
    ensures x / Pow2(k) == 2 * (x / Pow2(k + 1)) + BitAt(x, k)
  {
    DivDiv(x, Pow2(k), 2);
    assert Pow2(k) * 2 == Pow2(k + 1);
  }

  lemma {:induction false} Interchange(hi: int, w: int, h: int)
    ensures hi * (w * (2 * h)) == (2 * (hi * h)) * w
  {
    assert hi * (w * (2 * h)) == (hi * (2 * h)) * w;
  }

  /** Cutting off whole multiples of a larger power leaves the lower bits. */
  lemma {:induction false} LowBits(p: nat, t: nat, w: nat, h: nat)
    requires 0 < w && 0 < h && 0 < t == w * (2 * h)
    ensures (p % t / w) % 2 == (p / w) % 2
  {
    var hi, lo := p / t, p % t;
    DivBounds(p, t);
    var q, r := lo / w, lo % w;
    DivBounds(lo, w);
    Interchange(hi, w, h);
    Distribute(2 * (hi * h), q, w);
    DivUnique(p, w, 2 * (hi * h) + q, r);
    EvenPlus(hi * h, q);
  }

  lemma {:induction false} EvenPlus(x: int, q: int)
    ensures (2 * x + q) % 2 == q % 2
  {}

  lemma {:induction false} HighBits(p: nat, bit: nat)
    requires 64 <= bit
    ensures BitAt(p / TWO64, bit - 64) == BitAt(p, bit)
  {
    Pow2At64();
    DivDiv(p, Pow2(64), Pow2(bit - 64));
    Pow2Add(64, bit - 64);
  }

  /** Splitting a 128-bit word into halves keeps its bits in place. */
  lemma {:induction false} HalvesKeepBits(p: nat, bit: nat)
    requires bit < 128
    ensures bit >= 64 ==> BitAt(p / TWO64, bit - 64) == BitAt(p, bit)
    ensures bit < 64 ==> BitAt(p % TWO64, bit) == BitAt(p, bit)
  {
    if bit >= 64 {
      HighBits(p, bit);
    } else {
      Pow2At64();
      Pow2Add(bit, 64 - bit);
      LowBits(p, TWO64, Pow2(bit), Pow2(63 - bit));
    }
  }

  lemma {:induction false} OrClearBit(q: nat, k: nat, n: nat)
    requires q == Pow2(k + 1) * n
    ensures OrBit(q, k) == q + Pow2(k) == Pow2(k) * (2 * n + 1)
    ensures q == Pow2(k) * (2 * n)
  {
    assert q == (2 * n) * Pow2(k) + 0;
    DivUnique(q, Pow2(k), 2 * n, 0);
  }

  // ----- Multiply, then divide ---------------------------------------------

  function AddSaturating(a: u64, b: u64): u64 {
    if a + b > MAX64 then MAX64 else a + b
  }

  /** The exact quotient, capped at the largest word; division by zero caps. */
  function MulDivSaturating(a: u64, b: u64, d: u64): u64 {
    if d == 0 then MAX64 else (ProductNonNegative(a, b, d); Min(a * b / d, MAX64))
  }

  lemma {:induction false} ProductNonNegative(a: int, b: int, d: int)
    requires a >= 0 && b >= 0 && d > 0
    ensures a * b >= 0 && a * b / d >= 0
  {}

  /** The long division has brought down the top bits of `p`: the quotient so
      far is `n`, shifted into place as `q`, and the remainder is `rem`. */
  ghost predicate Partial(p: nat, d: nat, left: nat, n: nat, q: nat, rem: nat) {
    && p / Pow2(left) == n * d + rem
    && rem < d
    && q == Pow2(left) * n
    && (left >= 64 ==> n == 0)
  }

  lemma {:induction false} BringDown(p: nat, d: nat, left: nat, n: nat, q: nat, rem: nat, next: nat)
    requires left > 0 && Partial(p, d, left, n, q, rem)
    requires next == 2 * rem + BitAt(p, left - 1)
    ensures next < d ==> Partial(p, d, left - 1, 2 * n, q, next)
    ensures next >= d && left <= 64 ==> Partial(p, d, left - 1, 2 * n + 1, OrBit(q, left - 1), next - d)
    ensures next >= d && left > 64 ==> p / Pow2(left - 1) >= d
  {
    ShiftSplits(p, left - 1);
    OrClearBit(q, left - 1, n);
    TwiceTimes(n, d);
  }

  lemma {:induction false} TwiceTimes(n: nat, d: nat)
    ensures 2 * (n * d) == (2 * n) * d && (2 * n + 1) * d == (2 * n) * d + d
  {}

  lemma {:induction false} QuotientTooLarge(p: nat, d: nat, k: nat)
    requires d > 0 && k >= 64 && p / Pow2(k) >= d
    ensures p / d > MAX64
  {
    Pow2At64();
    Pow2Add(64, k - 64);
    var w := Pow2(k);
    MulMono(1, Pow2(k - 64), TWO64);
    DivBounds(p, w);
    MulMono(d, p / w, w);
    MulMono(TWO64, w, d);
    DivAtLeast(p, d, TWO64);
  }

  lemma {:induction false} QuotientFits(p: nat, d: nat)
    requires d > 0 && p / Pow2(64) < d
    ensures 0 <= p / d <= MAX64
  {
    Pow2At64();
    DivBounds(p, TWO64);
    MulMono(p / TWO64 + 1, d, TWO64);
    DivLess(p, d, TWO64);
    DivAtLeast(p, d, 0);
  }

  lemma {:induction false} Swap(n: int, d: int, w: int)
    ensures (n * d) * w == (w * n) * d
  {
    assert (n * d) * w == n * (d * w) == n * (w * d) == (n * w) * d;
  }

  lemma {:induction false} PartialStaysSmall(p: nat, d: nat, left: nat, n: nat, q: nat, rem: nat)
    requires d > 0 && left <= 64 && Partial(p, d, left, n, q, rem) && p / Pow2(64) < d
    ensures 0 <= q <= MAX64
  {
    QuotientFits(p, d);
    var w := Pow2(left);
    DivBounds(p, w);
    Distribute(n * d, rem, w);
    MulMono(0, rem, w);
    Swap(n, d, w);
    DivAtLeast(p, d, q);
  }

  lemma {:induction false} ProductFits(a: u64, b: u64)
    ensures 0 <= a * b < TWO128
  {
    MulMono(0, a, b);
    MulMono(a, MAX64, b);
    MulMono(b, MAX64, MAX64);
  }

  lemma {:induction false} Halves(p: nat)
    requires p < TWO128
    ensures 0 <= p / TWO64 <= MAX64 && p / Pow2(128) == 0
  {
    Pow2At64();
    DivAtLeast(p, TWO64, 0);
    DivLess(p, TWO64, TWO64);
    DivUnique(p, TWO128, 0, p);
  }

  /** The bit-serial division of the source, with its early exit. The remainder
      never leaves 128 bits and the quotient never leaves 64. */
  method ComputeMulDiv(a: u64, b: u64, divisor: u64) returns (r: u64)
    ensures r == MulDivSaturating(a, b, divisor)
  {
    if divisor == 0 { return MAX64; }
    ProductFits(a, b);
    Pow2At64();
    var product: u128 := a * b;
    Halves(product);
    var hi: u64 := product / TWO64;
    var lo: u64 := product % TWO64;
    var rem: u128 := 0;
    var q: u64 := 0;
    var bit := 127;
    ghost var n: nat := 0;
    while bit >= 0
      invariant -1 <= bit <= 127
      invariant Partial(product, divisor, bit + 1, n, q, rem)
      invariant bit < 64 ==> product / Pow2(64) < divisor
    {
      HalvesKeepBits(product, bit);
      var next := if bit >= 64 then BitAt(hi, bit - 64) else BitAt(lo, bit);
      BringDown(product, divisor, bit + 1, n, q, rem, 2 * rem + next);
      rem := 2 * rem + next;
      if rem >= divisor {
        rem := rem - divisor;
        if bit >= 64 {
          QuotientTooLarge(product, divisor, bit);
          return MAX64;
        }
        n := 2 * n + 1;
        PartialStaysSmall(product, divisor, bit, n, OrBit(q, bit), rem);
        q := OrBit(q, bit);
      } else {
        n := 2 * n;
      }
      bit := bit - 1;
    }
    PartialIsQuotient(product, divisor, n, q, rem);
    r := q;
  }

  lemma {:induction false} PartialIsQuotient(p: nat, d: nat, n: nat, q: nat, rem: nat)
    requires d > 0 && Partial(p, d, 0, n, q, rem) && p / Pow2(64) < d
    ensures q == p / d <= MAX64
  {
    assert Pow2(0) == 1;
    DivUnique(p, d, n, rem);
    QuotientFits(p, d);
  }

  // ----- The calibrated clock ----------------------------------------------

  const NS_PER_SECOND: u64 := 1_000_000_000

  /** timer_now_ns once the time-stamp counter is calibrated. */
  function NowNs(tsc: u64, tscBase: u64, tscHz: u64, nsBase: u64): u64 {
    var delta: u64 := if tsc >= tscBase then tsc - tscBase else 0;
    AddSaturating(nsBase, MulDivSaturating(delta, NS_PER_SECOND, tscHz))
  }

  /** A later counter value never reads as an earlier time. */
  lemma {:induction false} ClockIsMonotone(t1: u64, t2: u64, tscBase: u64, tscHz: u64, nsBase: u64)
    requires t1 <= t2
    ensures NowNs(t1, tscBase, tscHz, nsBase) <= NowNs(t2, tscBase, tscHz, nsBase)
  {
    if tscHz > 0 {
      var d1 := if t1 >= tscBase then t1 - tscBase else 0;
      var d2 := if t2 >= tscBase then t2 - tscBase else 0;
      assert d1 * NS_PER_SECOND <= d2 * NS_PER_SECOND;
      DivMonotone(d1 * NS_PER_SECOND, d2 * NS_PER_SECOND, tscHz);
    }
  }

  /** Until it saturates the clock reads the exact elapsed time rounded down:
      it is behind by less than one nanosecond however long it has run. */
  lemma {:induction false} ClockIsExact(tsc: u64, tscBase: u64, tscHz: u64, nsBase: u64)
    requires tscBase <= tsc && 0 < tscHz
    ensures NowNs(tsc, tscBase, tscHz, nsBase) < MAX64 ==>
              var elapsed := NowNs(tsc, tscBase, tscHz, nsBase) - nsBase;
              elapsed * tscHz <= (tsc - tscBase) * NS_PER_SECOND < (elapsed + 1) * tscHz
  {
    var x := (tsc - tscBase) * NS_PER_SECOND;
    var q := x / tscHz;
    assert x == q * tscHz + x % tscHz;
    assert (q + 1) * tscHz == q * tscHz + tscHz;
  }

  /** A whole number of seconds of ticks reads as exactly that many seconds. */
  lemma {:induction false} ClockDoesNotDrift(seconds: nat, tscBase: u64, tscHz: u64, nsBase: u64)
    requires 0 < tscHz && tscBase + seconds * tscHz <= MAX64
    requires nsBase + seconds * NS_PER_SECOND <= MAX64
    ensures seconds * tscHz >= 0
    ensures NowNs(tscBase + seconds * tscHz, tscBase, tscHz, nsBase) == nsBase + seconds * NS_PER_SECOND
  {
    assert seconds * tscHz >= 0;
    var x := (seconds * tscHz) * NS_PER_SECOND;
    assert x == (seconds * NS_PER_SECOND) * tscHz + 0;
    DivUnique(x, tscHz, seconds * NS_PER_SECOND, 0);
  }
}
