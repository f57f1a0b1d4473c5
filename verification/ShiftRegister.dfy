/** A shift register that consumes a message bit by bit, over an arbitrary
    state type. What follows from the register's algebra alone is proved here;
    Crc32.dfy supplies the 32-bit register and its laws. */
module ShiftRegister {

  /** `step` moves the register by one bit and `unstep` undoes that; `xor`
      mixes a word into the state; `low` and `half` split a word into its
      lowest bit and the rest. */
  datatype Register<!S> = Register(
    step: S -> S,
    unstep: S -> S,
    xor: (S, S) -> S,
    low: S -> S,
    half: S -> S,
    one: bool -> S,
    zero: S
  )

  ghost predicate Lawful<S(!new)>(r: Register<S>) {
    && (forall c :: r.unstep(r.step(c)) == c)
    && (forall c :: r.step(r.unstep(c)) == c)
    && (forall c, x :: r.xor(r.xor(c, x), x) == c)
    && (forall c, x :: r.xor(c, x) == r.xor(x, c))
    && (forall c :: r.xor(c, r.zero) == c)
    && (forall c, w :: r.step(r.xor(c, w)) == r.xor(r.step(r.xor(c, r.low(w))), r.half(w)))
    && (forall a, b :: r.one(a) == r.one(b) ==> a == b)
  }

  function StepN<S>(r: Register<S>, c: S, n: nat): S
    decreases n
  {
    if n == 0 then c else StepN(r, r.step(c), n - 1)
  }

  function UnstepN<S>(r: Register<S>, c: S, n: nat): S
    decreases n
  {
    if n == 0 then c else r.unstep(UnstepN(r, c, n - 1))
  }

  /** Mixes a whole word in and moves by `n` bits. */
  function Absorb<S>(r: Register<S>, c: S, w: S, n: nat): S {
    StepN(r, r.xor(c, w), n)
  }

  function Feed<S>(r: Register<S>, c: S, bits: seq<bool>): S
    decreases |bits|
  {
    if bits == [] then c else Feed(r, r.step(r.xor(c, r.one(bits[0]))), bits[1..])
  }

  /** `bits` are the bits of `w`, lowest first, and `w` has no others. */
  ghost predicate Spells<S(!new)>(r: Register<S>, w: S, bits: seq<bool>)
    decreases |bits|
  {
    if bits == [] then w == r.zero
    else r.low(w) == r.one(bits[0]) && Spells(r, r.half(w), bits[1..])
  }

  lemma {:induction false} SpellsCons<S(!new)>(r: Register<S>, w: S, bit: bool, rest: seq<bool>)
    requires r.low(w) == r.one(bit) && Spells(r, r.half(w), rest)
    ensures Spells(r, w, [bit] + rest)
  {
    assert ([bit] + rest)[1..] == rest;
  }

  lemma {:induction false} StepNInverse<S(!new)>(r: Register<S>, c: S, n: nat)
    requires Lawful(r)
    ensures UnstepN(r, StepN(r, c, n), n) == c
    ensures StepN(r, UnstepN(r, c, n), n) == c
    decreases n
  {
    if n > 0 {
      StepNInverse(r, r.step(c), n - 1);
      StepNInverse(r, c, n - 1);
    }
  }

  /** The state before `w` was absorbed. */
  function Unabsorb<S>(r: Register<S>, c: S, w: S, n: nat): S {
    r.xor(UnstepN(r, c, n), w)
  }

  lemma {:induction false} AbsorbInverse<S(!new)>(r: Register<S>, c: S, w: S, n: nat)
    requires Lawful(r)
    ensures Unabsorb(r, Absorb(r, c, w, n), w, n) == c
    ensures Absorb(r, Unabsorb(r, c, w, n), w, n) == c
  {
    StepNInverse(r, r.xor(c, w), n);
    StepNInverse(r, c, n);
  }

  lemma {:induction false} FeedConcat<S>(r: Register<S>, c: S, x: seq<bool>, y: seq<bool>)
    ensures Feed(r, c, x + y) == Feed(r, Feed(r, c, x), y)
    decreases |x|
  {
    if x == [] {
      assert x + y == y;
    } else {
      assert (x + y)[1..] == x[1..] + y;
      FeedConcat(r, r.step(r.xor(c, r.one(x[0]))), x[1..], y);
    }
  }

  /** Absorbing a word is feeding its bits one at a time. */
  lemma {:induction false} AbsorbIsFeed<S(!new)>(r: Register<S>, c: S, w: S, bits: seq<bool>)
    requires Lawful(r) && Spells(r, w, bits)
    ensures Absorb(r, c, w, |bits|) == Feed(r, c, bits)
    decreases |bits|
  {
    if bits != [] {
      var next := r.step(r.xor(c, r.one(bits[0])));
      assert r.step(r.xor(c, w)) == r.xor(next, r.half(w));
      AbsorbIsFeed(r, next, r.half(w), bits[1..]);
    }
  }

  lemma {:induction false} FeedInjective<S(!new)>(r: Register<S>, c: S, d: S, bits: seq<bool>)
    requires Lawful(r) && c != d
    ensures Feed(r, c, bits) != Feed(r, d, bits)
    decreases |bits|
  {
    if bits != [] {
      var x := r.one(bits[0]);
      assert r.xor(r.xor(c, x), x) == c && r.xor(r.xor(d, x), x) == d;
      assert r.unstep(r.step(r.xor(c, x))) == r.xor(c, x);
      assert r.unstep(r.step(r.xor(d, x))) == r.xor(d, x);
      FeedInjective(r, r.step(r.xor(c, x)), r.step(r.xor(d, x)), bits[1..]);
    }
  }

  lemma {:induction false} SpellsUnique<S(!new)>(r: Register<S>, w: S, x: seq<bool>, y: seq<bool>)
    requires Lawful(r) && |x| == |y| && Spells(r, w, x) && Spells(r, w, y)
    ensures x == y
    decreases |x|
  {
    if x == [] {
      assert y == [];
    } else {
      SpellsUnique(r, r.half(w), x[1..], y[1..]);
      assert r.one(x[0]) == r.one(y[0]);
      assert x[0] == y[0];
      assert x == [x[0]] + x[1..] && y == [y[0]] + y[1..];
    }
  }

  /** From one state, two strings that are each spelled by a word lead to the
      same state only when they are equal. */
  lemma {:induction false} WindowInjective<S(!new)>(r: Register<S>, c: S, v: S, w: S, x: seq<bool>, y: seq<bool>)
    requires Lawful(r) && |x| == |y|
    requires Spells(r, v, x) && Spells(r, w, y)
    requires Feed(r, c, x) == Feed(r, c, y)
    ensures x == y
  {
    AbsorbIsFeed(r, c, v, x);
    AbsorbIsFeed(r, c, w, y);
    StepNInverse(r, r.xor(c, v), |x|);
    StepNInverse(r, r.xor(c, w), |x|);
    assert r.xor(r.xor(v, c), c) == v && r.xor(r.xor(w, c), c) == w;
    SpellsUnique(r, v, x, y);
  }

  lemma {:induction false} FeedThree<S>(r: Register<S>, c: S, x: seq<bool>, p: nat, q: nat)
    requires p <= q <= |x|
    ensures Feed(r, c, x) == Feed(r, Feed(r, Feed(r, c, x[..p]), x[p..q]), x[q..])
  {
    assert x == x[..p] + x[p..];
    assert x[p..] == x[p..q] + x[q..];
    FeedConcat(r, c, x[..p], x[p..]);
    FeedConcat(r, Feed(r, c, x[..p]), x[p..q], x[q..]);
  }

  /** `x` and `y` agree on every bit outside the window [p, p + n). */
  ghost predicate AgreeOutside(x: seq<bool>, y: seq<bool>, p: nat, n: nat)
    requires |x| == |y|
  {
    forall i :: 0 <= i < |x| && (i < p || p + n <= i) ==> x[i] == y[i]
  }

  /** Every string of at most `n` bits is spelled by some word. */
  ghost predicate HoldsWords<S(!new)>(r: Register<S>, n: nat) {
    forall bits: seq<bool> :: |bits| <= n ==> exists w :: Spells(r, w, bits)
  }

  lemma {:induction false} ShortStringsInjective<S(!new)>(r: Register<S>, c: S, n: nat, x: seq<bool>, y: seq<bool>)
    requires Lawful(r) && HoldsWords(r, n)
    requires |x| == |y| <= n && Feed(r, c, x) == Feed(r, c, y)
    ensures x == y
  {
    var v :| Spells(r, v, x);
    var w :| Spells(r, w, y);
    WindowInjective(r, c, v, w, x, y);
  }

  lemma {:induction false} FeedCancel<S(!new)>(r: Register<S>, c: S, d: S, bits: seq<bool>)
    requires Lawful(r) && Feed(r, c, bits) == Feed(r, d, bits)
    ensures c == d
  {
    if c != d { FeedInjective(r, c, d, bits); }
  }

  /** Messages that differ only within a window the register can hold, and end
      in the same state, are equal. */
  lemma {:induction false} NoCollisionInWindow<S(!new)>(r: Register<S>, c: S, x: seq<bool>, y: seq<bool>, p: nat, n: nat)
    requires Lawful(r) && HoldsWords(r, n)
    requires |x| == |y| && AgreeOutside(x, y, p, n)
    requires Feed(r, c, x) == Feed(r, c, y)
    ensures x == y
  {
    if p < |x| {
      var q := if p + n <= |x| then p + n else |x|;
      assert x[..p] == y[..p];
      assert x[q..] == y[q..];
      FeedThree(r, c, x, p, q);
      FeedThree(r, c, y, p, q);
      var s := Feed(r, c, x[..p]);
      FeedCancel(r, Feed(r, s, x[p..q]), Feed(r, s, y[p..q]), x[q..]);
      ShortStringsInjective(r, s, n, x[p..q], y[p..q]);
      SplitEqual(x, y, p, q);
    }
  }

  lemma {:induction false} SplitEqual(x: seq<bool>, y: seq<bool>, p: nat, q: nat)
    requires p <= q <= |x| == |y|
    requires x[..p] == y[..p] && x[p..q] == y[p..q] && x[q..] == y[q..]
    ensures x == y
  {
    assert x == x[..p] + x[p..q] + x[q..];
    assert y == y[..p] + y[p..q] + y[q..];
  }

  // ----- Messages of words -------------------------------------------------

  /** How the symbols of a message enter the register: as words of `width`
      bits. */
  datatype Alphabet<!S, !B> = Alphabet(word: B -> S, bits: B -> seq<bool>, width: nat)

  ghost predicate SpelledBy<S(!new), B(!new)>(r: Register<S>, a: Alphabet<S, B>) {
    forall b :: |a.bits(b)| == a.width && Spells(r, a.word(b), a.bits(b))
  }

  /** The register after the symbols of `m`. */
  function Run<S, B>(r: Register<S>, a: Alphabet<S, B>, c: S, m: seq<B>): S
    decreases |m|
  {
    if m == [] then c
    else Absorb(r, Run(r, a, c, m[..|m| - 1]), a.word(m[|m| - 1]), a.width)
  }

  /** The start state that leads to `c` over `m`. */
  function Rewind<S, B>(r: Register<S>, a: Alphabet<S, B>, c: S, m: seq<B>): S
    decreases |m|
  {
    if m == [] then c
    else Rewind(r, a, Unabsorb(r, c, a.word(m[|m| - 1]), a.width), m[..|m| - 1])
  }

  function Bits<S, B>(a: Alphabet<S, B>, m: seq<B>): seq<bool> {
    if m == [] then [] else Bits(a, m[..|m| - 1]) + a.bits(m[|m| - 1])
  }

  lemma {:induction false} RunConcat<S, B>(r: Register<S>, a: Alphabet<S, B>, c: S, m: seq<B>, n: seq<B>)
    ensures Run(r, a, c, m + n) == Run(r, a, Run(r, a, c, m), n)
    decreases |n|
  {
    if n == [] {
      assert m + n == m;
    } else {
      assert (m + n)[..|m + n| - 1] == m + n[..|n| - 1];
      RunConcat(r, a, c, m, n[..|n| - 1]);
    }
  }

  lemma {:induction false} RunSnoc<S, B>(r: Register<S>, a: Alphabet<S, B>, c: S, m: seq<B>, b: B)
    ensures Run(r, a, c, m + [b]) == Absorb(r, Run(r, a, c, m), a.word(b), a.width)
  {
    assert (m + [b])[..|m|] == m;
  }

  lemma {:induction false} RunNext<S, B>(r: Register<S>, a: Alphabet<S, B>, c: S, m: seq<B>, i: nat)
    requires i < |m|
    ensures Run(r, a, c, m[..i + 1]) == Absorb(r, Run(r, a, c, m[..i]), a.word(m[i]), a.width)
  {
    assert m[..i + 1] == m[..i] + [m[i]];
    RunSnoc(r, a, c, m[..i], m[i]);
  }

  lemma {:induction false} RewindRun<S(!new), B>(r: Register<S>, a: Alphabet<S, B>, c: S, m: seq<B>)
    requires Lawful(r)
    ensures Rewind(r, a, Run(r, a, c, m), m) == c
    ensures Run(r, a, Rewind(r, a, c, m), m) == c
    decreases |m|
  {
    if m != [] {
      var p, w := m[..|m| - 1], a.word(m[|m| - 1]);
      AbsorbInverse(r, Run(r, a, c, p), w, a.width);
      RewindRun(r, a, c, p);
      AbsorbInverse(r, c, w, a.width);
      RewindRun(r, a, Unabsorb(r, c, w, a.width), p);
    }
  }

  lemma {:induction false} RunIsFeed<S(!new), B(!new)>(r: Register<S>, a: Alphabet<S, B>, c: S, m: seq<B>)
    requires Lawful(r) && SpelledBy(r, a)
    ensures Run(r, a, c, m) == Feed(r, c, Bits(a, m))
    decreases |m|
  {
    if m != [] {
      var p, b := m[..|m| - 1], m[|m| - 1];
      RunIsFeed(r, a, c, p);
      AbsorbIsFeed(r, Run(r, a, c, p), a.word(b), a.bits(b));
      FeedConcat(r, c, Bits(a, p), a.bits(b));
    }
  }

  lemma {:induction false} BitsConcat<S, B>(a: Alphabet<S, B>, m: seq<B>, n: seq<B>)
    ensures Bits(a, m + n) == Bits(a, m) + Bits(a, n)
    decreases |n|
  {
    if n == [] {
      assert m + n == m;
    } else {
      assert (m + n)[..|m + n| - 1] == m + n[..|n| - 1];
      BitsConcat(a, m, n[..|n| - 1]);
    }
  }

  lemma {:induction false} BitsLength<S(!new), B(!new)>(r: Register<S>, a: Alphabet<S, B>, m: seq<B>)
    requires SpelledBy(r, a)
    ensures |Bits(a, m)| == a.width * |m|
    decreases |m|
  {
    if m != [] { BitsLength(r, a, m[..|m| - 1]); }
  }

  lemma {:induction false} BitsInjective<S(!new), B(!new)>(r: Register<S>, a: Alphabet<S, B>, m: seq<B>, n: seq<B>)
    requires SpelledBy(r, a) && (forall b, d :: a.bits(b) == a.bits(d) ==> b == d)
    requires |m| == |n| && Bits(a, m) == Bits(a, n)
    ensures m == n
    decreases |m|
  {
    if m == [] {
      assert n == [];
    } else {
      var k := |m| - 1;
      BitsLength(r, a, m[..k]);
      BitsLength(r, a, n[..k]);
      var split := a.width * k;
      assert Bits(a, m)[..split] == Bits(a, m[..k]) && Bits(a, n)[..split] == Bits(a, n[..k]);
      assert Bits(a, m)[split..] == a.bits(m[k]) && Bits(a, n)[split..] == a.bits(n[k]);
      BitsInjective(r, a, m[..k], n[..k]);
      assert m == m[..k] + [m[k]] && n == n[..k] + [n[k]];
    }
  }

  /** Two messages of one length whose bits differ only within a window the
      register can hold never end in the same state, unless they are equal. */
  lemma {:induction false} NoMessageCollision<S(!new), B(!new)>(
      r: Register<S>, a: Alphabet<S, B>, c: S, m: seq<B>, n: seq<B>, p: nat, k: nat)
    requires Lawful(r) && SpelledBy(r, a) && HoldsWords(r, k)
    requires forall b, d :: a.bits(b) == a.bits(d) ==> b == d
    requires |m| == |n| && |Bits(a, m)| == |Bits(a, n)|
    requires AgreeOutside(Bits(a, m), Bits(a, n), p, k)
    requires Run(r, a, c, m) == Run(r, a, c, n)
    ensures m == n
  {
    RunIsFeed(r, a, c, m);
    RunIsFeed(r, a, c, n);
    NoCollisionInWindow(r, c, Bits(a, m), Bits(a, n), p, k);
    BitsInjective(r, a, m, n);
  }

  lemma {:induction false} SegmentAgrees(p: seq<bool>, x: seq<bool>, y: seq<bool>, q: seq<bool>, k: nat)
    requires |x| == |y| <= k
    ensures AgreeOutside(p + x + q, p + y + q, |p|, k)
  {}

  lemma {:induction false} SegmentBits<S, B>(a: Alphabet<S, B>, pre: seq<B>, x: seq<B>, post: seq<B>)
    ensures Bits(a, pre + x + post) == Bits(a, pre) + Bits(a, x) + Bits(a, post)
  {
    BitsConcat(a, pre + x, post);
    BitsConcat(a, pre, x);
  }

  /** The same, for a change confined to some consecutive symbols. */
  lemma {:induction false} NoSegmentCollision<S(!new), B(!new)>(
      r: Register<S>, a: Alphabet<S, B>, c: S, pre: seq<B>, x: seq<B>, y: seq<B>, post: seq<B>, k: nat)
    requires Lawful(r) && SpelledBy(r, a) && HoldsWords(r, k)
    requires forall b, d :: a.bits(b) == a.bits(d) ==> b == d
    requires |x| == |y| && a.width * |x| <= k
    requires Run(r, a, c, pre + x + post) == Run(r, a, c, pre + y + post)
    ensures x == y
  {
    var m, n := pre + x + post, pre + y + post;
    SegmentBits(a, pre, x, post);
    SegmentBits(a, pre, y, post);
    BitsLength(r, a, x);
    BitsLength(r, a, y);
    SegmentAgrees(Bits(a, pre), Bits(a, x), Bits(a, y), Bits(a, post), k);
    NoMessageCollision(r, a, c, m, n, |Bits(a, pre)|, k);
    assert x == m[|pre|..|pre| + |x|] && y == n[|pre|..|pre| + |y|];
  }
}
