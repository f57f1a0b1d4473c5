/** Names in a FAT directory (scripts/make_live_iso.py): 8.3 names, aliases for
    names that do not fit, and the long-name records that keep the full name.
    Names are ASCII and already in upper case. */
module FatNames {
  import opened FatBytes

  type Name = Bytes

  const SPACE: byte := 0x20
  const DOT: byte := 0x2E
  const TILDE: byte := 0x7E
  const UNDERSCORE: byte := 0x5F

  /** A to Z, 0 to 9 and _ $ ~ ! # % & - { } ( ) @ ' ` ^. */
  predicate Allowed(c: byte) {
    || 0x41 <= c <= 0x5A || 0x30 <= c <= 0x39
    || c in {0x5F, 0x24, 0x7E, 0x21, 0x23, 0x25, 0x26, 0x2D, 0x7B, 0x7D, 0x28, 0x29, 0x40, 0x27, 0x60, 0x5E}
  }

  predicate AllAllowed(b: Bytes) {
    forall i :: 0 <= i < |b| ==> Allowed(b[i])
  }

  /** fat_long_name_supported. */
  predicate Supported(name: Name) {
    && 0 < |name| <= 255 && name[0] != DOT && name[|name| - 1] != SPACE && name[|name| - 1] != DOT
    && forall i :: 0 <= i < |name| ==> Allowed(name[i]) || name[i] == DOT
  }

  // ----- 8.3 names ---------------------------------------------------------

  /** Where the first dot is, or the end. */
  function DotAt(name: Name): (n: nat)
    ensures n <= |name| && (n < |name| ==> name[n] == DOT)
    ensures forall i :: 0 <= i < n ==> name[i] != DOT
  {
    if name == [] || name[0] == DOT then 0 else 1 + DotAt(name[1..])
  }

  function Base(name: Name): Bytes { name[..DotAt(name)] }

  function Ext(name: Name): Bytes {
    if DotAt(name) < |name| then name[DotAt(name) + 1..] else []
  }

  predicate Fits83(name: Name) {
    0 < |Base(name)| <= 8 && |Ext(name)| <= 3 && AllAllowed(Base(name)) && AllAllowed(Ext(name))
  }

  /** upper_83 on a name it accepts. */
  function Upper83(name: Name): (s: Bytes)
    requires Fits83(name)
    ensures |s| == 11
  {
    Justify(Base(name), 8, SPACE) + Justify(Ext(name), 3, SPACE)
  }

  function StripEnd(b: Bytes): Bytes {
    if b != [] && b[|b| - 1] == SPACE then StripEnd(b[..|b| - 1]) else b
  }

  /** The name a directory record shows when it stands alone. */
  function Display(short: Bytes): Name
    requires |short| == 11
  {
    var ext := StripEnd(short[8..]);
    StripEnd(short[..8]) + if ext == [] then [] else [DOT] + ext
  }

  lemma {:induction false} StripUndoesFill(b: Bytes, n: nat)
    requires b == [] || b[|b| - 1] != SPACE
    ensures StripEnd(b + Fill(n, SPACE)) == b
  {
    if n == 0 {
      assert b + Fill(n, SPACE) == b;
    } else {
      StripUndoesFill(b, n - 1);
      assert (b + Fill(n, SPACE))[..|b| + n - 1] == b + Fill(n - 1, SPACE);
    }
  }

  /** An 8.3 name comes back whole from its record. */
  lemma {:induction false} DisplayUndoesUpper83(name: Name)
    requires Supported(name) && Fits83(name)
    ensures Display(Upper83(name)) == name
  {
    ShowsBoth(Base(name), Ext(name), Upper83(name));
    NameParts(name);
  }

  lemma {:induction false} NameParts(name: Name)
    requires Supported(name)
    ensures name == Base(name) + if Ext(name) == [] then [] else [DOT] + Ext(name)
  {
    if DotAt(name) < |name| { Halves(name, DotAt(name)); }
  }

  lemma {:induction false} Halves(name: Name, d: nat)
    requires d < |name|
    ensures name == name[..d] + ([name[d]] + name[d + 1..]) && (name[d + 1..] == [] ==> name[d] == name[|name| - 1])
  {}

  lemma {:induction false} ShowsBoth(b: Bytes, e: Bytes, s: Bytes)
    requires 0 < |b| <= 8 && |e| <= 3 && AllAllowed(b) && AllAllowed(e) && s == Justify(b, 8, SPACE) + Justify(e, 3, SPACE)
    ensures |s| == 11 && Display(s) == b + if e == [] then [] else [DOT] + e
  {
    TwoFields(b, e, s);
    StripField(s[..8], b, 8 - |b|);
    StripField(s[8..], e, 3 - |e|);
    DisplayIs(s, b, e);
  }

  lemma {:induction false} StripField(field: Bytes, b: Bytes, n: nat)
    requires AllAllowed(b) && field == b + Fill(n, SPACE)
    ensures StripEnd(field) == b
  {
    StripUndoesFill(b, n);
  }

  lemma {:induction false} TwoFields(b: Bytes, e: Bytes, s: Bytes)
    requires |b| <= 8 && |e| <= 3 && s == Justify(b, 8, SPACE) + Justify(e, 3, SPACE)
    ensures |s| == 11 && s[..8] == b + Fill(8 - |b|, SPACE) && s[8..] == e + Fill(3 - |e|, SPACE)
  {}

  lemma {:induction false} DisplayIs(s: Bytes, b: Bytes, e: Bytes)
    requires |s| == 11 && StripEnd(s[..8]) == b && StripEnd(s[8..]) == e
    ensures Display(s) == b + if e == [] then [] else [DOT] + e
  {}

  // ----- Aliases -----------------------------------------------------------

  function Decimal(n: nat): (d: Bytes)
    ensures d != [] && forall i :: 0 <= i < |d| ==> 0x30 <= d[i] <= 0x39
  {
    if n < 10 then [0x30 + n] else Decimal(n / 10) + [0x30 + n % 10]
  }

  function Pow10(k: nat): (p: nat)
    ensures p > 0
  {
    if k == 0 then 1 else 10 * Pow10(k - 1)
  }

  lemma {:induction false} DecimalLength(n: nat, k: nat)
    requires 0 < k && n < Pow10(k)
    ensures |Decimal(n)| <= k
  {
    if n >= 10 {
      assert k > 1;
      DecimalLength(n / 10, k - 1);
    }
  }

  function Value(d: Bytes): int {
    if d == [] then 0 else 10 * Value(d[..|d| - 1]) + (d[|d| - 1] as int - 0x30)
  }

  lemma {:induction false} ValueOfDecimal(n: nat)
    ensures Value(Decimal(n)) == n
  {
    if n >= 10 {
      ValueOfDecimal(n / 10);
      assert Decimal(n)[..|Decimal(n)| - 1] == Decimal(n / 10);
    } else {
      assert Decimal(n)[..0] == [];
    }
  }

  function Sanitize(b: Bytes): (r: Bytes)
    ensures |r| == |b| && AllAllowed(r)
  {
    seq(|b|, i requires 0 <= i < |b| => if Allowed(b[i]) then b[i] else UNDERSCORE)
  }

  /** The sanitized base, with a stand-in for none. */
  function Stem(name: Name): (r: Bytes)
    ensures r != [] && AllAllowed(r)
  {
    var b := Sanitize(Base(name));
    if b == [] then [0x52, 0x42] else b
  }

  function Tail(name: Name): (r: Bytes)
    ensures |r| <= 3 && AllAllowed(r)
  {
    var e := Sanitize(Ext(name));
    if |e| <= 3 then e else e[..3]
  }

  const ALIASES: nat := 1000000

  /** The stem cut so that a tilde and `digits` digits fit after it. */
  function CutStem(name: Name, digits: nat): (r: Bytes)
    requires digits <= 6
    ensures 0 < |r| <= 7 - digits && AllAllowed(r)
  {
    if |Stem(name)| <= 7 - digits then Stem(name) else Stem(name)[..7 - digits]
  }

  function Numbered(name: Name, n: nat): (r: Bytes)
    requires n < ALIASES
    ensures 2 < |r| <= 8 && AllAllowed(r)
  {
    DecimalLength(n, 6);
    CutStem(name, |Decimal(n)|) + [TILDE] + Decimal(n)
  }

  function Candidate(name: Name, n: nat): (r: Bytes)
    requires n < ALIASES
    ensures |r| == 11
  {
    Justify(Numbered(name, n), 8, SPACE) + Justify(Tail(name), 3, SPACE)
  }

  /** The loop of fat_short_alias from `n` on. */
  function AliasFrom(name: Name, used: set<Bytes>, n: nat): (r: Option<Bytes>)
    requires n <= ALIASES
    ensures r.Some? ==> |r.value| == 11 && r.value !in used
    decreases ALIASES - n
  {
    if n == ALIASES then None
    else if Candidate(name, n) !in used then Some(Candidate(name, n))
    else AliasFrom(name, used, n + 1)
  }

  /** fat_short_alias: the 8.3 name itself when there is one and it is free. */
  function Alias(name: Name, used: set<Bytes>): (r: Option<Bytes>)
    ensures r.Some? ==> |r.value| == 11 && r.value !in used
  {
    if Fits83(name) && Upper83(name) !in used then Some(Upper83(name)) else AliasFrom(name, used, 1)
  }

  // ----- No two numbers give the same alias --------------------------------

  /** What follows the last tilde. */
  function AfterTilde(b: Bytes): Bytes {
    if b == [] || b[|b| - 1] == TILDE then [] else AfterTilde(b[..|b| - 1]) + [b[|b| - 1]]
  }

  lemma {:induction false} AfterTildeIsSuffix(a: Bytes, d: Bytes)
    requires TILDE !in d
    ensures AfterTilde(a + [TILDE] + d) == d
    decreases |d|
  {
    var all := a + [TILDE] + d;
    if d == [] {
      assert all[|all| - 1] == TILDE;
    } else {
      assert d[|d| - 1] in d;
      AfterTildeIsSuffix(a, d[..|d| - 1]);
      assert all[..|all| - 1] == a + [TILDE] + d[..|d| - 1] && all[|all| - 1] == d[|d| - 1];
      assert d == d[..|d| - 1] + [d[|d| - 1]];
    }
  }

  /** The number can be read back from the alias. */
  lemma {:induction false} NumberedIsInjective(name: Name, n: nat)
    requires n < ALIASES
    ensures NumberOf(Candidate(name, n)) == n
  {
    CandidateBase(name, n);
    FilledStrips(Numbered(name, n), Candidate(name, n)[..8]);
    NumberAfterTilde(name, n);
  }

  lemma {:induction false} FilledStrips(r: Bytes, c: Bytes)
    requires 0 < |r| <= 8 && AllAllowed(r) && c == r + Fill(8 - |r|, SPACE)
    ensures StripEnd(c) == r
  {
    assert Allowed(r[|r| - 1]);
    StripUndoesFill(r, 8 - |r|);
  }

  lemma {:induction false} CandidateBase(name: Name, n: nat)
    requires n < ALIASES
    ensures |Numbered(name, n)| <= 8 && Candidate(name, n)[..8] == Numbered(name, n) + Fill(8 - |Numbered(name, n)|, SPACE)
  {}

  lemma {:induction false} NumberAfterTilde(name: Name, n: nat)
    requires n < ALIASES
    ensures Value(AfterTilde(Numbered(name, n))) == n
  {
    DecimalLength(n, 6);
    AfterTildeIsSuffix(CutStem(name, |Decimal(n)|), Decimal(n));
    ValueOfDecimal(n);
  }

  /** If every candidate from 1 up to `n` is taken, that many names are taken. */
  lemma {:induction false} TakenAliasesAddUp(name: Name, used: set<Bytes>, n: nat) returns (taken: set<Bytes>)
    requires 1 <= n <= ALIASES && forall k :: 1 <= k < n ==> Candidate(name, k) in used
    ensures taken <= used && |taken| == n - 1
    ensures NumbersBelow(taken, n)
    decreases n
  {
    if n == 1 {
      taken := {};
    } else {
      var before := TakenAliasesAddUp(name, used, n - 1);
      NumberedIsInjective(name, n - 1);
      taken := before + {Candidate(name, n - 1)};
      OneMoreTaken(before, Candidate(name, n - 1), n - 1);
    }
  }

  /** The number of an alias, read from the alias. */
  ghost function NumberOf(a: Bytes): int
    requires |a| == 11
  {
    Value(AfterTilde(StripEnd(a[..8])))
  }

  ghost predicate NumbersBelow(aliases: set<Bytes>, n: nat) {
    forall a :: a in aliases ==> |a| == 11 && NumberOf(a) < n
  }

  lemma {:induction false} OneMoreTaken(before: set<Bytes>, a: Bytes, n: nat)
    requires NumbersBelow(before, n) && |a| == 11 && NumberOf(a) == n
    ensures NumbersBelow(before + {a}, n + 1) && |before + {a}| == |before| + 1
  {
    assert a !in before;
  }

  lemma {:induction false} NoneMeansTaken(name: Name, used: set<Bytes>, n: nat, k: nat)
    requires n <= k < ALIASES && AliasFrom(name, used, n).None?
    ensures Candidate(name, k) in used
    decreases ALIASES - n
  {
    if n < k { NoneMeansTaken(name, used, n + 1, k); }
  }

  /** An alias can be refused only in a directory of at least 999999 names. */
  lemma {:induction false} AliasExists(name: Name, used: set<Bytes>)
    requires |used| < ALIASES - 1
    ensures Alias(name, used).Some?
  {
    if AliasFrom(name, used, 1).None? {
      forall k | 1 <= k < ALIASES ensures Candidate(name, k) in used { NoneMeansTaken(name, used, 1, k); }
      var taken := TakenAliasesAddUp(name, used, ALIASES);
      SubsetIsNoLarger(taken, used);
    }
  }

  lemma {:induction false} SubsetIsNoLarger(a: set<Bytes>, b: set<Bytes>)
    requires a <= b
    ensures |a| <= |b|
    decreases |a|
  {
    if a != {} {
      var x :| x in a;
      SubsetIsNoLarger(a - {x}, b - {x});
    }
  }
}
