/** Numbers as text: the digit generation of kernel/core/printf.c and the parser
    strtou64 of kernel/lib/string.c, proved to invert each other.

    A C string is a `string` without its terminator; reading at the end yields
    the NUL character. */
module NumText {
  import opened Arith
  import opened Math64

  function At(s: string, p: nat): char {
    if p < |s| then s[p] else '\0'
  }

  // ----- Printing ----------------------------------------------------------

  function DigitChar(d: nat, upper: bool): char
    requires d < 16
  {
    if upper then "0123456789ABCDEF"[d] else "0123456789abcdef"[d]
  }

  function Digits(v: nat, base: nat, upper: bool): (r: string)
    requires 2 <= base <= 16
    ensures r != []
  {
    if v < base then [DigitChar(v, upper)]
    else
      DivShrinks(v, base);
      Digits(v / base, base, upper) + [DigitChar(v % base, upper)]
  }

  function Repeat(c: char, n: int): (r: string)
    ensures |r| == if n > 0 then n else 0
    ensures forall i :: 0 <= i < |r| ==> r[i] == c
  {
    if n <= 0 then [] else Repeat(c, n - 1) + [c]
  }

  /** The text of `%u`, `%x` and `%X`: digits padded on the left to `width`. */
  function UintText(v: nat, base: nat, upper: bool, width: int, padZero: bool): string
    requires 2 <= base <= 16
  {
    var digits := Digits(v, base, upper);
    Repeat(if padZero then '0' else ' ', width - |digits|) + digits
  }

  /** The text of `%d`: the sign comes before the padding. */
  function IntText(v: int, width: int, padZero: bool): string {
    if v < 0
    then ['-'] + UintText(-v, 10, false, if width > 0 then width - 1 else 0, padZero)
    else UintText(v, 10, false, width, padZero)
  }

  lemma {:induction false} DivShrinks(v: nat, base: nat)
    requires 2 <= base <= v
    ensures 0 <= v / base < v
  {
    MulMono(2, base, v);
    DivLess(v, base, v);
    DivAtLeast(v, base, 0);
  }

  /** A word of `k` bits has at most `k` digits in any base. */
  lemma {:induction false} DigitCount(v: nat, base: nat, upper: bool, k: nat)
    requires 2 <= base <= 16 && 1 <= k && v < Pow2(k)
    ensures |Digits(v, base, upper)| <= k
    decreases k
  {
    if v >= base {
      assert Pow2(1) == 2 && Pow2(k) == 2 * Pow2(k - 1);
      MulMono(2, base, Pow2(k - 1));
      DivLess(v, base, Pow2(k - 1));
      DivAtLeast(v, base, 0);
      DigitCount(v / base, base, upper, k - 1);
    }
  }

  /** The 65-character buffer of out_uint is always large enough. */
  lemma {:induction false} DigitsFit(v: u64, base: nat, upper: bool)
    requires 2 <= base <= 16
    ensures |Digits(v, base, upper)| <= 64
  {
    Pow2At64();
    DigitCount(v, base, upper, 64);
  }

  // ----- Parsing -----------------------------------------------------------

  function DigitValue(c: char): (r: int)
    ensures -1 <= r < 16
  {
    if '0' <= c <= '9' then c as int - '0' as int
    else if 'a' <= c <= 'f' then c as int - 'a' as int + 10
    else if 'A' <= c <= 'F' then c as int - 'A' as int + 10
    else -1
  }

  predicate IsDigit(c: char, base: nat) {
    0 <= DigitValue(c) < base
  }

  predicate AllDigits(s: string, base: nat) {
    forall i :: 0 <= i < |s| ==> IsDigit(s[i], base)
  }

  predicate IsSpace(c: char) {
    c == ' ' || c == '\t' || c == '\n' || c == '\r'
  }

  /** The value of a digit string, unbounded. */
  function Value(s: string, base: nat): nat
    requires AllDigits(s, base)
  {
    if s == [] then 0
    else
      assert IsDigit(s[|s| - 1], base);
      Value(s[..|s| - 1], base) * base + DigitValue(s[|s| - 1])
  }

  function SkipSpaces(s: string, p: nat): (r: nat)
    requires p <= |s|
    ensures p <= r <= |s|
    ensures forall i :: p <= i < r ==> IsSpace(s[i])
    ensures !IsSpace(At(s, r))
    decreases |s| - p
  {
    if p < |s| && IsSpace(s[p]) then SkipSpaces(s, p + 1) else p
  }

  function RunEnd(s: string, p: nat, base: nat): (r: nat)
    requires p <= |s|
    ensures p <= r <= |s|
    ensures forall i :: p <= i < r ==> IsDigit(s[i], base)
    ensures !IsDigit(At(s, r), base)
    decreases |s| - p
  {
    if p < |s| && IsDigit(s[p], base) then RunEnd(s, p + 1, base) else p
  }

  /** Base and start of the digits, after a possible 0 or 0x prefix. */
  function Prefix(s: string, p: nat, base: nat): (r: (nat, nat))
    requires p <= |s| && (base == 0 || 2 <= base <= 16)
    ensures 2 <= r.0 <= 16 && p <= r.1 <= |s|
  {
    if base != 0 then (base, p)
    else if At(s, p) == '0' && (At(s, p + 1) == 'x' || At(s, p + 1) == 'X') then (16, p + 2)
    else if At(s, p) == '0' then (8, p + 1)
    else (10, p)
  }

  /** Value and end position reported by strtou64: the whole digit run is
      consumed, its value is capped at the largest word, and without any digit
      nothing is consumed. */
  function Parse(s: string, base: int): (u64, nat) {
    if base != 0 && (base < 2 || base > 16) then (0, 0)
    else
      var (b, start) := Prefix(s, SkipSpaces(s, 0), base);
      var end := RunEnd(s, start, b);
      if end == start then (0, 0) else (Min(Value(s[start..end], b), MAX64), end)
  }

  lemma {:induction false} ValueSnoc(s: string, c: char, base: nat)
    requires AllDigits(s, base)
    requires IsDigit(c, base)
    ensures AllDigits(s + [c], base)
    ensures Value(s + [c], base) == Value(s, base) * base + DigitValue(c)
  {
    assert (s + [c])[..|s|] == s;
  }

  lemma {:induction false} ValueGrows(s: string, t: string, base: nat)
    requires 1 <= base
    requires AllDigits(s, base)
    requires AllDigits(t, base)
    ensures AllDigits(s + t, base)
    ensures Value(s, base) <= Value(s + t, base)
    decreases |t|
  {
    if t == [] {
      assert s + t == s;
    } else {
      var t' := t[..|t| - 1];
      assert s + t == (s + t') + [t[|t| - 1]];
      ValueGrows(s, t', base);
      ValueSnoc(s + t', t[|t| - 1], base);
      MulMono(1, base, Value(s + t', base));
    }
  }

  lemma {:induction false} RunEndUnique(s: string, p: nat, base: nat, r: nat)
    requires p <= r <= |s|
    requires forall i :: p <= i < r ==> IsDigit(s[i], base)
    requires !IsDigit(At(s, r), base)
    ensures RunEnd(s, p, base) == r
  {}

  /** The overflow test of the source is exact. */
  lemma {:induction false} OverflowTest(value: nat, d: nat, base: nat)
    requires 2 <= base && d <= MAX64
    ensures value > (MAX64 - d) / base <==> value * base + d > MAX64
  {
    DivBounds(MAX64 - d, base);
    if value > (MAX64 - d) / base {
      MulMono((MAX64 - d) / base + 1, value, base);
    } else {
      MulMono(value, (MAX64 - d) / base, base);
    }
  }

  lemma {:induction false} RunSnoc(s: string, start: nat, p: nat, base: nat)
    requires start <= p < |s| && AllDigits(s[start..p], base) && IsDigit(s[p], base)
    ensures AllDigits(s[start..p + 1], base)
    ensures Value(s[start..p + 1], base) == Value(s[start..p], base) * base + DigitValue(s[p])
  {
    assert s[start..p + 1] == s[start..p] + [s[p]];
    ValueSnoc(s[start..p], s[p], base);
  }

  lemma {:induction false} RunGrows(s: string, start: nat, p: nat, end: nat, base: nat)
    requires start <= p <= end <= |s| && 1 <= base
    requires AllDigits(s[start..p], base) && AllDigits(s[p..end], base)
    ensures AllDigits(s[start..end], base)
    ensures Value(s[start..p], base) <= Value(s[start..end], base)
  {
    assert s[start..end] == s[start..p] + s[p..end];
    ValueGrows(s[start..p], s[p..end], base);
  }

  /** The inner loop that consumes the rest of an overflowing run. */
  method SkipRun(s: string, start: nat, base: nat) returns (p: nat)
    requires start <= |s|
    ensures p == RunEnd(s, start, base)
    ensures start <= p <= |s| && AllDigits(s[start..p], base)
  {
    p := start;
    while IsDigit(At(s, p), base)
      invariant start <= p <= |s|
      invariant RunEnd(s, start, base) == RunEnd(s, p, base)
      decreases |s| - p
    {
      p := p + 1;
    }
  }

  /** The rest of a run whose value no longer fits. */
  method SkipOverflow(s: string, start: nat, p0: nat, base: nat) returns (p: nat)
    requires start <= p0 < |s| && 1 <= base && AllDigits(s[start..p0 + 1], base) && Value(s[start..p0 + 1], base) > MAX64
    ensures p0 < p <= |s| && p == RunEnd(s, p0 + 1, base)
    ensures AllDigits(s[start..p], base) && Value(s[start..p], base) > MAX64
  {
    p := SkipRun(s, p0 + 1, base);
    RunGrows(s, start, p0 + 1, p, base);
  }

  /** The digit loop of strtou64. */
  method ScanDigits(s: string, start: nat, base: nat) returns (value: u64, p: nat, found: bool)
    requires start <= |s| && 2 <= base <= 16
    ensures p == RunEnd(s, start, base)
    ensures found <==> p > start
    ensures AllDigits(s[start..p], base) && value == Min(Value(s[start..p], base), MAX64)
  {
    p := start;
    value := 0;
    var any, overflow := false, false;
    while true
      invariant start <= p <= |s|
      invariant RunEnd(s, start, base) == RunEnd(s, p, base)
      invariant AllDigits(s[start..p], base) && value == Value(s[start..p], base)
      invariant any <==> p > start
      invariant !overflow
      decreases |s| - p
    {
      var d := DigitValue(At(s, p));
      if d < 0 || d >= base { break; }
      RunSnoc(s, start, p, base);
      OverflowTest(value, d, base);
      if value > (MAX64 - d) / base {
        overflow := true;
        value := MAX64;
        p := SkipOverflow(s, start, p, base);
        break;
      }
      value := value * base + d;
      p := p + 1;
      any := true;
    }
    found := any || overflow;
  }

  method StrToU64(s: string, base0: int) returns (value: u64, end: nat)
    ensures (value, end) == Parse(s, base0)
  {
    if base0 != 0 && (base0 < 2 || base0 > 16) { return 0, 0; }
    var base: nat := base0;
    var p := 0;
    while IsSpace(At(s, p))
      invariant p <= |s|
      invariant SkipSpaces(s, 0) == SkipSpaces(s, p)
      decreases |s| - p
    {
      p := p + 1;
    }
    if base == 0 {
      if At(s, p) == '0' && (At(s, p + 1) == 'x' || At(s, p + 1) == 'X') {
        base := 16;
        p := p + 2;
      } else if At(s, p) == '0' {
        base := 8;
        p := p + 1;
      } else {
        base := 10;
      }
    }
    assert (base, p) == Prefix(s, SkipSpaces(s, 0), base0);
    var found;
    value, end, found := ScanDigits(s, p, base);
    if !found { end := 0; }
  }

  // ----- Parsing undoes printing -------------------------------------------

  lemma {:induction false} DigitCharValue(d: nat, upper: bool)
    requires d < 16
    ensures DigitValue(DigitChar(d, upper)) == d && !IsSpace(DigitChar(d, upper))
  {}

  lemma {:induction false} DigitsValue(v: nat, base: nat, upper: bool)
    requires 2 <= base <= 16
    ensures var t := Digits(v, base, upper);
            && AllDigits(t, base)
            && !IsSpace(t[0])
            && Value(t, base) == v
            && (v > 0 ==> DigitValue(t[0]) > 0)
    decreases v
  {
    var t := Digits(v, base, upper);
    if v < base {
      DigitCharValue(v, upper);
      assert t[..0] == [];
    } else {
      DivShrinks(v, base);
      DivBounds(v, base);
      DivAtLeast(v, base, 1);
      DigitsValue(v / base, base, upper);
      DigitCharValue(v % base, upper);
      ValueSnoc(Digits(v / base, base, upper), DigitChar(v % base, upper), base);
    }
  }

  lemma {:induction false} ZerosValue(n: int, t: string, base: nat)
    requires 1 <= base
    requires AllDigits(t, base)
    ensures AllDigits(Repeat('0', n) + t, base)
    ensures Value(Repeat('0', n) + t, base) == Value(t, base)
    decreases |t|, if n > 0 then n else 0
  {
    var z := Repeat('0', n);
    if t != [] {
      var t' := t[..|t| - 1];
      ZerosValue(n, t', base);
      assert z + t == (z + t') + [t[|t| - 1]];
      ValueSnoc(z + t', t[|t| - 1], base);
    } else if n > 0 {
      assert z + t == (Repeat('0', n - 1) + []) + ['0'];
      ZerosValue(n - 1, [], base);
      ValueSnoc(Repeat('0', n - 1) + [], '0', base);
    } else {
      assert z + t == [];
    }
  }

  lemma {:induction false} SkipSpacesIs(s: string, p: nat, r: nat)
    requires p <= r <= |s|
    requires forall i :: p <= i < r ==> IsSpace(s[i])
    requires !IsSpace(At(s, r))
    ensures SkipSpaces(s, p) == r
  {}

  lemma {:induction false} ParseRun(lead: string, run: string, rest: string, base: nat)
    requires 2 <= base <= 16 && run != []
    requires forall i :: 0 <= i < |lead| ==> IsSpace(lead[i])
    requires AllDigits(run, base)
    requires !IsSpace(run[0])
    requires rest == [] || !IsDigit(rest[0], base)
    ensures Parse(lead + run + rest, base) == (Min(Value(run, base), MAX64), |lead| + |run|)
  {
    var s, a, e := lead + run + rest, |lead|, |lead| + |run|;
    assert s[a..e] == run;
    assert At(s, e) == if rest == [] then '\0' else rest[0];
    assert forall i :: 0 <= i < a ==> s[i] == lead[i];
    ParseBetween(s, a, e, base);
  }

  /** Spaces up to `a`, then digits up to `e`, and no further. */
  lemma {:induction false} ParseBetween(s: string, a: nat, e: nat, base: nat)
    requires 2 <= base <= 16 && a < e <= |s| && AllDigits(s[a..e], base)
    requires forall i :: 0 <= i < a ==> IsSpace(s[i])
    requires !IsSpace(s[a]) && !IsDigit(At(s, e), base)
    ensures Parse(s, base) == (Min(Value(s[a..e], base), MAX64), e)
  {
    SkipSpacesIs(s, 0, a);
    assert forall i :: a <= i < e ==> s[i] == s[a..e][i - a];
    RunEndUnique(s, a, base, e);
  }

  /** A hexadecimal prefix and digits to the end. */
  lemma {:induction false} ParseHex(t: string)
    requires |t| > 2 && t[0] == '0' && t[1] == 'x' && AllDigits(t[2..], 16)
    ensures Parse(t, 0) == (Min(Value(t[2..], 16), MAX64), |t|)
  {
    SkipSpacesIs(t, 0, 0);
    assert forall i :: 2 <= i < |t| ==> t[i] == t[2..][i - 2];
    RunEndUnique(t, 2, 16, |t|);
    assert t[2..|t|] == t[2..];
  }

  lemma {:induction false} PaddedRun(v: u64, base: nat, upper: bool, width: int)
    requires 2 <= base <= 16
    ensures var t := UintText(v, base, upper, width, true);
            t != [] && AllDigits(t, base) && !IsSpace(t[0]) && Value(t, base) == v
  {
    var t := Digits(v, base, upper);
    DigitsValue(v, base, upper);
    ZerosValue(width - |t|, t, base);
    assert Repeat('0', width - |t|) != [] ==> Repeat('0', width - |t|)[0] == '0';
  }

  /** Parsing the text of a word, in the base it was printed in and with any
      width and padding, gives the word back and stops right after its last
      digit, whatever non-digit text follows. */
  lemma {:induction false} ParseUndoesPrint(v: u64, base: nat, upper: bool, width: int, padZero: bool, rest: string)
    requires 2 <= base <= 16
    requires rest == [] || !IsDigit(rest[0], base)
    ensures var t := UintText(v, base, upper, width, padZero);
            Parse(t + rest, base) == (v, |t|)
  {
    if padZero {
      PaddedRun(v, base, upper, width);
      ParseSaturates(UintText(v, base, upper, width, true), rest, base);
    } else {
      DigitsValue(v, base, upper);
      var t := Digits(v, base, upper);
      ParseRun(Repeat(' ', width - |t|), t, rest, base);
    }
  }

  /** A digit run of any length is consumed whole and its value is exact until
      it saturates. */
  lemma {:induction false} ParseSaturates(run: string, rest: string, base: nat)
    requires 2 <= base <= 16 && run != []
    requires AllDigits(run, base)
    requires rest == [] || !IsDigit(rest[0], base)
    ensures Parse(run + rest, base) == (Min(Value(run, base), MAX64), |run|)
  {
    ParseRun([], run, rest, base);
    assert [] + run + rest == run + rest;
  }

  /** Spaces, then digits that do not begin with 0: the base is found to be 10. */
  lemma {:induction false} DetectTen(s: string, a: nat)
    requires a < |s| && AllDigits(s[a..], 10) && s[a] != '0' && forall i :: 0 <= i < a ==> s[i] == ' '
    ensures Parse(s, 0) == (Min(Value(s[a..], 10), MAX64), |s|)
  {
    assert forall i :: a <= i < |s| ==> s[i] == s[a..][i - a];
    SkipSpacesIs(s, 0, a);
    RunEndUnique(s, a, 10, |s|);
    assert s[a..|s|] == s[a..];
  }

  /** Spaces and a lone 0: the digit is taken for a prefix, and the parser reports
      that nothing was consumed. */
  lemma {:induction false} DetectLoneZero(s: string, a: nat)
    requires a + 1 == |s| && s[a] == '0' && forall i :: 0 <= i < a ==> s[i] == ' '
    ensures Parse(s, 0).1 == 0
  {
    SkipSpacesIs(s, 0, a);
    assert RunEnd(s, a + 1, 8) == a + 1;
  }

  /** A leading 0 and more decimal digits: the base is found to be 8. */
  lemma {:induction false} DetectEight(s: string)
    requires |s| > 1 && s[0] == '0' && AllDigits(s[1..], 10)
    ensures AllDigits(s[1..], 8) ==> Parse(s, 0) == (Min(Value(s[1..], 8), MAX64), |s|)
    ensures !AllDigits(s[1..], 8) ==> Parse(s, 0).1 < |s|
  {
    SkipSpacesIs(s, 0, 0);
    assert s[1] == s[1..][0] && IsDigit(s[1], 10);
    assert forall i :: 1 <= i < |s| ==> s[i] == s[1..][i - 1];
    if AllDigits(s[1..], 8) {
      RunEndUnique(s, 1, 8, |s|);
      assert s[1..|s|] == s[1..];
    } else {
      var i :| 0 <= i < |s[1..]| && !IsDigit(s[1..][i], 8);
      assert !IsDigit(s[i + 1], 8);
    }
  }

  /** Read in base 8 instead of 10, two digits or more come out smaller. */
  lemma {:induction false} EightIsLess(t: string)
    requires t != [] && AllDigits(t, 8) && DigitValue(t[0]) > 0
    ensures AllDigits(t, 10) && 0 < Value(t, 8) <= Value(t, 10) && (|t| > 1 ==> Value(t, 8) < Value(t, 10))
  {
    var init := t[..|t| - 1];
    if init != [] {
      EightIsLess(init);
    } else {
      assert Value(init, 8) == 0 && Value(init, 10) == 0;
    }
  }

  /** With base detection (base 0) the decimal text of a word, padded to any width,
      is read back if and only if the word is not zero; behind padding zeros it is
      taken for octal, and read back if and only if it is less than eight. */
  lemma {:induction false} DetectedBaseReadsDecimal(v: u64, upper: bool, width: int, padZero: bool)
    ensures var t := UintText(v, 10, upper, width, padZero);
            Parse(t, 0) == (v, |t|) <==> if padZero && width > |Digits(v, 10, upper)| then v < 8 else v != 0
  {
    var d := Digits(v, 10, upper);
    var t := UintText(v, 10, upper, width, padZero);
    DigitsValue(v, 10, upper);
    if padZero && width > |d| {
      ZeroPadded(v, upper, width);
    } else {
      NotPadded(t, Repeat(' ', |t| - |d|), d, v);
    }
  }

  lemma {:induction false} NotPadded(t: string, spaces: string, d: string, v: u64)
    requires t == spaces + d && d != [] && AllDigits(d, 10) && Value(d, 10) == v && (v > 0 ==> DigitValue(d[0]) > 0)
    requires (forall i :: 0 <= i < |spaces| ==> spaces[i] == ' ') && (v == 0 ==> d == "0")
    ensures Parse(t, 0) == (v, |t|) <==> v != 0
  {
    var a := |spaces|;
    assert t[a..] == d && t[a] == d[0];
    if v == 0 { DetectLoneZero(t, a); } else { DetectTen(t, a); }
  }

  lemma {:induction false} ZeroPadded(v: u64, upper: bool, width: int)
    requires width > |Digits(v, 10, upper)|
    ensures var t := UintText(v, 10, upper, width, true); Parse(t, 0) == (v, |t|) <==> v < 8
  {
    var d, n := Digits(v, 10, upper), width - |Digits(v, 10, upper)| - 1;
    DigitsValue(v, 10, upper);
    OneZeroFirst(n, d);
    PaddedOctal(UintText(v, 10, upper, width, true), n, d);
    if AllDigits(d, 8) { OctalReading(v, upper); } else { NotOctal(v, upper); }
  }

  lemma {:induction false} OneZeroFirst(n: int, d: string)
    requires n >= 0
    ensures Repeat('0', n + 1) + d == ['0'] + (Repeat('0', n) + d)
  {}

  lemma {:induction false} PaddedOctal(s: string, n: int, d: string)
    requires s == ['0'] + (Repeat('0', n) + d) && d != [] && AllDigits(d, 10)
    ensures AllDigits(d, 8) ==> Parse(s, 0) == (Min(Value(d, 8), MAX64), |s|)
    ensures !AllDigits(d, 8) ==> Parse(s, 0).1 < |s|
  {
    var z := Repeat('0', n);
    assert s[1..] == z + d;
    ZerosValue(n, d, 10);
    DetectEight(s);
    if AllDigits(d, 8) {
      ZerosValue(n, d, 8);
    } else {
      var i :| 0 <= i < |d| && !IsDigit(d[i], 8);
      assert (z + d)[|z| + i] == d[i];
    }
  }

  lemma {:induction false} OctalReading(v: u64, upper: bool)
    requires AllDigits(Digits(v, 10, upper), 8)
    ensures Value(Digits(v, 10, upper), 8) <= v && (Value(Digits(v, 10, upper), 8) == v <==> v < 8)
  {
    var d := Digits(v, 10, upper);
    DigitsValue(v, 10, upper);
    if v < 10 {
      assert d == [DigitChar(v, upper)] && IsDigit(d[0], 8);
      DigitCharValue(v, upper);
      assert d[..0] == [];
    } else {
      DivAtLeast(v, 10, 1);
      assert |d| > 1;
      EightIsLess(d);
    }
  }

  lemma {:induction false} NotOctal(v: u64, upper: bool)
    requires !AllDigits(Digits(v, 10, upper), 8)
    ensures v >= 8
  {
    if v < 8 { DigitCharValue(v, upper); }
  }

  /** The text of `%p` is read back with base detection. */
  lemma {:induction false} DetectedBaseReadsPointer(v: u64, width: int)
    ensures var t := "0x" + UintText(v, 16, false, width, true);
            Parse(t, 0) == (v, |t|)
  {
    var run := UintText(v, 16, false, width, true);
    var t := "0x" + run;
    PaddedRun(v, 16, false, width);
    assert t[2..] == run && t[0] == '0' && t[1] == 'x';
    ParseHex(t);
  }
}
