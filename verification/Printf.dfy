/** The kernel formatter (kernel/core/printf.c) and the bounded text buffer on
    top of it (kernel/lib/format.c). One text function says what a format
    prints; the bounded, the chunked and the appending writers are proved to
    deliver that text or the prefix of it that fits. */
module Printf {
  import Arith
  import opened Math64
  import opened NumText

  datatype Option<+T> = None | Some(value: T)

  // ----- Arguments ---------------------------------------------------------

  /** One variadic argument: a machine word, or a string that may be null. */
  datatype Arg = Word(bits: u64) | Str(text: Option<CString>)

  /** A string whose length a size_t can hold. */
  type CString = s: string | |s| <= 0xffff_ffff_ffff_ffff

  const TWO32: int := 0x1_0000_0000
  const INT_MAX: int := 0x7fff_ffff

  function Signed(w: nat, two: int): int {
    if 2 * w >= two then w - two else w
  }

  /** The next argument; reading past the last one yields zero. */
  function Head(args: seq<Arg>): Arg {
    if args == [] then Word(0) else args[0]
  }

  function Tail(args: seq<Arg>): seq<Arg> {
    if args == [] then [] else args[1..]
  }

  function Bits(a: Arg): u64 {
    if a.Word? then a.bits else 0
  }

  /** `unsigned int` or `unsigned long`, which is 64 bits wide like
      `unsigned long long`. */
  function AsUnsigned(a: Arg, long: bool): u64 {
    if long then Bits(a) else Bits(a) % TWO32
  }

  function AsSigned(a: Arg, long: bool): int {
    if long then Signed(Bits(a), TWO64) else Signed(Bits(a) % TWO32, TWO32)
  }

  function AsChar(a: Arg): char { (Bits(a) % 256) as char }

  function AsString(a: Arg): CString {
    if a.Str? && a.text.Some? then a.text.value else "(null)"
  }

  // ----- The text of a format ----------------------------------------------

  const MAX_WIDTH: int := 4096

  datatype Directive = Directive(padZero: bool, width: nat, long: bool, pos: nat)

  predicate IsDecimal(c: char) { '0' <= c <= '9' }

  function Widen(width: nat, digit: int): (r: nat)
    requires 0 <= digit <= 9
    ensures width <= MAX_WIDTH ==> r <= MAX_WIDTH
  {
    if width > (MAX_WIDTH - digit) / 10 then MAX_WIDTH else width * 10 + digit
  }

  function ScanWidth(fmt: string, p: nat, width: nat): (r: (nat, nat))
    requires p <= |fmt|
    ensures p <= r.1 <= |fmt| && !IsDecimal(At(fmt, r.1))
    ensures width <= MAX_WIDTH ==> r.0 <= MAX_WIDTH
    decreases |fmt| - p
  {
    if IsDecimal(At(fmt, p)) then ScanWidth(fmt, p + 1, Widen(width, At(fmt, p) as int - '0' as int))
    else (width, p)
  }

  /** Flags, width and length modifier of the directive whose `%` precedes
      position `p`; `pos` is where its conversion character is. */
  function ScanDirective(fmt: string, p: nat): (d: Directive)
    requires p <= |fmt|
    ensures p <= d.pos <= |fmt| && d.width <= MAX_WIDTH
  {
    var padZero := At(fmt, p) == '0';
    var (width, q) := ScanWidth(fmt, if padZero then p + 1 else p, 0);
    if At(fmt, q) != 'l' then Directive(padZero, width, false, q)
    else if At(fmt, q + 1) != 'l' then Directive(padZero, width, true, q + 1)
    else Directive(padZero, width, true, q + 2)
  }

  predicate TakesArgument(c: char) {
    c in "csdiuxXp"
  }

  function Convert(d: Directive, c: char, a: Arg): string {
    match c
    case '%' => "%"
    case 'c' => [AsChar(a)]
    case 's' => AsString(a)
    case 'd' => IntText(AsSigned(a, d.long), d.width, d.padZero)
    case 'i' => IntText(AsSigned(a, d.long), d.width, d.padZero)
    case 'u' => UintText(AsUnsigned(a, d.long), 10, false, d.width, d.padZero)
    case 'x' => UintText(AsUnsigned(a, d.long), 16, false, d.width, d.padZero)
    case 'X' => UintText(AsUnsigned(a, d.long), 16, true, d.width, d.padZero)
    case 'p' => "0x" + UintText(Bits(a), 16, false, 16, true)
    case _ => ['%', c]
  }

  /** Every directive that starts at or after `p` has its conversion character. */
  predicate Complete(fmt: string, p: nat)
    requires p <= |fmt|
    decreases |fmt| - p
  {
    if p == |fmt| then true
    else if fmt[p] != '%' then Complete(fmt, p + 1)
    else
      var q := ScanDirective(fmt, p + 1).pos;
      q < |fmt| && Complete(fmt, q + 1)
  }

  /** What the format prints from position `p` on. */
  function Text(fmt: string, p: nat, args: seq<Arg>): string
    requires p <= |fmt| && Complete(fmt, p)
    decreases |fmt| - p
  {
    if p == |fmt| then ""
    else if fmt[p] != '%' then [fmt[p]] + Text(fmt, p + 1, args)
    else
      var d := ScanDirective(fmt, p + 1);
      var c := fmt[d.pos];
      Convert(d, c, Head(args))
        + Text(fmt, d.pos + 1, if TakesArgument(c) then Tail(args) else args)
  }

  // ----- Blocks ------------------------------------------------------------

  function Flatten(blocks: seq<string>): string {
    if blocks == [] then "" else Flatten(blocks[..|blocks| - 1]) + blocks[|blocks| - 1]
  }

  lemma {:induction false} FlattenSnoc(blocks: seq<string>, b: string)
    ensures Flatten(blocks + [b]) == Flatten(blocks) + b
    ensures forall cap :: BlocksFit(blocks, cap) && b != "" && (cap > 0 ==> |b| <= cap) ==> BlocksFit(blocks + [b], cap)
  {
    assert (blocks + [b])[..|blocks|] == blocks;
  }

  /** No block is empty, and none is longer than the chunk, if there is one. */
  predicate BlocksFit(blocks: seq<string>, cap: nat) {
    blocks == [] ||
    var b := blocks[|blocks| - 1];
    b != "" && (cap > 0 ==> |b| <= cap) && BlocksFit(blocks[..|blocks| - 1], cap)
  }

  function Least(a: nat, b: nat): nat { if a <= b then a else b }

  // ----- The output buffer -------------------------------------------------

  /** outbuf_t. With `emitting` the buffer collects a chunk and hands it to the
      callback when full; otherwise it stores the text, as far as it fits with
      a terminator. A null buffer is a capacity of zero. `blocks` is what the
      callback received and `stream` everything written so far. */
  class OutBuf {
    const buf: array<char>
    const base: nat
    const cap: nat
    const emitting: bool
    var len: nat
    var used: nat
    var blocks: seq<string>
    ghost var stream: string

    ghost predicate Stored()
      reads this, buf
    {
      && used == 0 && blocks == []
      && (cap > 0 ==> var k := Least(|stream|, cap - 1);
                      base + cap <= buf.Length && buf[base..base + k] == stream[..k])
    }

    ghost predicate Chunked()
      reads this, buf
    {
      && base + cap <= buf.Length
      && used <= cap
      && Flatten(blocks) + buf[base..base + used] == stream
      && BlocksFit(blocks, cap)
    }

    ghost predicate Valid()
      reads this, buf
    {
      && base + cap <= buf.Length
      && cap <= MAX64
      && len == Least(|stream|, MAX64)
      && if emitting then Chunked() else Stored()
    }

    /** Nothing outside the buffer's own window changes. */
    twostate predicate OutsideKept()
      reads buf
    {
      base + cap <= buf.Length ==> buf[..base] == old(buf[..base]) && buf[base + cap..] == old(buf[base + cap..])
    }

    constructor (buf: array<char>, base: nat, cap: nat, emitting: bool)
      requires base + cap <= buf.Length && cap <= MAX64
      ensures this.buf == buf && this.base == base && this.cap == cap && this.emitting == emitting
      ensures Valid() && stream == "" && blocks == []
    {
      this.buf, this.base, this.cap, this.emitting := buf, base, cap, emitting;
      len, used, blocks := 0, 0, [];
      stream := "";
      new;
      assert buf[base..base] == "";
    }

    /** out_flush. */
    method Flush()
      requires Valid()
      modifies this`used, this`blocks
      ensures Valid() && (emitting ==> used == 0 && Flatten(blocks) == stream)
      ensures !emitting ==> blocks == old(blocks)
    {
      if !emitting || used == 0 {
        if emitting { assert buf[base..base + used] == ""; }
        return;
      }
      FlushChunk();
    }

    /** The callback receives the chunk and the chunk is empty again. */
    method FlushChunk()
      requires Chunked() && used > 0
      modifies this`used, this`blocks
      ensures Chunked() && used == 0
    {
      FlattenSnoc(blocks, buf[base..base + used]);
      blocks := blocks + [buf[base..base + used]];
      used := 0;
      assert buf[base..base + used] == "";
    }

    method AddLength(n: nat)
      requires len <= MAX64 && n <= MAX64
      modifies this`len
      ensures len == Least(old(len) + n, MAX64)
    {
      if len <= MAX64 - n { len := len + n; } else { len := MAX64; }
    }

    /** The memcpy of both modes: `s` goes to offset `at` of the buffer. */
    method Copy(at: nat, s: string)
      requires base + at + |s| <= buf.Length
      modifies buf
      ensures buf[base..base + at + |s|] == old(buf[base..base + at]) + s
      ensures at + |s| <= cap && base + cap <= buf.Length ==> OutsideKept()
    {
      forall i | 0 <= i < |s| { buf[base + at + i] := s[i]; }
    }

    /** out_emit_bytes when text is stored. */
    method StoreBytes(s: string)
      requires Valid() && !emitting && |s| <= MAX64
      modifies this`len, this`stream, buf
      ensures Valid() && stream == old(stream) + s
      ensures OutsideKept()
    {
      if cap > 0 { StoreText(s); }
      AddLength(|s|);
      stream := stream + s;
    }

    /** The part of `s` that still fits goes behind the stored text. */
    method StoreText(s: string)
      requires Valid() && !emitting && 0 < cap
      modifies buf
      ensures var k := Least(|stream + s|, cap - 1); buf[base..base + k] == (stream + s)[..k]
      ensures OutsideKept()
    {
      StoredGrows(stream, s, cap - 1);
      if len < cap - 1 {
        var room := cap - 1 - len;
        var take := if |s| < room then |s| else room;
        assert len == |stream| && stream[..len] == stream;
        Copy(len, s[..take]);
      }
    }

    method AddToChunk(s: string)
      requires Chunked() && used + |s| <= cap
      modifies this`used, this`stream, buf
      ensures Chunked() && stream == old(stream) + s && used == old(used) + |s| && OutsideKept()
    {
      Regroup(Flatten(blocks), buf[base..base + used], s);
      Copy(used, s);
      used := used + |s|;
      stream := stream + s;
    }

    /** One turn of the chunk loop of out_emit_bytes: moves as much of `s` as
        the chunk takes. */
    method FillChunk(s: string) returns (take: nat)
      requires emitting && cap > 0 && s != "" && Chunked()
      modifies this`used, this`blocks, this`stream, buf
      ensures 0 < take <= |s|
      ensures Chunked() && stream == old(stream) + s[..take] && OutsideKept()
    {
      var avail := cap - used;
      if avail == 0 {
        FlushChunk();
        avail := cap;
      }
      take := |s|;
      if take > avail { take := avail; }
      AddToChunk(s[..take]);
      if used == cap { FlushChunk(); }
    }

    /** out_emit_bytes. */
    method EmitBytes(s: CString)
      requires Valid()
      modifies this, buf
      ensures Valid() && stream == old(stream) + s && OutsideKept()
    {
      if s == "" { return; }
      if !emitting {
        StoreBytes(s);
        return;
      }
      if cap == 0 {
        FlattenSnoc(blocks, s);
        assert buf[base..base + used] == "";
        blocks := blocks + [s];
        stream := stream + s;
        AddLength(|s|);
        return;
      }
      EmitChunks(s);
      AddLength(|s|);
    }

    /** The chunk loop of out_emit_bytes. */
    method EmitChunks(s: string)
      requires emitting && cap > 0 && Chunked()
      modifies this`used, this`blocks, this`stream, buf
      ensures Chunked() && stream == old(stream) + s && OutsideKept()
    {
      ghost var before := stream;
      var off := 0;
      assert s[..0] == "" && before + "" == before;
      while off < |s|
        invariant off <= |s|
        invariant Chunked() && stream == before + s[..off] && OutsideKept()
      {
        var take := FillChunk(s[off..]);
        assert before + s[..off + take] == before + s[..off] + s[off..][..take];
        off := off + take;
      }
      assert s[..off] == s;
    }

    method OutRepeat(c: char, count: int)
      requires Valid()
      modifies this, buf
      ensures Valid() && stream == old(stream) + Repeat(c, count) && OutsideKept()
    {
      var left, done := count, 0;
      while left > 0
        invariant Valid() && OutsideKept()
        invariant left + done == count && (left >= 0 || done == 0)
        invariant stream == old(stream) + Repeat(c, done)
        decreases left
      {
        EmitBytes([c]);
        left, done := left - 1, done + 1;
      }
      assert count <= 0 ==> Repeat(c, done) == Repeat(c, count) == "";
    }

    /** out_uint: digits are produced backwards into a fixed array, which is
        proved large enough for every word in every base. */
    method OutUint(v0: u64, radix: nat, upper: bool, width: int, padZero: bool)
      requires Valid() && 2 <= radix <= 16
      modifies this, buf
      ensures Valid() && stream == old(stream) + UintText(v0, radix, upper, width, padZero) && OutsideKept()
    {
      var digits := new char[65];
      var n: nat := WriteDigits(v0, radix, upper, digits);
      ghost var text := Digits(v0, radix, upper);
      var pad := width - n;
      OutRepeat(if padZero then '0' else ' ', pad);
      ghost var padded := stream;
      EmitReversed(digits, n, text);
      Regroup(old(stream), Repeat(if padZero then '0' else ' ', pad), text);
    }

    /** The digits, last one first. */
    method EmitReversed(digits: array<char>, count: nat, ghost text: string)
      requires Valid() && count == |text| <= digits.Length && digits != buf
      requires forall i :: 0 <= i < |text| ==> digits[i] == text[|text| - 1 - i]
      modifies this, buf
      ensures Valid() && stream == old(stream) + text && OutsideKept()
    {
      var n := count;
      ghost var before := stream;
      assert text[..0] == "" && before + "" == before;
      while n > 0
        invariant 0 <= n <= |text|
        invariant Valid() && OutsideKept()
        invariant stream == before + text[..|text| - n]
      {
        n := n - 1;
        assert digits[n] == text[|text| - 1 - n];
        EmitBytes([digits[n]]);
        OneMore(before, text, |text| - n - 1);
      }
      assert text[..|text|] == text;
    }

    method OutInt(v: int, width: int, padZero: bool)
      requires Valid() && -0x8000_0000_0000_0000 <= v <= 0x7fff_ffff_ffff_ffff
      modifies this, buf
      ensures Valid() && stream == old(stream) + IntText(v, width, padZero) && OutsideKept()
    {
      if v < 0 {
        EmitBytes("-");
        var u: u64 := -(v + 1) + 1;
        var w := if width > 0 then width - 1 else 0;
        ghost var t := UintText(u, 10, false, w, padZero);
        assert IntText(v, width, padZero) == "-" + t;
        OutUint(u, 10, false, w, padZero);
        Regroup(old(stream), "-", t);
      } else {
        OutUint(v, 10, false, width, padZero);
      }
    }

    /** The switch of kvformat. */
    method OutDirective(d: Directive, c: char, a: Arg)
      requires Valid()
      modifies this, buf
      ensures Valid() && stream == old(stream) + Convert(d, c, a) && OutsideKept()
    {
      if c == '%' {
        EmitBytes("%");
      } else if c == 'c' {
        EmitBytes([AsChar(a)]);
      } else if c == 's' {
        EmitBytes(AsString(a));
      } else if c == 'd' || c == 'i' {
        OutInt(AsSigned(a, d.long), d.width, d.padZero);
      } else if c == 'u' {
        OutUint(AsUnsigned(a, d.long), 10, false, d.width, d.padZero);
      } else if c == 'x' || c == 'X' {
        OutUint(AsUnsigned(a, d.long), 16, c == 'X', d.width, d.padZero);
      } else if c == 'p' {
        OutPointer(Bits(a));
      } else {
        OutUnknown(c);
      }
    }

    method OutPointer(v: u64)
      requires Valid()
      modifies this, buf
      ensures Valid() && stream == old(stream) + ("0x" + UintText(v, 16, false, 16, true)) && OutsideKept()
    {
      EmitBytes("0x");
      OutUint(v, 16, false, 16, true);
      Regroup(old(stream), "0x", UintText(v, 16, false, 16, true));
    }

    method OutUnknown(c: char)
      requires Valid()
      modifies this, buf
      ensures Valid() && stream == old(stream) + ['%', c] && OutsideKept()
    {
      EmitBytes("%");
      EmitBytes([c]);
      Regroup(old(stream), "%", [c]);
    }

    /** One turn of the loop of kvformat. */
    method FormatStep(fmt: string, p: nat, args: seq<Arg>) returns (q: nat, rest: seq<Arg>, overrun: bool)
      requires Valid() && p < |fmt|
      modifies this, buf
      ensures Valid() && OutsideKept()
      ensures overrun ==> !Complete(fmt, p)
      ensures !overrun ==> p < q <= |fmt| && Complete(fmt, p) == Complete(fmt, q)
      ensures !overrun && Complete(fmt, p) ==> stream + Text(fmt, q, rest) == old(stream) + Text(fmt, p, args)
    {
      overrun := false;
      if fmt[p] != '%' {
        EmitBytes([fmt[p]]);
        q, rest := p + 1, args;
        if Complete(fmt, p) { Regroup(old(stream), [fmt[p]], Text(fmt, q, rest)); }
        return;
      }
      var d := ReadDirective(fmt, p + 1);
      q, rest := d.pos + 1, args;
      if d.pos == |fmt| {
        EmitBytes("%");
        overrun := true;
        return;
      }
      var c := fmt[d.pos];
      OutDirective(d, c, Head(args));
      if TakesArgument(c) { rest := Tail(args); }
      if Complete(fmt, p) { Regroup(old(stream), Convert(d, c, Head(args)), Text(fmt, q, rest)); }
    }

    /** kvformat. A format that ends inside a directive makes the source step
        over the terminator and read on; `overrun` reports that and nothing
        after it is modelled. */
    method Format(fmt: string, args: seq<Arg>) returns (n: int, overrun: bool)
      requires Valid()
      modifies this, buf
      ensures Valid() && OutsideKept()
      ensures overrun <==> !Complete(fmt, 0)
      ensures !overrun ==> stream == old(stream) + Text(fmt, 0, args)
      ensures n == Min(len, INT_MAX)
    {
      var p, rest := 0, args;
      overrun := false;
      while p < |fmt| && !overrun
        invariant p <= |fmt|
        invariant Valid() && OutsideKept()
        invariant overrun ==> !Complete(fmt, 0)
        invariant !overrun ==> Complete(fmt, p) == Complete(fmt, 0)
        invariant !overrun && Complete(fmt, 0) ==> stream + Text(fmt, p, rest) == old(stream) + Text(fmt, 0, args)
        decreases !overrun, |fmt| - p
      {
        var q;
        q, rest, overrun := FormatStep(fmt, p, rest);
        if !overrun { p := q; }
      }
      n := Min(len, INT_MAX);
    }
  }

  /** The do-while loop of out_uint. */
  method WriteDigits(v0: u64, base: nat, upper: bool, digits: array<char>) returns (n: nat)
    requires 2 <= base <= 16 && digits.Length == 65
    modifies digits
    ensures n == |Digits(v0, base, upper)| <= 64
    ensures forall i :: 0 <= i < n ==> digits[i] == Digits(v0, base, upper)[n - 1 - i]
  {
    ghost var text := Digits(v0, base, upper);
    DigitsFit(v0, base, upper);
    var v: nat := v0;
    n := 0;
    assert text[..|text|] == text;
    while true
      invariant n < |text| && Digits(v, base, upper) == text[..|text| - n]
      invariant Backwards(digits[..n], text)
      decreases v
    {
      LastDigit(v, base, upper, text, |text| - n);
      OneDigitMore(digits[..n], text, DigitChar(v % base, upper));
      digits[n] := DigitChar(v % base, upper);
      assert digits[..n + 1] == digits[..n] + [digits[n]];
      n := n + 1;
      if v < base { break; }
      DivShrinks(v, base);
      v := v / base;
    }
  }

  /** The last digits of a text, last one first. */
  predicate Backwards(d: string, text: string) {
    |d| <= |text| && forall i :: 0 <= i < |d| ==> d[i] == text[|text| - 1 - i]
  }

  lemma {:induction false} OneDigitMore(d: string, text: string, c: char)
    requires Backwards(d, text) && |d| < |text| && c == text[|text| - 1 - |d|]
    ensures Backwards(d + [c], text)
  {}

  /** The last digit is the remainder, and the others are those of the quotient. */
  lemma {:induction false} LastDigit(v: nat, base: nat, upper: bool, text: string, k: nat)
    requires 2 <= base <= 16 && 0 < k <= |text| && Digits(v, base, upper) == text[..k]
    ensures text[k - 1] == DigitChar(v % base, upper)
    ensures v >= base ==> 1 < k && Digits(v / base, base, upper) == text[..k - 1]
    ensures v < base ==> k == 1
  {
    var d := Digits(v, base, upper);
    assert text[k - 1] == d[k - 1] && text[..k - 1] == d[..k - 1];
    if v < base { Arith.DivUnique(v, base, 0, v); }
  }

  method ReadDirective(fmt: string, p0: nat) returns (d: Directive)
    requires p0 <= |fmt|
    ensures d == ScanDirective(fmt, p0)
  {
    var p, padZero := p0, false;
    var width: nat := 0;
    if At(fmt, p) == '0' { padZero := true; p := p + 1; }
    ghost var start := p;
    while IsDecimal(At(fmt, p))
      invariant p <= |fmt|
      invariant ScanWidth(fmt, start, 0) == ScanWidth(fmt, p, width)
      decreases |fmt| - p
    {
      var digit := At(fmt, p) as int - '0' as int;
      if width > (MAX_WIDTH - digit) / 10 { width := MAX_WIDTH; } else { width := width * 10 + digit; }
      p := p + 1;
    }
    var long := false;
    if At(fmt, p) == 'l' {
      long := true;
      p := p + 1;
      if At(fmt, p) == 'l' { p := p + 1; }
    }
    d := Directive(padZero, width, long, p);
  }

  lemma {:induction false} Regroup(a: string, b: string, c: string)
    ensures a + (b + c) == (a + b) + c
  {}

  lemma {:induction false} OneMore(before: string, text: string, i: nat)
    requires i < |text|
    ensures before + text[..i] + [text[i]] == before + text[..i + 1]
  {}

  /** What a store of size `k` holds after `s` follows `text`. */
  lemma {:induction false} StoredGrows(text: string, s: string, k: nat)
    ensures |text| < k ==> var take := Least(|s|, k - |text|);
                           (text + s)[..Least(|text + s|, k)] == text + s[..take]
    ensures |text| >= k ==> (text + s)[..k] == text[..k]
  {}

  // ----- Entry points ------------------------------------------------------

  /** kvsnprintf: the first `cap - 1` characters of the text and a terminator,
      and the untruncated length as far as an `int` holds it. */
  method Snprintf(buf: array<char>, base: nat, cap: nat, fmt: string, args: seq<Arg>)
    returns (n: int, overrun: bool)
    requires base + cap <= buf.Length && cap <= MAX64
    modifies buf
    ensures buf[..base] == old(buf[..base]) && buf[base + cap..] == old(buf[base + cap..])
    ensures overrun <==> !Complete(fmt, 0)
    ensures !overrun ==> n == Min(|Text(fmt, 0, args)|, INT_MAX)
    ensures !overrun && cap > 0 ==>
              var t := Text(fmt, 0, args);
              var k := Least(|t|, cap - 1);
              buf[base..base + k] == t[..k] && buf[base + k] == '\0'
  {
    var out := new OutBuf(buf, base, cap, false);
    n, overrun := out.Format(fmt, args);
    if cap > 0 {
      var pos := if out.len < cap then out.len else cap - 1;
      ghost var kept := buf[base..base + pos];
      buf[base + pos] := '\0';
      assert buf[base..base + pos] == kept;
      if !overrun {
        ghost var t := Text(fmt, 0, args);
        assert out.stream == "" + t == t;
        assert pos == Least(|t|, cap - 1);
      }
    }
  }

  /** kvprintf_emit_buffered: the blocks handed to the callback concatenate to
      the text, whatever the chunk size. */
  method EmitBuffered(chunk: array<char>, cap: nat, fmt: string, args: seq<Arg>)
    returns (n: int, blocks: seq<string>, overrun: bool)
    requires cap <= chunk.Length && cap <= MAX64
    modifies chunk
    ensures overrun <==> !Complete(fmt, 0)
    ensures !overrun ==> Flatten(blocks) == Text(fmt, 0, args) && n == Min(|Text(fmt, 0, args)|, INT_MAX)
    ensures BlocksFit(blocks, cap)
  {
    var out := new OutBuf(chunk, 0, cap, true);
    n, overrun := out.Format(fmt, args);
    assert !overrun ==> out.stream == Text(fmt, 0, args);
    out.Flush();
    blocks := out.blocks;
  }

  // ----- Appending to a bounded buffer -------------------------------------

  /** `u` followed by as much of `t` as fits in `k` characters. */
  function BoundedAppend(u: string, t: string, k: nat): (r: string)
    requires |u| <= k
    ensures |r| <= k
  {
    u + t[..Least(|t|, k - |u|)]
  }

  /** rabbitbone_buf_out_t. */
  class BufOut {
    const buf: array<char>
    const cap: nat
    var used: nat

    ghost predicate Valid() {
      cap <= buf.Length && cap <= MAX64
    }

    /** The characters there is room for. */
    function Room(): nat { if cap == 0 then 0 else cap - 1 }

    /** The text held, with `used` clamped as every operation clamps it first. */
    ghost function Contents(): (r: string)
      requires Valid()
      reads this, buf
      ensures |r| <= Room()
    {
      buf[..Least(used, Room())]
    }

    ghost predicate Terminated()
      requires Valid()
      reads this, buf
    {
      cap > 0 ==> used < cap && buf[used] == '\0'
    }

    constructor (buf: array<char>, cap: nat)
      requires cap <= buf.Length && cap <= MAX64
      modifies buf
      ensures this.buf == buf && this.cap == cap
      ensures Valid() && Contents() == "" && Terminated()
      ensures cap == 0 ==> buf[..] == old(buf[..])
    {
      this.buf, this.cap, used := buf, cap, 0;
      new;
      if cap != 0 { buf[0] := '\0'; }
    }

    method AppendRaw(s: string)
      requires Valid()
      modifies this, buf
      ensures Contents() == BoundedAppend(old(Contents()), s, Room())
      ensures Terminated()
    {
      if cap == 0 { return; }
      if used >= cap { used := cap - 1; }
      ghost var before := buf[..used];
      var i := 0;
      while i < |s| && used < cap - 1
        invariant 0 <= i <= |s| && used <= cap - 1 && used == |before| + i
        invariant buf[..used] == before + s[..i]
      {
        buf[used] := s[i];
        used := used + 1;
        i := i + 1;
        assert buf[..used] == buf[..used - 1] + [s[i - 1]];
        assert s[..i] == s[..i - 1] + [s[i - 1]];
      }
      ghost var kept := buf[..used];
      buf[if used < cap then used else cap - 1] := '\0';
      assert buf[..used] == kept;
    }

    method VAppendf(fmt: string, args: seq<Arg>) returns (overrun: bool)
      requires Valid()
      modifies this, buf
      ensures overrun <==> cap > 0 && !Complete(fmt, 0)
      ensures Complete(fmt, 0) ==>
                var t := Text(fmt, 0, args);
                Contents() == BoundedAppend(old(Contents()), t[..Least(|t|, INT_MAX)], Room()) && Terminated()
      ensures cap == 0 ==> buf[..] == old(buf[..])
    {
      if cap == 0 { return false; }
      if used >= cap { used := cap - 1; }
      overrun := FormatAtEnd(fmt, args);
    }

    /** A formatted append behind the text held. */
    method FormatAtEnd(fmt: string, args: seq<Arg>) returns (overrun: bool)
      requires used < cap <= buf.Length && cap <= MAX64
      modifies this`used, buf
      ensures overrun <==> !Complete(fmt, 0)
      ensures !overrun ==> used < cap && buf[used] == '\0'
      ensures !overrun ==>
                var t := Text(fmt, 0, args);
                buf[..used] == BoundedAppend(old(buf[..used]), t[..Least(|t|, INT_MAX)], cap - 1)
    {
      var rem := cap - used;
      var wrote;
      ghost var before := buf[..used];
      wrote, overrun := Snprintf(buf, used, rem, fmt, args);
      if overrun { return; }
      assert buf[..used] == before;
      Advance(wrote, Text(fmt, 0, args));
    }

    /** The bookkeeping after a formatted append. */
    method Advance(wrote: int, ghost t: string)
      requires used < cap <= buf.Length && wrote == Min(|t|, INT_MAX)
      requires var k := Least(|t|, cap - used - 1); buf[used..used + k] == t[..k] && buf[used + k] == '\0'
      modifies this`used, buf
      ensures used < cap && buf[used] == '\0'
      ensures buf[..used] == BoundedAppend(old(buf[..used]), t[..Least(|t|, INT_MAX)], cap - 1)
    {
      if wrote <= 0 {
        assert t == "" && BoundedAppend(buf[..used], t[..0], cap - 1) == buf[..used];
        return;
      }
      var add := wrote;
      var room := cap - used - 1;
      if add > room { add := room; }
      JoinSlices(buf[..], buf[..used], t, Least(|t|, room), add);
      CutTwice(t, INT_MAX, add);
      used := used + add;
      Terminate();
    }

    method Terminate()
      requires used < cap <= buf.Length
      modifies buf
      ensures buf[..used] == old(buf[..used]) && buf[used] == '\0'
    {
      buf[if used < cap then used else cap - 1] := '\0';
    }
  }

  lemma {:induction false} JoinSlices(b: string, before: string, t: string, k: nat, add: nat)
    requires |before| + k <= |b| && add <= k <= |t|
    requires b[..|before|] == before && b[|before|..|before| + k] == t[..k]
    ensures b[..|before| + add] == before + t[..add]
  {
    assert t[..add] == t[..k][..add] == b[|before|..|before| + add];
  }

  lemma {:induction false} CutTwice(t: string, k: nat, n: nat)
    requires n <= Least(|t|, k)
    ensures t[..Least(|t|, k)][..n] == t[..n]
  {}

  /** One formatted append adds everything that fits if and only if the text or
      the free room is within an `int`. */
  lemma {:induction false} FormattedAppendExact(u: string, t: string, k: nat)
    requires |u| <= k
    ensures BoundedAppend(u, t[..Least(|t|, INT_MAX)], k) == BoundedAppend(u, t, k)
            <==> |t| <= INT_MAX || k - |u| <= INT_MAX
  {
    var cut := t[..Least(|t|, INT_MAX)];
    if |t| <= INT_MAX {
      assert cut == t;
    } else if k - |u| <= INT_MAX {
      assert cut[..k - |u|] == t[..k - |u|];
    } else {
      assert |BoundedAppend(u, cut, k)| == |u| + INT_MAX < |BoundedAppend(u, t, k)|;
    }
  }

  /** A text appended as it is, or through a format. */
  datatype Piece = Raw(text: string) | Formatted(text: string)

  /** What an append is given to store: a formatted text is cut to an `int`. */
  function Given(p: Piece): string {
    if p.Raw? then p.text else p.text[..Least(|p.text|, INT_MAX)]
  }

  function Givens(ps: seq<Piece>): (r: seq<string>)
    ensures |r| == |ps| && forall i :: 0 <= i < |ps| ==> r[i] == Given(ps[i])
  {
    seq(|ps|, i requires 0 <= i < |ps| => Given(ps[i]))
  }

  function Texts(ps: seq<Piece>): (r: seq<string>)
    ensures |r| == |ps| && forall i :: 0 <= i < |ps| ==> r[i] == ps[i].text
  {
    seq(|ps|, i requires 0 <= i < |ps| => ps[i].text)
  }

  /** A run of appends to an empty buffer of `k` characters. */
  function AppendAll(ps: seq<Piece>, k: nat): (r: string)
    ensures |r| <= k
  {
    if ps == [] then ""
    else BoundedAppend(AppendAll(ps[..|ps| - 1], k), Given(ps[|ps| - 1]), k)
  }

  /** The first `k` characters. */
  function Front(t: string, k: nat): string { t[..Least(|t|, k)] }

  /** Any run of raw and formatted appends leaves the first characters of what
      the appends were given; that is the first characters of the whole text when
      the buffer or every formatted text is within an `int`. */
  lemma {:induction false} AppendsKeepPrefix(ps: seq<Piece>, k: nat)
    ensures AppendAll(ps, k) == Front(Flatten(Givens(ps)), k)
    ensures k <= INT_MAX || (forall i :: 0 <= i < |ps| && ps[i].Formatted? ==> |ps[i].text| <= INT_MAX)
            ==> AppendAll(ps, k) == Front(Flatten(Texts(ps)), k)
  {
    GivensKeepPrefix(ps, k);
    if k <= INT_MAX || (forall i :: 0 <= i < |ps| && ps[i].Formatted? ==> |ps[i].text| <= INT_MAX) {
      TextsKeepPrefix(ps, k);
    }
  }

  lemma {:induction false} FrontGrows(u: string, t: string, k: nat)
    ensures BoundedAppend(Front(u, k), t, k) == Front(u + t, k)
  {}

  lemma {:induction false} GivensKeepPrefix(ps: seq<Piece>, k: nat)
    ensures AppendAll(ps, k) == Front(Flatten(Givens(ps)), k)
  {
    if ps != [] {
      var init, last := ps[..|ps| - 1], ps[|ps| - 1];
      GivensKeepPrefix(init, k);
      assert Givens(ps)[..|init|] == Givens(init);
      FrontGrows(Flatten(Givens(init)), Given(last), k);
    }
  }

  lemma {:induction false} TextsKeepPrefix(ps: seq<Piece>, k: nat)
    requires k <= INT_MAX || (forall i :: 0 <= i < |ps| && ps[i].Formatted? ==> |ps[i].text| <= INT_MAX)
    ensures AppendAll(ps, k) == Front(Flatten(Texts(ps)), k)
  {
    if ps != [] {
      var init, last := ps[..|ps| - 1], ps[|ps| - 1];
      TextsKeepPrefix(init, k);
      assert Texts(ps)[..|init|] == Texts(init);
      FormattedAppendExact(AppendAll(init, k), last.text, k);
      FrontGrows(Flatten(Texts(init)), last.text, k);
    }
  }

  // ----- Formats that end inside a directive -------------------------------

  /** The rest of a directive that has no conversion character: digits, then at
      most two length modifiers. */
  ghost predicate Unfinished(t: string) {
    exists n: nat :: UnfinishedAfter(t, n)
  }

  predicate UnfinishedAfter(t: string, n: nat) {
    n <= |t| && AllDecimal(t[..n]) && (t[n..] == "" || t[n..] == "l" || t[n..] == "ll")
  }

  predicate AllDecimal(t: string) {
    forall i :: 0 <= i < |t| ==> IsDecimal(t[i])
  }

  lemma {:induction false} ScanWidthEnds(s: string, p: nat, w: nat, e: nat)
    requires p <= e <= |s| && AllDecimal(s[p..e]) && !IsDecimal(At(s, e))
    ensures ScanWidth(s, p, w).1 == e
    decreases e - p
  {
    if p < e {
      assert s[p..e][0] == s[p] && s[p..e][1..] == s[p + 1..e];
      ScanWidthEnds(s, p + 1, Widen(w, s[p] as int - '0' as int), e);
    }
  }

  lemma {:induction false} ScanWidthDigits(s: string, p: nat, w: nat)
    requires p <= |s|
    ensures AllDecimal(s[p..ScanWidth(s, p, w).1])
    decreases |s| - p
  {
    if IsDecimal(At(s, p)) {
      var next := Widen(w, s[p] as int - '0' as int);
      ScanWidthDigits(s, p + 1, next);
      assert s[p..ScanWidth(s, p, w).1] == [s[p]] + s[p + 1..ScanWidth(s, p + 1, next).1];
    }
  }

  lemma {:induction false} ScanEndsIff(s: string, p: nat)
    requires p <= |s|
    ensures ScanDirective(s, p).pos == |s| <==> Unfinished(s[p..])
  {
    if ScanDirective(s, p).pos == |s| { EndIsUnfinished(s, p); }
    if Unfinished(s[p..]) { UnfinishedEnds(s, p); }
  }

  lemma {:induction false} EndIsUnfinished(s: string, p: nat)
    requires p <= |s| && ScanDirective(s, p).pos == |s|
    ensures Unfinished(s[p..])
  {
    var from := if At(s, p) == '0' then p + 1 else p;
    var e := ScanWidth(s, from, 0).1;
    ScanWidthDigits(s, from, 0);
    DigitsThenModifiers(s, p, from, e);
  }

  lemma {:induction false} DigitsThenModifiers(s: string, p: nat, from: nat, e: nat)
    requires p <= from <= e <= |s| && from <= p + 1 && (from == p + 1 ==> s[p] == '0') && AllDecimal(s[from..e])
    requires e == |s| || (s[e] == 'l' && (e + 1 == |s| || (s[e + 1] == 'l' && e + 2 == |s|)))
    ensures Unfinished(s[p..])
  {
    var t, n := s[p..], e - p;
    assert t[..n] == s[p..from] + s[from..e];
    assert AllDecimal(t[..n]);
    Modifiers(s, e);
    assert t[n..] == s[e..];
    assert UnfinishedAfter(t, n);
  }

  lemma {:induction false} Modifiers(s: string, e: nat)
    requires e <= |s| && (e == |s| || (s[e] == 'l' && (e + 1 == |s| || (s[e + 1] == 'l' && e + 2 == |s|))))
    ensures s[e..] == "" || s[e..] == "l" || s[e..] == "ll"
  {
    if e == |s| {
      assert s[e..] == "";
    } else if e + 1 == |s| {
      assert s[e..] == "l";
    } else {
      assert s[e..] == "ll";
    }
  }

  lemma {:induction false} UnfinishedEnds(s: string, p: nat)
    requires p <= |s| && Unfinished(s[p..])
    ensures ScanDirective(s, p).pos == |s|
  {
    var t := s[p..];
    var n: nat :| UnfinishedAfter(t, n);
    UnfinishedEndsAt(s, p, n);
  }

  lemma {:induction false} UnfinishedEndsAt(s: string, p: nat, n: nat)
    requires p <= |s| && UnfinishedAfter(s[p..], n)
    ensures ScanDirective(s, p).pos == |s|
  {
    AfterDigits(s, p, n);
    assert s[p..p + n] == s[p..][..n];
    ScanEndsAt(s, p, p + n);
  }

  lemma {:induction false} ScanEndsAt(s: string, p: nat, e: nat)
    requires p <= e <= |s| && AllDecimal(s[p..e]) && !IsDecimal(At(s, e))
    requires At(s, e) == 'l' <==> e < |s|
    requires At(s, e) == 'l' ==> |s| <= e + 2 && (At(s, e + 1) == 'l' <==> e + 2 == |s|)
    ensures ScanDirective(s, p).pos == |s|
  {
    if At(s, p) == '0' {
      assert s[p..e][1..] == s[p + 1..e];
      ScanWidthEnds(s, p + 1, 0, e);
    } else {
      ScanWidthEnds(s, p, 0, e);
    }
  }

  lemma {:induction false} AfterDigits(s: string, p: nat, n: nat)
    requires p + n <= |s|
    requires s[p..][n..] == "" || s[p..][n..] == "l" || s[p..][n..] == "ll"
    ensures !IsDecimal(At(s, p + n)) && s[p + n..] == s[p..][n..]
    ensures |s| <= p + n + 2 && (At(s, p + n) == 'l' <==> p + n < |s|)
    ensures At(s, p + n) == 'l' ==> (At(s, p + n + 1) == 'l' <==> p + n + 2 == |s|)
  {
    assert s[p + n..] == s[p..][n..];
    if p + n < |s| { assert s[p + n] == s[p + n..][0]; }
    if p + n + 1 < |s| { assert s[p + n + 1] == s[p + n..][1]; }
  }

  /** A complete front part is scanned without regard to what follows it. */
  lemma {:induction false} CompleteConcat(a: string, b: string, p: nat)
    requires p <= |a| && Complete(a, p)
    ensures Complete(a + b, p) <==> Complete(a + b, |a|)
    decreases |a| - p
  {
    if p < |a| {
      if a[p] != '%' {
        CompleteConcat(a, b, p + 1);
      } else {
        ScanIgnoresSuffix(a, b, p + 1);
        CompleteConcat(a, b, ScanDirective(a, p + 1).pos + 1);
      }
    }
  }

  /** A format is read past its end if and only if it is a complete format
      followed by an unfinished directive. */
  ghost predicate CutOff(fmt: string, p: nat) {
    p < |fmt| && fmt[p] == '%' && Complete(fmt[..p], 0) && Unfinished(fmt[p + 1..])
  }

  lemma {:induction false} IncompleteIff(fmt: string)
    ensures !Complete(fmt, 0) <==> exists p: nat :: CutOff(fmt, p)
  {
    if p: nat :| CutOff(fmt, p) {
      assert fmt[..p] + fmt[p..] == fmt;
      CompleteConcat(fmt[..p], fmt[p..], 0);
      ScanEndsIff(fmt, p + 1);
    }
    if !Complete(fmt, 0) {
      assert fmt[..0] == "";
      var p := FindCut(fmt, 0);
    }
  }

  lemma {:induction false} FindCut(fmt: string, q: nat) returns (p: nat)
    requires q <= |fmt| && !Complete(fmt, q) && Complete(fmt[..q], 0)
    ensures CutOff(fmt, p)
    decreases |fmt| - q
  {
    var d := if fmt[q] == '%' then ScanDirective(fmt, q + 1).pos else q;
    if d == |fmt| {
      p := q;
      ScanEndsIff(fmt, q + 1);
    } else {
      LongerFront(fmt, q, d + 1);
      p := FindCut(fmt, d + 1);
    }
  }

  lemma {:induction false} LongerFront(fmt: string, q: nat, e: nat)
    requires q < e <= |fmt| && Complete(fmt[..q], 0)
    requires e == (if fmt[q] == '%' then ScanDirective(fmt, q + 1).pos else q) + 1
    ensures Complete(fmt[..e], 0)
  {
    var s := fmt[..e];
    assert s == fmt[..q] + fmt[q..e];
    CompleteConcat(fmt[..q], fmt[q..e], 0);
    if fmt[q] == '%' { ScanPrefix(fmt, q + 1, e); }
  }

  lemma {:induction false} ScanWidthPrefix(s: string, p: nat, w: nat, e: nat)
    requires p <= e <= |s| && ScanWidth(s, p, w).1 < e
    ensures ScanWidth(s[..e], p, w) == ScanWidth(s, p, w)
    decreases e - p
  {
    if IsDecimal(At(s, p)) { ScanWidthPrefix(s, p + 1, Widen(w, s[p] as int - '0' as int), e); }
  }

  lemma {:induction false} ScanPrefix(s: string, p: nat, e: nat)
    requires p <= e <= |s| && ScanDirective(s, p).pos < e
    ensures ScanDirective(s[..e], p).pos == ScanDirective(s, p).pos
  {
    ScanWidthPrefix(s, if At(s, p) == '0' then p + 1 else p, 0, e);
  }

  lemma {:induction false} ScanWidthIgnoresSuffix(s: string, t: string, p: nat, w: nat)
    requires p <= |s| && ScanWidth(s, p, w).1 < |s|
    ensures ScanWidth(s + t, p, w) == ScanWidth(s, p, w)
    decreases |s| - p
  {
    if p < |s| && IsDecimal(s[p]) { ScanWidthIgnoresSuffix(s, t, p + 1, Widen(w, s[p] as int - '0' as int)); }
  }

  lemma {:induction false} ScanIgnoresSuffix(s: string, t: string, p: nat)
    requires p <= |s| && ScanDirective(s, p).pos < |s|
    ensures ScanDirective(s + t, p) == ScanDirective(s, p)
  {
    ScanWidthIgnoresSuffix(s, t, if At(s, p) == '0' then p + 1 else p, 0);
  }
}
