/** The receive ring of kernel/drivers/rabbit_eth.c (section 3.2.6 of the Intel
    8254x Software Developer's Manual) and the frame backlog of
    kernel/drivers/net.c behind it.

    Device and driver take turns in atomic steps: the device stores an arriving
    packet in the descriptor at its head unless the head has met the tail, the
    driver's poll or its interrupt handler hands finished descriptors on and
    returns them, and a reader takes a frame out of the backlog. */
module NicRx {
  import opened Ring
  import Arith

  type u8 = x: int | 0 <= x < 256
  type u16 = x: int | 0 <= x < 65536

  datatype Option<+T> = None | Some(value: T)

  const HEADER_LEN: nat := 14
  const MAX_FRAME: nat := 2048
  const BUF_SIZE: nat := 2048

  /** A packet as the device reports it: it always fits a buffer. */
  datatype Packet = Packet(data: seq<u8>, eop: bool, rxError: bool, ignoreCsum: bool, vlan: Option<u16>)

  datatype Desc = Desc(done: bool, length: nat, eop: bool, rxError: bool, ignoreCsum: bool, vlan: Option<u16>)

  datatype Meta = Meta(vlan: Option<u16>, protocol: u16, csumOk: bool)

  /** A frame with its metadata, as it waits in the backlog. */
  datatype Frame = Frame(data: seq<u8>, meta: Meta)

  /** Receive counters. */
  datatype Stats = Stats(packets: nat, bytes: nat, dropped: nat, errors: nat, truncated: nat, highWater: nat,
                         csumGood: nat, vlan: nat, interrupts: nat)

  /** The causes of an interrupt that concern reception. */
  datatype Cause = Cause(timer: bool, low: bool, overrun: bool, sequence: bool, ecc: bool)

  /** The bounded backlog: a circular array of slots. */
  datatype Backlog = Backlog(slots: seq<Frame>, head: nat, tail: nat, count: nat)

  /** Shared memory, indices and registers, backlog and counters; then history:
      packets stored by the device, descriptors processed, frames offered to the
      backlog with the verdict on each, frames read, and interrupts that reported
      a receive fault. */
  datatype State = State(
    desc: seq<Desc>,
    buf: seq<seq<u8>>,
    next: nat,
    rdt: nat,
    rdh: nat,
    csum: bool,
    log: Backlog,
    stats: Stats,
    arrived: seq<Packet>,
    processed: nat,
    offered: seq<Frame>,
    kept: seq<bool>,
    popped: seq<Frame>,
    faults: nat
  )

  // ----- Backlog -----------------------------------------------------------

  /** A device without a queue has no slots and keeps all indices at zero. */
  predicate LogShape(q: Backlog) {
    if |q.slots| == 0 then q.head == q.tail == q.count == 0
    else
      && q.head < |q.slots| && q.tail < |q.slots| && q.count <= |q.slots|
      && q.tail == (q.head + q.count) % |q.slots|
  }

  /** The waiting frames, oldest first. */
  function Contents(q: Backlog): (r: seq<Frame>)
    requires LogShape(q)
    ensures |r| == q.count
  {
    seq(q.count, i requires 0 <= i < q.count => q.slots[Place(q, i)])
  }

  /** The slot of the `i`-th waiting frame. */
  function Place(q: Backlog, i: nat): (p: nat)
    requires 0 < |q.slots|
    ensures p < |q.slots|
  {
    (q.head + i) % |q.slots|
  }

  function Push(q: Backlog, f: Frame): Backlog
    requires LogShape(q) && q.count < |q.slots|
  {
    q.(slots := q.slots[q.tail := f], tail := (q.tail + 1) % |q.slots|, count := q.count + 1)
  }

  function Pop(q: Backlog): Backlog
    requires LogShape(q) && q.count > 0
  {
    q.(head := (q.head + 1) % |q.slots|, count := q.count - 1)
  }

  /** The remainder of a sum of two in-range indices. */
  lemma {:induction false} Wraps(x: nat, n: nat)
    requires 0 < n && x < 2 * n
    ensures x % n == if x < n then x else x - n
  {
    if x < n { Arith.DivUnique(x, n, 0, x); } else { Arith.DivUnique(x, n, 1, x - n); }
  }

  lemma {:induction false} PlaceWraps(q: Backlog, i: nat)
    requires 0 < |q.slots| && q.head < |q.slots| && i <= |q.slots|
    ensures Place(q, i) == if q.head + i < |q.slots| then q.head + i else q.head + i - |q.slots|
  {
    Wraps(q.head + i, |q.slots|);
  }

  lemma {:induction false} PushAppends(q: Backlog, f: Frame)
    requires LogShape(q) && q.count < |q.slots|
    ensures LogShape(Push(q, f)) && Contents(Push(q, f)) == Contents(q) + [f]
  {
    var n, t := |q.slots|, Push(q, f);
    PlaceWraps(q, q.count);
    PlaceWraps(q, q.count + 1);
    Wraps(q.tail + 1, n);
    assert LogShape(t);
    forall i | 0 <= i < t.count ensures Contents(t)[i] == (Contents(q) + [f])[i] {
      PlaceWraps(q, i);
      assert Place(t, i) == Place(q, i);
    }
  }

  lemma {:induction false} PopRemovesFirst(q: Backlog)
    requires LogShape(q) && q.count > 0
    ensures LogShape(Pop(q))
    ensures Contents(q) == [q.slots[q.head]] + Contents(Pop(q))
  {
    var n, t := |q.slots|, Pop(q);
    PlaceWraps(q, 0);
    PlaceWraps(q, q.count);
    Wraps(q.head + 1, n);
    PlaceWraps(t, t.count);
    assert LogShape(t);
    forall i | 0 <= i < t.count ensures Contents(q)[i + 1] == Contents(t)[i] {
      PlaceWraps(t, i);
      PlaceWraps(q, i + 1);
    }
    FirstAndRest(Contents(q), q.slots[q.head], Contents(t));
  }

  lemma {:induction false} FirstAndRest(all: seq<Frame>, first: Frame, rest: seq<Frame>)
    requires |all| == |rest| + 1 && all[0] == first && forall i :: 0 <= i < |rest| ==> all[i + 1] == rest[i]
    ensures all == [first] + rest
  {
    forall i | 0 <= i < |all| ensures all[i] == ([first] + rest)[i] {
      if i > 0 { assert all[(i - 1) + 1] == rest[i - 1]; }
    }
  }

  // ----- Steps -------------------------------------------------------------

  function Zeros(n: nat): (z: seq<u8>)
    ensures |z| == n
  {
    seq(n, _ => 0)
  }

  const NO_STATS: Stats := Stats(0, 0, 0, 0, 0, 0, 0, 0, 0)
  const IDLE: Desc := Desc(false, 0, false, false, false, None)

  /** The rings and registers after eth_configure_hw and the backlog after
      netdev_register with `slots` slots. */
  function Initial(slots: nat, csum: bool): State {
    State(seq(SIZE, _ => IDLE), seq(SIZE, _ => Zeros(BUF_SIZE)), 0, SIZE - 1, 0, csum,
          Backlog(seq(slots, _ => Frame([], Meta(None, 0, false))), 0, 0, 0), NO_STATS,
          [], 0, [], [], [], 0)
  }

  predicate Shape(s: State) {
    && |s.desc| == SIZE && |s.buf| == SIZE
    && (forall i :: 0 <= i < SIZE ==> |s.buf[i]| == BUF_SIZE)
    && (forall i :: 0 <= i < SIZE ==> s.desc[i].length <= BUF_SIZE)
    && s.next < SIZE && s.rdt < SIZE && s.rdh < SIZE
    && LogShape(s.log)
  }

  function Filled(p: Packet): Desc {
    Desc(true, |p.data|, p.eop, p.rxError, p.ignoreCsum, p.vlan)
  }

  /** The device stores a packet, or misses it when it has no descriptor. */
  function Arrive(s: State, p: Packet): State
    requires Shape(s) && |p.data| <= BUF_SIZE
  {
    if s.rdh == s.rdt then s
    else s.(desc := s.desc[s.rdh := Filled(p)],
            buf := s.buf[s.rdh := p.data + s.buf[s.rdh][|p.data|..]],
            rdh := (s.rdh + 1) % SIZE,
            arrived := s.arrived + [p])
  }

  function Protocol(data: seq<u8>): u16
    requires |data| >= HEADER_LEN
  {
    (data[12] as int) * 256 + data[13] as int
  }

  /** The counters every received frame raises. */
  function Tallied(st: Stats, f: Frame): Stats {
    st.(packets := st.packets + 1, bytes := st.bytes + |f.data|,
        csumGood := st.csumGood + if f.meta.csumOk then 1 else 0,
        vlan := st.vlan + if f.meta.vlan.Some? then 1 else 0)
  }

  /** netdev_receive for a frame of valid length. */
  function Offer(s: State, f: Frame): State
    requires Shape(s)
  {
    var t := s.(stats := Tallied(s.stats, f));
    if s.log.count >= |s.log.slots| then
      t.(stats := t.stats.(dropped := t.stats.dropped + 1), offered := s.offered + [f], kept := s.kept + [false])
    else Enqueue(t, f)
  }

  /** A counted frame goes to the backlog. */
  function Enqueue(s: State, f: Frame): State
    requires LogShape(s.log) && s.log.count < |s.log.slots|
  {
    var log := Push(s.log, f);
    var high := if log.count > s.stats.highWater then log.count else s.stats.highWater;
    s.(log := log, stats := s.stats.(highWater := high), offered := s.offered + [f], kept := s.kept + [true])
  }

  /** Whether the driver passes the packet on. */
  predicate Good(d: Desc) {
    d.eop && HEADER_LEN <= d.length <= MAX_FRAME && !d.rxError
  }

  /** The packet of the next descriptor is passed on, or counted as an error. */
  function Deliver(s: State): State
    requires Shape(s)
  {
    var d := s.desc[s.next];
    var data := s.buf[s.next][..d.length];
    if Good(d) then Offer(s, Frame(data, Meta(d.vlan, Protocol(data), !d.ignoreCsum && s.csum)))
    else CountBad(s)
  }

  /** The next descriptor is cleared and given back to the device. */
  function Return(s: State): State
    requires |s.desc| == SIZE && s.next < SIZE
  {
    s.(desc := s.desc[s.next := s.desc[s.next].(done := false, length := 0, rxError := false, eop := false,
                                                ignoreCsum := false, vlan := None)],
       rdt := s.next, next := (s.next + 1) % SIZE)
  }

  /** One turn of eth_process_rx, on a descriptor the device has finished. */
  function ProcessOne(s: State): State
    requires Shape(s)
  {
    var t := Return(Deliver(s));
    t.(processed := s.processed + 1)
  }

  /** eth_process_rx with `budget` turns left. */
  function Process(s: State, budget: nat): (t: State)
    requires Shape(s)
    ensures Shape(t)
    decreases budget
  {
    if budget == 0 || !s.desc[s.next].done then s
    else
      ProcessOneShape(s);
      Process(ProcessOne(s), budget - 1)
  }

  /** The rest of netdev_read_frame after its poll: the frame read, cut to the
      reader's size, if one is waiting. */
  function Read(s: State, size: nat): (State, Option<Frame>)
    requires Shape(s)
  {
    if s.log.count == 0 then (s, None)
    else
      var f := s.log.slots[s.log.head];
      var cut := |f.data| > size;
      var st := if cut then s.stats.(truncated := s.stats.truncated + 1) else s.stats;
      (s.(log := Pop(s.log), stats := st, popped := s.popped + [f]),
       Some(if cut then f.(data := f.data[..size]) else f))
  }

  /** The interrupt handler counts the interrupt, and a fault as an error; then it
      processes the ring if the cause asks for it. */
  function Interrupt(s: State, c: Cause): State
    requires Shape(s)
  {
    var t := CountInterrupt(s, c);
    if c.timer || c.low || c.overrun || c.sequence then Process(t, SIZE) else t
  }

  predicate Fault(c: Cause) { c.overrun || c.sequence || c.ecc }

  function CountInterrupt(s: State, c: Cause): State {
    var n := if Fault(c) then 1 else 0;
    s.(stats := s.stats.(interrupts := s.stats.interrupts + 1, errors := s.stats.errors + n), faults := s.faults + n)
  }

  datatype Op = OpArrive(p: Packet) | OpPoll | OpInterrupt(cause: Cause) | OpRead(size: nat)

  function Apply(s: State, op: Op): State
    requires Shape(s) && (op.OpArrive? ==> |op.p.data| <= BUF_SIZE)
  {
    match op
    case OpArrive(p) => Arrive(s, p)
    case OpPoll => Process(s, SIZE)
    case OpInterrupt(cause) => Interrupt(s, cause)
    case OpRead(size) => Read(Process(s, SIZE), size).0
  }

  lemma {:induction false} ProcessOneShape(s: State)
    requires Shape(s)
    ensures Shape(ProcessOne(s))
  {
    if s.log.count < |s.log.slots| {
      PushAppends(s.log, Frame(s.buf[s.next][..s.desc[s.next].length], Meta(None, 0, false)));
    }
  }

  // ----- History -----------------------------------------------------------

  /** The frame a packet becomes, if the driver passes it on. */
  function Delivered(p: Packet, csum: bool): Frame
    requires Good(Filled(p))
  {
    Frame(p.data, Meta(p.vlan, Protocol(p.data), !p.ignoreCsum && csum))
  }

  /** The frames of the good packets, in order. */
  function GoodFrames(ps: seq<Packet>, csum: bool): seq<Frame> {
    if ps == [] then []
    else
      var p := ps[|ps| - 1];
      GoodFrames(ps[..|ps| - 1], csum) + if Good(Filled(p)) then [Delivered(p, csum)] else []
  }

  function BadCount(ps: seq<Packet>): nat {
    if ps == [] then 0
    else BadCount(ps[..|ps| - 1]) + if Good(Filled(ps[|ps| - 1])) then 0 else 1
  }

  function ByteCount(fs: seq<Frame>): nat {
    if fs == [] then 0 else ByteCount(fs[..|fs| - 1]) + |fs[|fs| - 1].data|
  }

  function CsumCount(fs: seq<Frame>): nat {
    if fs == [] then 0 else CsumCount(fs[..|fs| - 1]) + if fs[|fs| - 1].meta.csumOk then 1 else 0
  }

  function VlanCount(fs: seq<Frame>): nat {
    if fs == [] then 0 else VlanCount(fs[..|fs| - 1]) + if fs[|fs| - 1].meta.vlan.Some? then 1 else 0
  }

  /** The counters describe the offered frames. */
  predicate Counted(st: Stats, fs: seq<Frame>) {
    st.packets == |fs| && st.bytes == ByteCount(fs) && st.csumGood == CsumCount(fs) && st.vlan == VlanCount(fs)
  }

  lemma {:induction false} TalliedCounts(st: Stats, fs: seq<Frame>, f: Frame)
    requires Counted(st, fs)
    ensures Counted(Tallied(st, f), fs + [f])
  {
    assert (fs + [f])[..|fs|] == fs;
  }

  /** The frames whose verdict is true, in order. */
  function Keep(fs: seq<Frame>, verdicts: seq<bool>): seq<Frame>
    requires |fs| == |verdicts|
  {
    if fs == [] then []
    else
      var n := |fs| - 1;
      Keep(fs[..n], verdicts[..n]) + if verdicts[n] then [fs[n]] else []
  }

  function Dropped(verdicts: seq<bool>): nat {
    if verdicts == [] then 0
    else Dropped(verdicts[..|verdicts| - 1]) + if verdicts[|verdicts| - 1] then 0 else 1
  }

  lemma {:induction false} KeepSnoc(fs: seq<Frame>, verdicts: seq<bool>, f: Frame, v: bool)
    requires |fs| == |verdicts|
    ensures Keep(fs + [f], verdicts + [v]) == Keep(fs, verdicts) + if v then [f] else []
    ensures Dropped(verdicts + [v]) == Dropped(verdicts) + if v then 0 else 1
  {
    assert (fs + [f])[..|fs|] == fs && (verdicts + [v])[..|fs|] == verdicts;
  }

  // ----- The invariant -----------------------------------------------------

  /** Slot of position `k` holds arrived packet `k`. */
  predicate Holds(s: State, k: nat)
    requires Shape(s) && k < |s.arrived|
  {
    var i, p := Slot(k), s.arrived[k];
    s.desc[i] == Filled(p) && s.buf[i][..|p.data|] == p.data
  }

  predicate RingInv(s: State)
    requires Shape(s)
  {
    && s.processed <= |s.arrived| <= s.processed + SIZE - 1
    && s.next == Slot(s.processed)
    && s.rdh == Slot(|s.arrived|)
    && s.rdt == Slot(s.processed + SIZE - 1)
    && (forall k :: s.processed <= k < |s.arrived| ==> |s.arrived[k].data| <= BUF_SIZE && Holds(s, k))
    && (forall k :: |s.arrived| <= k < s.processed + SIZE ==> !s.desc[Slot(k)].done)
  }

  /** Offered frames are the good packets processed so far; the frames read and
      the frames waiting are the offered ones that were not dropped. */
  predicate BacklogInv(s: State)
    requires Shape(s)
  {
    && s.processed <= |s.arrived|
    && s.offered == GoodFrames(s.arrived[..s.processed], s.csum)
    && s.stats.errors == BadCount(s.arrived[..s.processed]) + s.faults
    && |s.kept| == |s.offered|
    && s.popped + Contents(s.log) == Keep(s.offered, s.kept)
    && Counted(s.stats, s.offered)
    && s.stats.dropped == Dropped(s.kept)
    && s.log.count <= s.stats.highWater <= |s.log.slots|
  }

  predicate Inv(s: State) {
    Shape(s) && RingInv(s) && BacklogInv(s)
  }

  lemma {:induction false} InitialInv(slots: nat, csum: bool)
    ensures Inv(Initial(slots, csum))
  {
    if slots > 0 { Arith.DivUnique(0, slots, 0, 0); }
    var s := Initial(slots, csum);
    assert Contents(s.log) == [];
    assert s.arrived[..0] == [];
  }

  /** Where the device writes next is the slot of no unprocessed packet. */
  lemma {:induction false} ArriveSlot(s: State, k: nat)
    requires Shape(s) && RingInv(s) && |s.arrived| < s.processed + SIZE - 1
    requires s.processed <= k < s.processed + SIZE && k != |s.arrived|
    ensures Slot(k) != s.rdh
  {
    if k < |s.arrived| { SlotsDistinct(k, |s.arrived|); } else { SlotsDistinct(|s.arrived|, k); }
  }

  lemma {:induction false} ArriveRing(s: State, p: Packet)
    requires Shape(s) && RingInv(s) && |p.data| <= BUF_SIZE && |s.arrived| < s.processed + SIZE - 1 && s.rdh != s.rdt
    ensures Shape(Arrive(s, p)) && RingInv(Arrive(s, p))
  {
    var a, t := |s.arrived|, Arrive(s, p);
    SlotNext(a);
    forall k | t.processed <= k < |t.arrived| ensures |t.arrived[k].data| <= BUF_SIZE && Holds(t, k) {
      if k < a {
        ArriveSlot(s, k);
        assert Holds(s, k);
      }
    }
    forall k | |t.arrived| <= k < t.processed + SIZE ensures !t.desc[Slot(k)].done { ArriveSlot(s, k); }
  }

  lemma {:induction false} ArriveBacklog(s: State, p: Packet)
    requires Inv(s) && |p.data| <= BUF_SIZE && s.rdh != s.rdt
    ensures Shape(Arrive(s, p)) && BacklogInv(Arrive(s, p))
  {
    assert Arrive(s, p).arrived[..s.processed] == s.arrived[..s.processed];
  }

  /** The device has a descriptor exactly when fewer than 63 packets wait. */
  lemma {:induction false} ArriveRoom(s: State)
    requires Shape(s) && RingInv(s)
    ensures s.rdh == s.rdt <==> |s.arrived| - s.processed == SIZE - 1
  {
    if |s.arrived| < s.processed + SIZE - 1 { SlotsDistinct(|s.arrived|, s.processed + SIZE - 1); }
  }

  /** The device never overwrites a descriptor the driver has not processed, and
      misses a packet exactly when 63 are waiting. */
  lemma {:induction false} ArriveInv(s: State, p: Packet)
    requires Inv(s) && |p.data| <= BUF_SIZE
    ensures Inv(Arrive(s, p))
    ensures Arrive(s, p) == s <==> |s.arrived| - s.processed == SIZE - 1
    ensures forall k :: s.processed <= k < |s.arrived| ==>
              Arrive(s, p).desc[Slot(k)] == s.desc[Slot(k)] && Arrive(s, p).buf[Slot(k)] == s.buf[Slot(k)]
  {
    ArriveRoom(s);
    if s.rdh != s.rdt {
      ArriveRing(s, p);
      ArriveBacklog(s, p);
      assert |Arrive(s, p).arrived| != |s.arrived|;
      forall k | s.processed <= k < |s.arrived| ensures Slot(k) != s.rdh { ArriveSlot(s, k); }
    }
  }

  lemma {:induction false} OfferLog(s: State, f: Frame)
    requires Shape(s) && |s.kept| == |s.offered|
    requires s.popped + Contents(s.log) == Keep(s.offered, s.kept)
    requires s.stats.dropped == Dropped(s.kept) && Counted(s.stats, s.offered)
    requires s.log.count <= s.stats.highWater <= |s.log.slots|
    ensures var t := Offer(s, f);
            && Shape(t) && |t.kept| == |t.offered|
            && t.popped + Contents(t.log) == Keep(t.offered, t.kept)
            && t.stats.dropped == Dropped(t.kept) && Counted(t.stats, t.offered)
            && t.log.count <= t.stats.highWater <= |t.log.slots|
            && t.offered == s.offered + [f] && t.stats.errors == s.stats.errors
            && t == s.(log := t.log, stats := t.stats, offered := t.offered, kept := t.kept)
  {
    var t := Offer(s, f);
    TalliedCounts(s.stats, s.offered, f);
    if s.log.count < |s.log.slots| {
      PushAppends(s.log, f);
      KeepSnoc(s.offered, s.kept, f, true);
      assert s.popped + (Contents(s.log) + [f]) == (s.popped + Contents(s.log)) + [f];
    } else {
      KeepSnoc(s.offered, s.kept, f, false);
    }
  }

  lemma {:induction false} GoodSnoc(ps: seq<Packet>, n: nat, csum: bool)
    requires n < |ps|
    ensures GoodFrames(ps[..n + 1], csum)
            == GoodFrames(ps[..n], csum) + if Good(Filled(ps[n])) then [Delivered(ps[n], csum)] else []
    ensures BadCount(ps[..n + 1]) == BadCount(ps[..n]) + if Good(Filled(ps[n])) then 0 else 1
  {
    assert ps[..n + 1][..n] == ps[..n];
  }

  lemma {:induction false} ProcessOneBacklog(s: State)
    requires Inv(s) && s.processed < |s.arrived|
    ensures Shape(ProcessOne(s)) && BacklogInv(ProcessOne(s))
  {
    var p := s.arrived[s.processed];
    assert Holds(s, s.processed);
    ProcessOneShape(s);
    DeliverFields(s, p);
    if Good(Filled(p)) { GoodBacklog(s, p, ProcessOne(s)); } else { BadBacklog(s, p, ProcessOne(s)); }
  }

  lemma {:induction false} GoodBacklog(s: State, p: Packet, t: State)
    requires Shape(s) && BacklogInv(s) && s.processed < |s.arrived| && p == s.arrived[s.processed] && Good(Filled(p))
    requires Shape(t) && Carries(s, t, Offer(s, Delivered(p, s.csum)))
    ensures BacklogInv(t)
  {
    GoodSnoc(s.arrived, s.processed, s.csum);
    OfferLog(s, Delivered(p, s.csum));
  }

  lemma {:induction false} BadBacklog(s: State, p: Packet, t: State)
    requires Shape(s) && BacklogInv(s) && s.processed < |s.arrived| && p == s.arrived[s.processed] && !Good(Filled(p))
    requires Shape(t) && Carries(s, t, CountBad(s))
    ensures BacklogInv(t)
  {
    GoodSnoc(s.arrived, s.processed, s.csum);
  }

  function CountBad(s: State): State { s.(stats := s.stats.(errors := s.stats.errors + 1)) }

  /** `t` has the backlog and the counters of `u`, and one packet more processed
      than `s`. */
  predicate Carries(s: State, t: State, u: State) {
    && t.log == u.log && t.stats == u.stats && t.offered == u.offered && t.kept == u.kept
    && t.popped == s.popped && t.arrived == s.arrived && t.csum == s.csum && t.faults == s.faults
    && t.processed == s.processed + 1
  }

  /** What the next packet does to backlog, counters and history. */
  lemma {:induction false} DeliverFields(s: State, p: Packet)
    requires Shape(s) && s.desc[s.next] == Filled(p) && |p.data| <= BUF_SIZE && s.buf[s.next][..|p.data|] == p.data
    ensures Carries(s, ProcessOne(s), if Good(Filled(p)) then Offer(s, Delivered(p, s.csum)) else CountBad(s))
  {}

  lemma {:induction false} ProcessOneFields(s: State)
    requires Shape(s)
    ensures var t := ProcessOne(s);
            && t.arrived == s.arrived && t.buf == s.buf && t.desc == s.desc[s.next := IDLE]
            && t.rdh == s.rdh && t.rdt == s.next && t.next == (s.next + 1) % SIZE
            && t.processed == s.processed + 1
  {}

  lemma {:induction false} ProcessOneRing(s: State)
    requires Inv(s) && s.processed < |s.arrived|
    ensures Shape(ProcessOne(s)) && RingInv(ProcessOne(s))
  {
    ProcessOneShape(s);
    ProcessOneFields(s);
    RingReturns(s, ProcessOne(s));
  }

  /** Clearing the oldest unprocessed descriptor and moving the tail onto it. */
  lemma {:induction false} RingReturns(s: State, t: State)
    requires Shape(s) && RingInv(s) && s.processed < |s.arrived| && Shape(t)
    requires t.arrived == s.arrived && t.buf == s.buf && t.desc == s.desc[s.next := IDLE]
    requires t.rdh == s.rdh && t.rdt == s.next && t.next == (s.next + 1) % SIZE
    requires t.processed == s.processed + 1
    ensures RingInv(t)
  {
    var q := s.processed;
    SlotNext(q);
    forall k | q + 1 <= k < |t.arrived| ensures |t.arrived[k].data| <= BUF_SIZE && Holds(t, k) {
      SlotsDistinct(q, k);
      assert Holds(s, k);
    }
    forall k | |t.arrived| <= k < t.processed + SIZE ensures !t.desc[Slot(k)].done {
      if k < q + SIZE { assert !s.desc[Slot(k)].done; } else { SlotRound(q); }
    }
    SlotRound(q);
  }

  lemma {:induction false} FinishedMeansArrived(s: State)
    requires Inv(s)
    ensures s.desc[s.next].done <==> s.processed < |s.arrived|
  {
    if s.processed < |s.arrived| { assert Holds(s, s.processed); }
  }

  lemma {:induction false} ProcessOneInv(s: State)
    requires Inv(s) && s.processed < |s.arrived|
    ensures Inv(ProcessOne(s))
    ensures ProcessOne(s).arrived == s.arrived && ProcessOne(s).processed == s.processed + 1
  {
    ProcessOneBacklog(s);
    ProcessOneRing(s);
  }

  /** Polling processes the packets that have arrived, in order, and one budget
      is enough for all of them. */
  lemma {:induction false} ProcessInv(s: State, budget: nat)
    requires Inv(s)
    ensures Inv(Process(s, budget))
    ensures Process(s, budget).arrived == s.arrived
    ensures Process(s, budget).processed
            == if budget < |s.arrived| - s.processed then s.processed + budget else |s.arrived|
    decreases budget
  {
    FinishedMeansArrived(s);
    if budget > 0 && s.processed < |s.arrived| {
      ProcessOneInv(s);
      ProcessInv(ProcessOne(s), budget - 1);
    }
  }

  lemma {:induction false} ReadInv(s: State, size: nat)
    requires Inv(s)
    ensures Inv(Read(s, size).0)
    ensures var (t, r) := Read(s, size);
            && (r.None? <==> Contents(s.log) == [])
            && (r.Some? ==> var f := Contents(s.log)[0];
                            && t.popped == s.popped + [f] && Contents(t.log) == Contents(s.log)[1..]
                            && r.value.meta == f.meta
                            && r.value.data == if |f.data| > size then f.data[..size] else f.data)
  {
    if s.log.count > 0 {
      PopRemovesFirst(s.log);
      var f := s.log.slots[s.log.head];
      assert s.popped + ([f] + Contents(Pop(s.log))) == (s.popped + [f]) + Contents(Pop(s.log));
    }
  }

  lemma {:induction false} InterruptInv(s: State, c: Cause)
    requires Inv(s)
    ensures Inv(Interrupt(s, c))
  {
    CountInterruptInv(s, c);
    ProcessInv(CountInterrupt(s, c), SIZE);
  }

  lemma {:induction false} CountInterruptInv(s: State, c: Cause)
    requires Inv(s)
    ensures Inv(CountInterrupt(s, c))
  {
    var t := CountInterrupt(s, c);
    forall k | t.processed <= k < |t.arrived| ensures Holds(t, k) { assert Holds(s, k); }
  }

  lemma {:induction false} ApplyInv(s: State, op: Op)
    requires Inv(s) && (op.OpArrive? ==> |op.p.data| <= BUF_SIZE)
    ensures Inv(Apply(s, op))
  {
    match op
    case OpArrive(p) => ArriveInv(s, p);
    case OpPoll => ProcessInv(s, SIZE);
    case OpInterrupt(cause) => InterruptInv(s, cause);
    case OpRead(size) =>
      ProcessInv(s, SIZE);
      ReadInv(Process(s, SIZE), size);
  }

  // ----- Every run ---------------------------------------------------------

  predicate OpsOk(ops: seq<Op>) {
    forall i :: 0 <= i < |ops| && ops[i].OpArrive? ==> |ops[i].p.data| <= BUF_SIZE
  }

  /** The state after a run of interleaved steps, from an empty ring and a
      backlog of `slots` slots. */
  function Run(ops: seq<Op>, slots: nat, csum: bool): (s: State)
    requires OpsOk(ops)
    ensures Inv(s)
    decreases |ops|
  {
    if ops == [] then
      InitialInv(slots, csum);
      Initial(slots, csum)
    else
      var t := Run(ops[..|ops| - 1], slots, csum);
      ApplyInv(t, ops[|ops| - 1]);
      Apply(t, ops[|ops| - 1])
  }

  /** The packets of a run that found a free descriptor. */
  function Stored(ops: seq<Op>, slots: nat, csum: bool): seq<Packet>
    requires OpsOk(ops)
    decreases |ops|
  {
    if ops == [] then []
    else
      var before, op := Run(ops[..|ops| - 1], slots, csum), ops[|ops| - 1];
      Stored(ops[..|ops| - 1], slots, csum)
        + if op.OpArrive? && |before.arrived| - before.processed < SIZE - 1 then [op.p] else []
  }

  /** The interrupts of a run that reported a receive fault. */
  function Faults(ops: seq<Op>): nat {
    if ops == [] then 0
    else
      var op := ops[|ops| - 1];
      Faults(ops[..|ops| - 1]) + if op.OpInterrupt? && Fault(op.cause) then 1 else 0
  }

  lemma {:induction false} ArrivedIsStored(ops: seq<Op>, slots: nat, csum: bool)
    requires OpsOk(ops)
    ensures Run(ops, slots, csum).arrived == Stored(ops, slots, csum)
    ensures Run(ops, slots, csum).csum == csum && Run(ops, slots, csum).faults == Faults(ops)
    decreases |ops|
  {
    if ops != [] {
      var before, op := Run(ops[..|ops| - 1], slots, csum), ops[|ops| - 1];
      ArrivedIsStored(ops[..|ops| - 1], slots, csum);
      ApplyArrives(before, op);
    }
  }

  lemma {:induction false} ProcessKeepsCsum(s: State, budget: nat)
    requires Shape(s)
    ensures Process(s, budget).csum == s.csum && Process(s, budget).faults == s.faults
    decreases budget
  {
    if budget > 0 && s.desc[s.next].done {
      ProcessOneShape(s);
      ProcessKeepsCsum(ProcessOne(s), budget - 1);
    }
  }

  lemma {:induction false} ApplyArrives(s: State, op: Op)
    requires Inv(s) && (op.OpArrive? ==> |op.p.data| <= BUF_SIZE)
    ensures Apply(s, op).arrived
            == s.arrived + if op.OpArrive? && |s.arrived| - s.processed < SIZE - 1 then [op.p] else []
    ensures Apply(s, op).csum == s.csum
    ensures Apply(s, op).faults == s.faults + if op.OpInterrupt? && Fault(op.cause) then 1 else 0
  {
    match op
    case OpArrive(p) => ArriveInv(s, p);
    case OpPoll => PollKeeps(s);
    case OpInterrupt(cause) => InterruptKeeps(s, cause);
    case OpRead(_) => PollKeeps(s);
  }

  lemma {:induction false} PollKeeps(s: State)
    requires Inv(s)
    ensures var t := Process(s, SIZE); t.arrived == s.arrived && t.csum == s.csum && t.faults == s.faults
  {
    ProcessKeepsCsum(s, SIZE);
    ProcessInv(s, SIZE);
  }

  lemma {:induction false} InterruptKeeps(s: State, c: Cause)
    requires Inv(s)
    ensures var t := Interrupt(s, c);
            t.arrived == s.arrived && t.csum == s.csum && t.faults == s.faults + if Fault(c) then 1 else 0
  {
    CountInterruptInv(s, c);
    PollKeeps(CountInterrupt(s, c));
  }

  lemma {:induction false} KeepCounts(fs: seq<Frame>, verdicts: seq<bool>)
    requires |fs| == |verdicts|
    ensures |Keep(fs, verdicts)| + Dropped(verdicts) == |fs|
  {
    if fs != [] { KeepCounts(fs[..|fs| - 1], verdicts[..|fs| - 1]); }
  }

  /** A packet is counted as received or as an error, a fault as one more error,
      and a received frame is read, waiting or dropped. */
  lemma {:induction false} EveryFrameCountedOnce(s: State)
    requires Inv(s)
    ensures s.stats.packets == |s.popped| + s.log.count + s.stats.dropped
    ensures s.stats.packets + s.stats.errors == s.processed + s.faults
  {
    KeepCounts(s.offered, s.kept);
    GoodAndBad(s.arrived[..s.processed], s.csum);
    assert |s.popped + Contents(s.log)| == |s.popped| + s.log.count;
  }

  lemma {:induction false} TailIsOneBehind(s: State)
    requires Inv(s)
    ensures s.rdt == (s.next + SIZE - 1) % SIZE
  {
    SlotBefore(s.processed);
  }

  /** The tail register is one behind the next descriptor; the frames read so far,
      followed by those waiting, are the good ones of the packets processed so far,
      in arrival order, less the ones dropped by a full backlog; and the counters
      describe them. */
  ghost predicate InOrder(s: State, stored: seq<Packet>, csum: bool, faults: nat)
    requires Shape(s)
  {
    && s.rdt == (s.next + SIZE - 1) % SIZE
    && s.processed <= |stored|
    && s.offered == GoodFrames(stored[..s.processed], csum)
    && |s.kept| == |s.offered|
    && s.popped + Contents(s.log) == Keep(s.offered, s.kept)
    && Counted(s.stats, s.offered)
    && s.stats.packets == |s.popped| + s.log.count + s.stats.dropped
    && s.stats.packets + s.stats.errors == s.processed + faults
  }

  lemma {:induction false} InvIsInOrder(s: State)
    requires Inv(s)
    ensures InOrder(s, s.arrived, s.csum, s.faults)
  {
    EveryFrameCountedOnce(s);
    TailIsOneBehind(s);
  }

  /** Over every run frames arrive in order, from the packets that found a free
      descriptor, and errors are the bad packets and the faults reported. */
  lemma {:induction false} FramesArriveInOrder(ops: seq<Op>, slots: nat, csum: bool)
    requires OpsOk(ops)
    ensures InOrder(Run(ops, slots, csum), Stored(ops, slots, csum), csum, Faults(ops))
  {
    ArrivedIsStored(ops, slots, csum);
    InvIsInOrder(Run(ops, slots, csum));
  }

  lemma {:induction false} GoodAndBad(ps: seq<Packet>, csum: bool)
    ensures |GoodFrames(ps, csum)| + BadCount(ps) == |ps|
  {
    if ps != [] { GoodAndBad(ps[..|ps| - 1], csum); }
  }

  /** A frame is dropped exactly when it is offered to a full backlog. */
  lemma {:induction false} DroppedExactlyWhenFull(s: State, f: Frame)
    requires Inv(s)
    ensures var t := Offer(s, f);
            && |t.kept| == |s.kept| + 1
            && (t.kept[|s.kept|] <==> |Contents(s.log)| < |s.log.slots|)
            && (if t.kept[|s.kept|] then LogShape(t.log) && Contents(t.log) == Contents(s.log) + [f] else t.log == s.log)
  {
    if s.log.count < |s.log.slots| { PushAppends(s.log, f); }
  }

  // ----- The driver and the reader -----------------------------------------

  /** Adapter and network device as the sources keep them: rings, registers,
      backlog slots and counters updated in place. The device's head and the
      history are specification only. */
  class NetDevice {
    const desc: array<Desc>
    const buffers: array<seq<u8>>
    const rxQueue: array<Frame>
    const rxChecksum: bool
    var rxNext: nat
    var rdt: nat
    var rxHead: nat
    var rxTail: nat
    var rxCount: nat
    var stats: Stats
    ghost var rdh: nat
    ghost var arrived: seq<Packet>
    ghost var processed: nat
    ghost var offered: seq<Frame>
    ghost var kept: seq<bool>
    ghost var popped: seq<Frame>
    ghost var faults: nat

    ghost function Log(): Backlog
      reads this, rxQueue
    {
      Backlog(rxQueue[..], rxHead, rxTail, rxCount)
    }

    ghost function View(): State
      reads this, desc, buffers, rxQueue
    {
      State(desc[..], buffers[..], rxNext, rdt, rdh, rxChecksum, Log(), stats,
            arrived, processed, offered, kept, popped, faults)
    }

    ghost predicate Valid()
      reads this, desc, buffers, rxQueue
    {
      desc.Length == SIZE && buffers.Length == SIZE && Shape(View())
    }

    constructor (slots: nat, csum: bool)
      ensures Valid() && View() == Initial(slots, csum) && fresh(desc) && fresh(buffers) && fresh(rxQueue)
    {
      desc := new Desc[SIZE](_ => IDLE);
      buffers := new seq<u8>[SIZE](_ => Zeros(BUF_SIZE));
      rxQueue := new Frame[slots](_ => Frame([], Meta(None, 0, false)));
      rxChecksum := csum;
      rxNext, rdt, rxHead, rxTail, rxCount := 0, SIZE - 1, 0, 0, 0;
      stats := NO_STATS;
      rdh, arrived, processed, offered, kept, popped, faults := 0, [], 0, [], [], [], 0;
      new;
      var s := Initial(slots, csum);
      assert desc[..] == s.desc && buffers[..] == s.buf && rxQueue[..] == s.log.slots;
      if slots > 0 { Arith.DivUnique(0, slots, 0, 0); }
    }

    /** netdev_receive: whether the length was accepted, and then the frame is
        counted and kept or dropped. */
    method Receive(f: Frame) returns (ok: bool)
      requires Valid()
      modifies this`rxTail, this`rxCount, this`stats, this`offered, this`kept, rxQueue
      ensures ok <==> HEADER_LEN <= |f.data| <= MAX_FRAME
      ensures Valid() && View() == if ok then Offer(old(View()), f) else old(View())
    {
      ok := HEADER_LEN <= |f.data| <= MAX_FRAME;
      if !ok { return; }
      TallyFrame(f);
      if rxQueue.Length == 0 || rxCount >= rxQueue.Length {
        stats := stats.(dropped := stats.dropped + 1);
        offered, kept := offered + [f], kept + [false];
      } else {
        KeepFrame(f);
      }
    }

    method TallyFrame(f: Frame)
      modifies this`stats
      ensures stats == Tallied(old(stats), f)
    {
      stats := stats.(packets := stats.packets + 1, bytes := stats.bytes + |f.data|);
      if f.meta.csumOk { stats := stats.(csumGood := stats.csumGood + 1); }
      if f.meta.vlan.Some? { stats := stats.(vlan := stats.vlan + 1); }
    }

    method KeepFrame(f: Frame)
      requires Valid() && rxCount < rxQueue.Length
      modifies this`rxTail, this`rxCount, this`stats, this`offered, this`kept, rxQueue
      ensures Valid() && View() == Enqueue(old(View()), f)
    {
      StoreFrame(f);
      if rxCount > stats.highWater { stats := stats.(highWater := rxCount); }
      offered, kept := offered + [f], kept + [true];
    }

    /** The frame goes to the tail slot. */
    method StoreFrame(f: Frame)
      requires LogShape(Log()) && rxCount < rxQueue.Length
      modifies this`rxTail, this`rxCount, rxQueue
      ensures Log() == Push(old(Log()), f) && LogShape(Log())
    {
      PushAppends(Log(), f);
      rxQueue[rxTail] := f;
      rxTail := (rxTail + 1) % rxQueue.Length;
      rxCount := rxCount + 1;
    }

    /** The body of the loop of eth_process_rx. */
    method ProcessDescriptor()
      requires Valid()
      modifies this, desc, rxQueue
      ensures Valid() && View() == ProcessOne(old(View()))
    {
      ProcessOneShape(View());
      DeliverDescriptor();
      ReturnDescriptor();
      processed := processed + 1;
    }

    /** The descriptor's packet is passed on, or counted as an error. */
    method DeliverDescriptor()
      requires Valid()
      modifies this`rxTail, this`rxCount, this`stats, this`offered, this`kept, rxQueue
      ensures Valid() && View() == Deliver(old(View()))
    {
      var d := desc[rxNext];
      if Good(d) {
        var data := buffers[rxNext][..d.length];
        var ok := Receive(Frame(data, Meta(d.vlan, Protocol(data), !d.ignoreCsum && rxChecksum)));
      } else {
        stats := stats.(errors := stats.errors + 1);
      }
    }

    /** The descriptor is cleared and given back to the device. */
    method ReturnDescriptor()
      requires Valid()
      modifies this`rdt, this`rxNext, desc
      ensures Valid() && View() == Return(old(View()))
    {
      desc[rxNext] := desc[rxNext].(done := false, length := 0, rxError := false, eop := false,
                                    ignoreCsum := false, vlan := None);
      rdt := rxNext;
      rxNext := (rxNext + 1) % SIZE;
    }

    /** eth_process_rx. */
    method ProcessRx()
      requires Valid()
      modifies this, desc, rxQueue
      ensures Valid() && View() == Process(old(View()), SIZE)
    {
      var budget := 0;
      while budget < SIZE
        invariant 0 <= budget <= SIZE && Valid()
        invariant Process(View(), SIZE - budget) == Process(old(View()), SIZE)
      {
        if !desc[rxNext].done { break; }
        ProcessDescriptor();
        budget := budget + 1;
      }
    }

    /** The part of eth_irq_common that concerns reception. */
    method HandleInterrupt(c: Cause)
      requires Valid()
      modifies this, desc, rxQueue
      ensures Valid() && View() == Interrupt(old(View()), c)
    {
      TallyInterrupt(c);
      if c.timer || c.low || c.overrun || c.sequence { ProcessRx(); }
    }

    method TallyInterrupt(c: Cause)
      requires Valid()
      modifies this`stats, this`faults
      ensures Valid() && View() == CountInterrupt(old(View()), c)
    {
      stats := stats.(interrupts := stats.interrupts + 1);
      if c.overrun || c.sequence || c.ecc {
        stats := stats.(errors := stats.errors + 1);
        faults := faults + 1;
      }
    }

    /** netdev_read_frame: poll, then take the oldest waiting frame. */
    method ReadFrame(size: nat) returns (r: Option<Frame>)
      requires Valid()
      modifies this, desc, rxQueue
      ensures Valid() && (View(), r) == Read(Process(old(View()), SIZE), size)
    {
      ProcessRx();
      r := TakeFrame(size);
    }

    method TakeFrame(size: nat) returns (r: Option<Frame>)
      requires Valid()
      modifies this`rxHead, this`rxCount, this`stats, this`popped
      ensures Valid() && (View(), r) == Read(old(View()), size)
    {
      if rxCount == 0 { return None; }
      PopRemovesFirst(Log());
      var slot := rxQueue[rxHead];
      var take := |slot.data|;
      if take > size {
        take := size;
        stats := stats.(truncated := stats.truncated + 1);
      }
      r := Some(if |slot.data| > size then slot.(data := slot.data[..take]) else slot);
      rxHead := (rxHead + 1) % rxQueue.Length;
      rxCount := rxCount - 1;
      popped := popped + [slot];
    }
  }
}
