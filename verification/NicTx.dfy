/** The transmit ring of kernel/drivers/rabbit_eth.c as a protocol between the
    driver and the network controller (section 3.4 of the Intel 8254x Software
    Developer's Manual).

    Driver and device take turns in atomic steps: the driver transmits or
    reclaims, the device fetches the descriptor at its head, or writes back that
    it is done with the oldest fetched one. The driver's interrupt handler and
    poll routine reclaim without the lock that transmit holds; that each reclaim
    is one atomic step is an assumption of this model, and NicRace shows what
    happens without it. */
module NicTx {
  import opened Ring

  type u8 = x: int | 0 <= x < 256
  type u16 = x: int | 0 <= x < 65536

  datatype Option<+T> = None | Some(value: T)

  const HEADER_LEN: nat := 14
  const MIN_FRAME: nat := 60
  const MAX_FRAME: nat := 2048
  const BUF_SIZE: nat := 2048

  datatype Status = Ok | Range | NoDev | Busy | Unsupported

  /** What the caller asks for along with a frame. */
  datatype TxMeta = TxMeta(csum: bool, tso: bool, vlan: bool, tag: u16)

  datatype Frame = Frame(data: seq<u8>, vlan: Option<u16>)

  /** A transmit descriptor: length, tag inserted by the device, and the bit the
      device sets when it is done with it. */
  datatype Desc = Desc(length: nat, vlan: Option<u16>, done: bool)

  /** Memory shared with the device, the driver's indices, the tail register, the
      device's head and write-back position, and what has left on the wire. The
      last three fields are history: frames accepted, descriptors written back
      and descriptors reclaimed so far. */
  datatype State = State(
    desc: seq<Desc>,
    buf: seq<seq<u8>>,
    next: nat,
    clean: nat,
    inflight: nat,
    tdt: nat,
    tdh: nat,
    back: nat,
    wire: seq<Frame>,
    accepted: seq<Frame>,
    written: nat,
    cleaned: nat
  )

  function Zeros(n: nat): (z: seq<u8>)
    ensures |z| == n && forall i :: 0 <= i < n ==> z[i] == 0
  {
    seq(n, _ => 0)
  }

  /** A frame as it must appear on the wire: zero-padded to the minimum size. */
  function Padded(f: Frame): Frame {
    if |f.data| < MIN_FRAME then Frame(f.data + Zeros(MIN_FRAME - |f.data|), f.vlan) else f
  }

  function Leave(frames: seq<Frame>): (r: seq<Frame>)
    ensures |r| == |frames|
    ensures forall i :: 0 <= i < |r| ==> r[i] == Padded(frames[i])
  {
    seq(|frames|, i requires 0 <= i < |frames| => Padded(frames[i]))
  }

  // ----- Steps -------------------------------------------------------------

  /** The rings after eth_reset_dma_rings and the register writes that follow. */
  function Initial(): State {
    State(seq(SIZE, _ => Desc(0, None, true)), seq(SIZE, _ => Zeros(BUF_SIZE)),
          0, 0, 0, 0, 0, 0, [], [], 0, 0)
  }

  predicate Shape(s: State) {
    && |s.desc| == SIZE && |s.buf| == SIZE
    && (forall i :: 0 <= i < SIZE ==> |s.buf[i]| == BUF_SIZE)
    && (forall i :: 0 <= i < SIZE ==> s.desc[i].length <= BUF_SIZE)
    && s.next < SIZE && s.clean < SIZE && s.tdt < SIZE && s.tdh < SIZE && s.back < SIZE
  }

  /** eth_reclaim_tx. */
  function Reclaim(s: State): State
    requires Shape(s)
    decreases s.inflight
  {
    if s.inflight == 0 || !s.desc[s.clean].done then s
    else Reclaim(s.(clean := (s.clean + 1) % SIZE, inflight := s.inflight - 1, cleaned := s.cleaned + 1))
  }

  function VlanOf(meta: Option<TxMeta>): Option<u16> {
    if meta.Some? && meta.value.vlan then Some(meta.value.tag) else None
  }

  /** The descriptor and buffer of the frame, published by moving the tail. */
  function Publish(s: State, f: Frame): State
    requires Shape(s) && |f.data| <= BUF_SIZE
  {
    var wireLen := if |f.data| < MIN_FRAME then MIN_FRAME else |f.data|;
    var next := (s.next + 1) % SIZE;
    s.(buf := s.buf[s.next := f.data + Zeros(BUF_SIZE - |f.data|)],
       desc := s.desc[s.next := Desc(wireLen, f.vlan, false)],
       next := next, tdt := next, inflight := s.inflight + 1,
       accepted := s.accepted + [f])
  }

  /** eth_transmit. */
  function Transmit(s: State, up: bool, data: seq<u8>, meta: Option<TxMeta>): (State, Status)
    requires Shape(s)
  {
    if |data| > BUF_SIZE || |data| < HEADER_LEN then (s, Range)
    else if !up then (s, NoDev)
    else if meta.Some? && (meta.value.csum || meta.value.tso) then (s, Unsupported)
    else
      var r := Reclaim(s);
      ReclaimShape(s);
      if r.inflight >= SIZE - 1 then (r, Busy)
      else (Publish(r, Frame(data, VlanOf(meta))), Ok)
  }

  /** The device reads the descriptor and buffer at its head and sends. */
  function Fetch(s: State): State
    requires Shape(s)
  {
    if s.tdh == s.tdt then s
    else
      var d := s.desc[s.tdh];
      s.(wire := s.wire + [Frame(s.buf[s.tdh][..d.length], d.vlan)], tdh := (s.tdh + 1) % SIZE)
  }

  /** The device reports the oldest fetched descriptor done. */
  function WriteBack(s: State): State
    requires Shape(s)
  {
    if s.back == s.tdh then s
    else s.(desc := s.desc[s.back := s.desc[s.back].(done := true)],
            back := (s.back + 1) % SIZE, written := s.written + 1)
  }

  datatype Op = OpTransmit(up: bool, data: seq<u8>, meta: Option<TxMeta>) | OpReclaim | OpFetch | OpWriteBack

  function Apply(s: State, op: Op): State
    requires Shape(s)
  {
    match op
    case OpTransmit(up, data, meta) => Transmit(s, up, data, meta).0
    case OpReclaim => Reclaim(s)
    case OpFetch => Fetch(s)
    case OpWriteBack => WriteBack(s)
  }

  lemma {:induction false} ReclaimShape(s: State)
    requires Shape(s)
    ensures Shape(Reclaim(s))
    ensures var r := Reclaim(s);
            r == s.(clean := r.clean, inflight := r.inflight, cleaned := r.cleaned)
    decreases s.inflight
  {
    if s.inflight != 0 && s.desc[s.clean].done {
      ReclaimShape(s.(clean := (s.clean + 1) % SIZE, inflight := s.inflight - 1, cleaned := s.cleaned + 1));
    }
  }

  // ----- The invariant -----------------------------------------------------

  /** Slot of position `k` holds accepted frame `k`, ready to be sent. */
  predicate Holds(s: State, k: nat)
    requires Shape(s) && k < |s.accepted|
  {
    var i, p := Slot(k), Padded(s.accepted[k]);
    s.desc[i].length == |p.data| && s.buf[i][..s.desc[i].length] == p.data && s.desc[i].vlan == p.vlan
  }

  /** Reclaimed, written back, fetched and accepted positions never overtake each
      other and never spread over the whole ring; every index is the slot of its
      position. */
  predicate Indices(s: State) {
    && s.cleaned <= s.written <= |s.wire| <= |s.accepted| <= s.cleaned + SIZE - 1
    && s.next == s.tdt == Slot(|s.accepted|)
    && s.tdh == Slot(|s.wire|)
    && s.back == Slot(s.written)
    && s.clean == Slot(s.cleaned)
    && s.inflight == |s.accepted| - s.cleaned
  }

  predicate DoneBits(s: State)
    requires Shape(s)
  {
    && (forall k :: s.cleaned <= k < s.written ==> s.desc[Slot(k)].done)
    && (forall k :: s.written <= k < |s.accepted| ==> !s.desc[Slot(k)].done)
    && (forall k :: |s.accepted| <= k < s.cleaned + SIZE ==> s.desc[Slot(k)].done)
  }

  predicate Pending(s: State)
    requires Shape(s)
  {
    forall k :: |s.wire| <= k < |s.accepted| ==> Holds(s, k)
  }

  predicate Inv(s: State) {
    && Shape(s)
    && Indices(s)
    && DoneBits(s)
    && Pending(s)
    && s.wire == Leave(s.accepted[..|s.wire|])
  }

  lemma {:induction false} InitialInv()
    ensures Inv(Initial())
  {}

  /** One turn of the reclaim loop. */
  function ReclaimOnce(s: State): State
    requires s.inflight > 0
  {
    s.(clean := (s.clean + 1) % SIZE, inflight := s.inflight - 1, cleaned := s.cleaned + 1)
  }

  lemma {:induction false} ReclaimOnceInv(s: State)
    requires Inv(s) && s.cleaned < s.written
    ensures s.inflight > 0 && s.desc[s.clean].done && Inv(ReclaimOnce(s))
  {
    var t := ReclaimOnce(s);
    SlotNext(s.cleaned);
    SlotRound(s.cleaned);
    assert DoneBits(t);
    forall k | |t.wire| <= k < |t.accepted| ensures Holds(t, k) { assert Holds(s, k); }
  }

  lemma {:induction false} ReclaimStops(s: State)
    requires Inv(s) && s.cleaned == s.written
    ensures Reclaim(s) == s
  {
    if s.inflight != 0 { assert !s.desc[Slot(s.written)].done; }
  }

  /** Reclaim stops exactly at the device's write-back position: it neither
      passes a descriptor the device still owns nor leaves one it is done
      with. */
  lemma {:induction false} ReclaimReachesWriteBack(s: State)
    requires Inv(s)
    ensures Inv(Reclaim(s))
    ensures Reclaim(s) == s.(clean := s.back, inflight := |s.accepted| - s.written, cleaned := s.written)
    decreases s.inflight
  {
    if s.cleaned < s.written {
      ReclaimOnceInv(s);
      ReclaimReachesWriteBack(ReclaimOnce(s));
    } else {
      ReclaimStops(s);
    }
  }

  /** The slots of positions the device has not finished with. */
  predicate DeviceOwns(s: State, i: nat) {
    exists k :: s.written <= k < |s.accepted| && i == Slot(k)
  }

  lemma {:induction false} FreeSlot(s: State)
    requires Inv(s) && s.inflight < SIZE - 1
    ensures forall k :: s.cleaned <= k < |s.accepted| ==> Slot(k) != s.next
  {
    forall k | s.cleaned <= k < |s.accepted| ensures Slot(k) != s.next {
      SlotsDistinct(k, |s.accepted|);
    }
  }

  lemma {:induction false} PaddedBuffer(f: Frame)
    requires |f.data| <= BUF_SIZE
    ensures var n := if |f.data| < MIN_FRAME then MIN_FRAME else |f.data|;
            |Padded(f).data| == n && (f.data + Zeros(BUF_SIZE - |f.data|))[..n] == Padded(f).data
  {
    var z := Zeros(BUF_SIZE - |f.data|);
    if |f.data| < MIN_FRAME {
      assert (f.data + z)[..MIN_FRAME] == f.data + z[..MIN_FRAME - |f.data|];
      assert z[..MIN_FRAME - |f.data|] == Zeros(MIN_FRAME - |f.data|);
    } else {
      assert (f.data + z)[..|f.data|] == f.data;
    }
  }

  lemma {:induction false} PublishHolds(s: State, f: Frame, k: nat)
    requires Inv(s) && s.inflight < SIZE - 1 && |f.data| <= BUF_SIZE && |s.wire| <= k <= |s.accepted|
    ensures Shape(Publish(s, f)) && Holds(Publish(s, f), k)
  {
    FreeSlot(s);
    if k < |s.accepted| {
      assert Holds(s, k) && Publish(s, f).accepted[k] == s.accepted[k];
    } else {
      PaddedBuffer(f);
    }
  }

  lemma {:induction false} PublishIndices(s: State, f: Frame)
    requires Inv(s) && s.inflight < SIZE - 1 && |f.data| <= BUF_SIZE
    ensures Shape(Publish(s, f)) && Indices(Publish(s, f))
  {
    SlotNext(|s.accepted|);
  }

  lemma {:induction false} PublishDone(s: State, f: Frame)
    requires Inv(s) && s.inflight < SIZE - 1 && |f.data| <= BUF_SIZE && Shape(Publish(s, f))
    ensures DoneBits(Publish(s, f))
  {
    var t := Publish(s, f);
    forall k | t.cleaned <= k < t.cleaned + SIZE && k != |s.accepted| ensures t.desc[Slot(k)] == s.desc[Slot(k)] {
      if k < |s.accepted| { SlotsDistinct(k, |s.accepted|); } else { SlotsDistinct(|s.accepted|, k); }
    }
  }

  lemma {:induction false} PublishInv(s: State, f: Frame)
    requires Inv(s) && s.inflight < SIZE - 1 && |f.data| <= BUF_SIZE
    ensures Inv(Publish(s, f))
  {
    PublishIndices(s, f);
    PublishDone(s, f);
    var t := Publish(s, f);
    forall k | |t.wire| <= k < |t.accepted| ensures Holds(t, k) { PublishHolds(s, f, k); }
    assert t.accepted[..|t.wire|] == s.accepted[..|s.wire|];
  }

  lemma {:induction false} TransmitInv(s: State, up: bool, data: seq<u8>, meta: Option<TxMeta>)
    requires Inv(s)
    ensures Inv(Transmit(s, up, data, meta).0)
  {
    ReclaimReachesWriteBack(s);
    var r := Reclaim(s);
    if r.inflight < SIZE - 1 && |data| <= BUF_SIZE { PublishInv(r, Frame(data, VlanOf(meta))); }
  }

  lemma {:induction false} FetchInv(s: State)
    requires Inv(s)
    ensures Inv(Fetch(s))
    ensures Fetch(s) == s <==> |s.wire| == |s.accepted|
  {
    var f := |s.wire|;
    if f == |s.accepted| {
      assert s.tdh == s.tdt;
    } else {
      SlotsDistinct(f, |s.accepted|);
      SlotNext(f);
      assert Holds(s, f);
      var t := Fetch(s);
      assert t.wire[f] == Padded(s.accepted[f]);
      assert t.wire == Leave(s.accepted[..f + 1]);
      forall k | f + 1 <= k < |s.accepted| ensures Holds(t, k) { assert Holds(s, k); }
      assert |t.wire| != |s.wire|;
    }
  }

  lemma {:induction false} WriteBackInv(s: State)
    requires Inv(s)
    ensures Inv(WriteBack(s))
    ensures s.written < |s.wire| ==> WriteBack(s).written == s.written + 1
  {
    if s.written < |s.wire| {
      SlotsDistinct(s.written, |s.wire|);
      WriteBackDone(s);
      var t := WriteBack(s);
      forall k | |t.wire| <= k < |t.accepted| ensures Holds(t, k) { assert Holds(s, k); }
    }
  }

  lemma {:induction false} WriteBackDone(s: State)
    requires Inv(s) && s.written < |s.wire| && s.back != s.tdh
    ensures Shape(WriteBack(s)) && DoneBits(WriteBack(s)) && Indices(WriteBack(s))
  {
    var w := s.written;
    SlotNext(w);
    forall k | s.cleaned <= k < |s.accepted| && k != w ensures Slot(k) != Slot(w) {
      if k < w { SlotsDistinct(k, w); } else { SlotsDistinct(w, k); }
    }
  }

  lemma {:induction false} ApplyInv(s: State, op: Op)
    requires Inv(s)
    ensures Inv(Apply(s, op))
  {
    match op
    case OpTransmit(up, data, meta) => TransmitInv(s, up, data, meta);
    case OpReclaim => ReclaimReachesWriteBack(s);
    case OpFetch => FetchInv(s);
    case OpWriteBack => WriteBackInv(s);
  }

  // ----- Every run ---------------------------------------------------------

  /** The state after a run of interleaved steps. */
  function Run(ops: seq<Op>): (s: State)
    ensures Inv(s)
  {
    if ops == [] then
      InitialInv();
      Initial()
    else
      var t := Run(ops[..|ops| - 1]);
      ApplyInv(t, ops[|ops| - 1]);
      Apply(t, ops[|ops| - 1])
  }

  /** Frames handed to the driver and accepted by it during a run. */
  function Accepted(ops: seq<Op>): seq<Frame> {
    if ops == [] then []
    else
      var before, op := Run(ops[..|ops| - 1]), ops[|ops| - 1];
      Accepted(ops[..|ops| - 1])
        + if op.OpTransmit? && Transmit(before, op.up, op.data, op.meta).1 == Ok
          then [Frame(op.data, VlanOf(op.meta))] else []
  }

  lemma {:induction false} ApplyRecords(s: State, op: Op)
    requires Shape(s)
    ensures Apply(s, op).accepted
            == s.accepted + if op.OpTransmit? && Transmit(s, op.up, op.data, op.meta).1 == Ok
                            then [Frame(op.data, VlanOf(op.meta))] else []
  {
    ReclaimShape(s);
  }

  lemma {:induction false} AcceptedIsRecorded(ops: seq<Op>)
    ensures Run(ops).accepted == Accepted(ops)
  {
    if ops != [] {
      AcceptedIsRecorded(ops[..|ops| - 1]);
      ApplyRecords(Run(ops[..|ops| - 1]), ops[|ops| - 1]);
    }
  }

  /** Over every run and interleaving, what has left on the wire is a prefix of
      the accepted frames: each left at most once, in order, and intact up to
      the padding to the minimum size. */
  lemma {:induction false} WireIsPaddedPrefix(ops: seq<Op>)
    ensures var wire := Run(ops).wire;
            |wire| <= |Accepted(ops)| && wire == Leave(Accepted(ops)[..|wire|])
  {
    AcceptedIsRecorded(ops);
  }

  lemma {:induction false} PublishKeepsSlots(s: State, f: Frame, i: nat)
    requires Inv(s) && s.inflight < SIZE - 1 && |f.data| <= BUF_SIZE
    requires i < SIZE && DeviceOwns(s, i)
    ensures Publish(s, f).desc[i] == s.desc[i] && Publish(s, f).buf[i] == s.buf[i]
  {
    FreeSlot(s);
  }

  /** In every reachable state, transmitting changes no descriptor and no buffer
      that the device still owns. */
  lemma {:induction false} TransmitKeepsDeviceSlots(s: State, up: bool, data: seq<u8>, meta: Option<TxMeta>, i: nat)
    requires Inv(s) && i < SIZE && DeviceOwns(s, i)
    ensures var t := Transmit(s, up, data, meta).0;
            |t.desc| == SIZE && |t.buf| == SIZE && t.desc[i] == s.desc[i] && t.buf[i] == s.buf[i]
  {
    ReclaimReachesWriteBack(s);
    var r := Reclaim(s);
    assert DeviceOwns(r, i);
    if r.inflight < SIZE - 1 && |data| <= BUF_SIZE { PublishKeepsSlots(r, Frame(data, VlanOf(meta)), i); }
  }

  /** A frame is refused as busy exactly when it passes the checks before the ring
      is looked at and the device has not finished with 63 descriptors. */
  lemma {:induction false} BusyExactly(ops: seq<Op>, up: bool, data: seq<u8>, meta: Option<TxMeta>)
    ensures Transmit(Run(ops), up, data, meta).1 == Busy
            <==> && up && HEADER_LEN <= |data| <= BUF_SIZE && !(meta.Some? && (meta.value.csum || meta.value.tso))
                 && |Run(ops).accepted| - Run(ops).written == SIZE - 1
  {
    ReclaimReachesWriteBack(Run(ops));
  }

  /** The device alone, until it has nothing left to do. */
  function Drain(s: State): (t: State)
    requires Inv(s)
    ensures Inv(t)
    decreases |s.accepted| - |s.wire|, |s.accepted| - s.written
  {
    FetchInv(s);
    WriteBackInv(s);
    if |s.wire| < |s.accepted| then
      SlotsDistinct(|s.wire|, |s.accepted|);
      Drain(Fetch(s))
    else if s.written < |s.wire| then
      SlotsDistinct(s.written, |s.wire|);
      Drain(WriteBack(s))
    else s
  }

  /** From every reachable state, the device's own steps send every accepted
      frame, and the next reclaim finds the whole ring free again. */
  lemma {:induction false} EverythingLeaves(s: State)
    requires Inv(s)
    ensures Drain(s).accepted == s.accepted
    ensures Drain(s).wire == Leave(s.accepted)
    ensures Reclaim(Drain(s)).inflight == 0
    decreases |s.accepted| - |s.wire|, |s.accepted| - s.written
  {
    FetchInv(s);
    WriteBackInv(s);
    if |s.wire| < |s.accepted| {
      SlotsDistinct(|s.wire|, |s.accepted|);
      EverythingLeaves(Fetch(s));
    } else if s.written < |s.wire| {
      SlotsDistinct(s.written, |s.wire|);
      EverythingLeaves(WriteBack(s));
    } else {
      assert s.accepted[..|s.wire|] == s.accepted;
      ReclaimReachesWriteBack(s);
    }
  }

  // ----- The driver --------------------------------------------------------

  datatype Stats = Stats(packets: nat, bytes: nat, busy: nat, errors: nat, csum: nat, vlan: nat)

  /** netdev_send: length and interface checks, the driver, the counters. */
  function Send(s: State, st: Stats, ifUp: bool, ready: bool, data: seq<u8>, meta: Option<TxMeta>)
    : (State, Stats, Status)
    requires Shape(s)
  {
    if |data| < HEADER_LEN || |data| > MAX_FRAME then (s, st, Range)
    else if !ifUp then (s, st, NoDev)
    else
      var (t, r) := Transmit(s, ready, data, meta);
      (t, Counted(st, r, |data|, meta), r)
  }

  /** The counters after a verdict of the driver. */
  function Counted(st: Stats, r: Status, len: nat, meta: Option<TxMeta>): Stats {
    match r
    case Ok => st.(packets := st.packets + 1, bytes := st.bytes + len,
                   csum := st.csum + if meta.Some? && meta.value.csum then 1 else 0,
                   vlan := st.vlan + if meta.Some? && meta.value.vlan then 1 else 0)
    case Busy => st.(busy := st.busy + 1)
    case _ => st.(errors := st.errors + 1)
  }

  function TotalBytes(frames: seq<Frame>): nat {
    if frames == [] then 0 else TotalBytes(frames[..|frames| - 1]) + |frames[|frames| - 1].data|
  }

  /** The counters describe the accepted frames; checksum offload is never
      counted because frames that ask for it are refused. */
  predicate StatsAgree(accepted: seq<Frame>, st: Stats) {
    && st.packets == |accepted|
    && st.bytes == TotalBytes(accepted)
    && st.csum == 0
  }

  lemma {:induction false} TotalBytesSnoc(frames: seq<Frame>, f: Frame)
    ensures TotalBytes(frames + [f]) == TotalBytes(frames) + |f.data|
  {
    assert (frames + [f])[..|frames + [f]| - 1] == frames;
  }

  lemma {:induction false} TransmitRecords(s: State, ready: bool, data: seq<u8>, meta: Option<TxMeta>)
    requires Inv(s)
    ensures var (t, r) := Transmit(s, ready, data, meta);
            && Inv(t)
            && t.accepted == s.accepted + (if r == Ok then [Frame(data, VlanOf(meta))] else [])
            && (r == Ok ==> !(meta.Some? && meta.value.csum))
  {
    TransmitInv(s, ready, data, meta);
    TransmitAccepts(s, ready, data, meta);
  }

  lemma {:induction false} TransmitAccepts(s: State, ready: bool, data: seq<u8>, meta: Option<TxMeta>)
    requires Shape(s)
    ensures var (t, r) := Transmit(s, ready, data, meta);
            && t.accepted == s.accepted + (if r == Ok then [Frame(data, VlanOf(meta))] else [])
            && (r == Ok ==> !(meta.Some? && meta.value.csum))
  {
    ReclaimShape(s);
  }

  lemma {:induction false} CountedAgrees(before: seq<Frame>, st: Stats, r: Status, f: Frame, meta: Option<TxMeta>)
    requires StatsAgree(before, st) && (r == Ok ==> !(meta.Some? && meta.value.csum))
    ensures var after := before + if r == Ok then [f] else [];
            var st' := Counted(st, r, |f.data|, meta);
            && StatsAgree(after, st')
            && st'.packets + st'.busy + st'.errors == st.packets + st.busy + st.errors + 1
            && (r == Ok <==> after == before + [f])
  {
    TotalBytesSnoc(before, f);
    assert |before + [f]| != |before| && before + [] == before;
  }

  /** Sends that never reach the driver change nothing. */
  predicate ReachesDriver(ifUp: bool, data: seq<u8>) {
    ifUp && HEADER_LEN <= |data| <= MAX_FRAME
  }

  lemma {:induction false} SendKeepsStats(s: State, st: Stats, ifUp: bool, ready: bool, data: seq<u8>, meta: Option<TxMeta>)
    requires Inv(s) && StatsAgree(s.accepted, st)
    ensures var (t, st', r) := Send(s, st, ifUp, ready, data, meta);
            && Inv(t) && StatsAgree(t.accepted, st')
            && st'.packets + st'.busy + st'.errors == st.packets + st.busy + st.errors + (if ReachesDriver(ifUp, data) then 1 else 0)
            && (r == Ok <==> t.accepted == s.accepted + [Frame(data, VlanOf(meta))])
  {
    if ReachesDriver(ifUp, data) {
      TransmitRecords(s, ready, data, meta);
      CountedAgrees(s.accepted, st, Transmit(s, ready, data, meta).1, Frame(data, VlanOf(meta)), meta);
    } else {
      assert |s.accepted + [Frame(data, VlanOf(meta))]| != |s.accepted|;
    }
  }

  /** The adapter as the driver keeps it: rings updated in place. The device's
      position and the history are specification only. */
  class EthDevice {
    const desc: array<Desc>
    const buffers: array<seq<u8>>
    var txNext: nat
    var txClean: nat
    var txInflight: nat
    var tdt: nat
    var initialized: bool
    var ifUp: bool
    var stats: Stats
    ghost var tdh: nat
    ghost var back: nat
    ghost var wire: seq<Frame>
    ghost var accepted: seq<Frame>
    ghost var written: nat
    ghost var cleaned: nat

    ghost function View(): State
      reads this, desc, buffers
    {
      State(desc[..], buffers[..], txNext, txClean, txInflight, tdt, tdh, back, wire, accepted, written, cleaned)
    }

    ghost predicate Valid()
      reads this, desc, buffers
    {
      desc.Length == SIZE && buffers.Length == SIZE && Shape(View()) && txInflight < 65536
    }

    /** Ring allocation and eth_reset_dma_rings. */
    constructor ()
      ensures Valid() && View() == Initial() && !initialized && fresh(desc) && fresh(buffers)
      ensures stats == Stats(0, 0, 0, 0, 0, 0)
    {
      desc := new Desc[SIZE](_ => Desc(0, None, true));
      buffers := new seq<u8>[SIZE](_ => Zeros(BUF_SIZE));
      txNext, txClean, txInflight, tdt := 0, 0, 0, 0;
      initialized, ifUp := false, false;
      stats := Stats(0, 0, 0, 0, 0, 0);
      tdh, back, wire, accepted, written, cleaned := 0, 0, [], [], 0, 0;
      new;
      assert desc[..] == Initial().desc && buffers[..] == Initial().buf;
    }

    method ReclaimTx()
      requires Valid()
      modifies this`txClean, this`txInflight, this`cleaned
      ensures Valid() && View() == Reclaim(old(View()))
    {
      while txInflight != 0
        invariant Valid()
        invariant Reclaim(View()) == Reclaim(old(View()))
        decreases txInflight
      {
        if !desc[txClean].done { break; }
        ReclaimOneTx();
      }
    }

    method ReclaimOneTx()
      requires Valid() && txInflight != 0 && desc[txClean].done
      modifies this`txClean, this`txInflight, this`cleaned
      ensures Valid() && View() == ReclaimOnce(old(View()))
    {
      txClean := (txClean + 1) % SIZE;
      txInflight := txInflight - 1;
      cleaned := cleaned + 1;
    }

    method WriteFrame(data: seq<u8>, vlan: Option<u16>)
      requires Valid() && |data| <= BUF_SIZE && txInflight < SIZE - 1
      modifies this`txNext, this`txInflight, this`tdt, this`accepted, desc, buffers
      ensures Valid() && View() == Publish(old(View()), Frame(data, vlan))
    {
      var wireLen := if |data| < MIN_FRAME then MIN_FRAME else |data|;
      buffers[txNext] := data + Zeros(BUF_SIZE - |data|);
      desc[txNext] := Desc(wireLen, vlan, false);
      txNext := (txNext + 1) % SIZE;
      txInflight := txInflight + 1;
      tdt := txNext;
      accepted := accepted + [Frame(data, vlan)];
    }

    method TransmitFrame(data: seq<u8>, meta: Option<TxMeta>) returns (r: Status)
      requires Valid()
      modifies this`txNext, this`txClean, this`txInflight, this`tdt, this`accepted, this`cleaned, desc, buffers
      ensures Valid() && (View(), r) == Transmit(old(View()), initialized, data, meta)
    {
      if |data| > BUF_SIZE || |data| < HEADER_LEN { return Range; }
      if !initialized { return NoDev; }
      if meta.Some? && (meta.value.csum || meta.value.tso) { return Unsupported; }
      ReclaimTx();
      if txInflight >= SIZE - 1 { return Busy; }
      WriteFrame(data, VlanOf(meta));
      r := Ok;
    }

    method SendFrame(data: seq<u8>, meta: Option<TxMeta>) returns (r: Status)
      requires Valid()
      modifies this, desc, buffers
      ensures Valid() && initialized == old(initialized) && ifUp == old(ifUp)
      ensures (View(), stats, r) == Send(old(View()), old(stats), ifUp, initialized, data, meta)
    {
      if |data| < HEADER_LEN || |data| > MAX_FRAME { return Range; }
      if !ifUp { return NoDev; }
      r := TransmitFrame(data, meta);
      if r == Ok {
        stats := stats.(packets := stats.packets + 1, bytes := stats.bytes + |data|,
                        csum := stats.csum + if meta.Some? && meta.value.csum then 1 else 0,
                        vlan := stats.vlan + if meta.Some? && meta.value.vlan then 1 else 0);
      } else if r == Busy {
        stats := stats.(busy := stats.busy + 1);
      } else {
        stats := stats.(errors := stats.errors + 1);
      }
    }
  }
}
