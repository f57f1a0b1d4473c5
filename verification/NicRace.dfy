/** Two reclaims of the transmit ring that are not serialised. The poll routine
    and the interrupt handler of kernel/drivers/rabbit_eth.c call eth_reclaim_tx
    without the lock that transmit holds, so on two processors the loop's test,
    its move of the index and its decrement of the 16-bit count interleave with
    each other, with the publishing part of a transmit and with the device. Each
    of these is one step here. */
module NicRace {
  import opened Ring
  import opened NicTx

  const WRAP: nat := 65536

  datatype Who = Poll | Interrupt

  /** Where a reclaim stands: before the loop's test, after a test that passed,
      after moving the index, or out of the loop. */
  datatype Pc = Testing | Passed | Moved | Left

  datatype Pcs = Pcs(poll: Pc, irq: Pc)

  datatype Race = Race(ring: State, at: Pcs)

  datatype Step = Test(w: Who) | Move(w: Who) | Count(w: Who) | Enter(w: Who)
                | Send(f: Frame) | DeviceFetch | DeviceDone

  function Other(w: Who): Who { if w.Poll? then Interrupt else Poll }

  function PcOf(at: Pcs, w: Who): Pc { if w.Poll? then at.poll else at.irq }

  function SetPc(at: Pcs, w: Who, pc: Pc): Pcs { if w.Poll? then at.(poll := pc) else at.(irq := pc) }

  /** How many of the two reclaims stand at `pc`. */
  function Standing(at: Pcs, pc: Pc): nat {
    (if at.poll == pc then 1 else 0) + if at.irq == pc then 1 else 0
  }

  /** The loop's condition and its break. */
  predicate Ready(s: State)
    requires Shape(s)
  {
    s.inflight != 0 && s.desc[s.clean].done
  }

  /** Whether the step does anything. */
  predicate Takes(count: nat, at: Pcs, step: Step) {
    match step
    case Test(w) => PcOf(at, w) == Testing
    case Move(w) => PcOf(at, w) == Passed
    case Count(w) => PcOf(at, w) == Moved
    case Enter(w) => PcOf(at, w) == Left
    case Send(f) => |f.data| <= BUF_SIZE && count < SIZE - 1
    case DeviceFetch => true
    case DeviceDone => true
  }

  /** Where the reclaims stand after a step that does something. */
  function Placed(at: Pcs, step: Step, ready: bool): Pcs {
    match step
    case Test(w) => SetPc(at, w, if ready then Passed else Left)
    case Move(w) => SetPc(at, w, Moved)
    case Count(w) => SetPc(at, w, Testing)
    case Enter(w) => SetPc(at, w, Testing)
    case _ => at
  }

  /** What the step does to the ring. */
  function Acts(s: State, step: Step): State
    requires Shape(s) && (step.Send? ==> |step.f.data| <= BUF_SIZE)
  {
    match step
    case Move(_) => s.(clean := (s.clean + 1) % SIZE, cleaned := s.cleaned + 1)
    case Count(_) => s.(inflight := (s.inflight + WRAP - 1) % WRAP)
    case Send(f) => Publish(s, f)
    case DeviceFetch => Fetch(s)
    case DeviceDone => WriteBack(s)
    case _ => s
  }

  function Do(r: Race, step: Step): Race
    requires Shape(r.ring)
  {
    if !Takes(r.ring.inflight, r.at, step) then r
    else Race(Acts(r.ring, step), Placed(r.at, step, Ready(r.ring)))
  }

  lemma {:induction false} ActsShape(s: State, step: Step)
    requires Shape(s) && (step.Send? ==> |step.f.data| <= BUF_SIZE)
    ensures Shape(Acts(s, step))
  {}

  function RunOf(r: Race, steps: seq<Step>): (t: Race)
    requires Shape(r.ring)
    ensures Shape(t.ring)
  {
    if steps == [] then r
    else
      var t, step := RunOf(r, steps[..|steps| - 1]), steps[|steps| - 1];
      DoShape(t, step);
      Do(t, step)
  }

  lemma {:induction false} DoShape(r: Race, step: Step)
    requires Shape(r.ring)
    ensures Shape(Do(r, step).ring)
  {
    if Takes(r.ring.inflight, r.at, step) { ActsShape(r.ring, step); }
  }

  lemma {:induction false} RunExtends(r: Race, steps: seq<Step>, step: Step)
    requires Shape(r.ring)
    ensures RunOf(r, steps + [step]) == Do(RunOf(r, steps), step)
  {
    assert (steps + [step])[..|steps|] == steps;
  }

  // ----- Index and count ---------------------------------------------------

  /** Index and count agree up to whole rings, but for the reclaims that have
      moved the one and not yet lowered the other. */
  predicate Agree(cleaned: nat, count: nat, accepted: nat, moved: nat) {
    count < WRAP && (cleaned + count - accepted - moved) % SIZE == 0
  }

  predicate Law(r: Race) {
    && Shape(r.ring)
    && r.ring.clean == Slot(r.ring.cleaned) && r.ring.next == Slot(|r.ring.accepted|)
    && Agree(r.ring.cleaned, r.ring.inflight, |r.ring.accepted|, Standing(r.at, Moved))
  }

  lemma {:induction false} AgreeMoves(cleaned: nat, count: nat, accepted: nat, moved: nat)
    requires Agree(cleaned, count, accepted, moved)
    ensures Agree(cleaned + 1, count, accepted, moved + 1)
    ensures moved > 0 ==> Agree(cleaned, (count + WRAP - 1) % WRAP, accepted, moved - 1)
    ensures count + 1 < WRAP ==> Agree(cleaned, count + 1, accepted + 1, moved)
  {}

  lemma {:induction false} LawKept(r: Race, step: Step)
    requires Law(r)
    ensures Law(Do(r, step))
  {
    var s := r.ring;
    DoShape(r, step);
    AgreeMoves(s.cleaned, s.inflight, |s.accepted|, Standing(r.at, Moved));
    SlotNext(s.cleaned);
    SlotNext(|s.accepted|);
  }

  lemma {:induction false} AgreeSlots(cleaned: nat, count: nat, accepted: nat)
    requires Agree(cleaned, count, accepted, 0)
    ensures (Slot(cleaned) + count) % SIZE == Slot(accepted)
  {}

  lemma {:induction false} RunLaw(r: Race, steps: seq<Step>)
    requires Law(r)
    ensures Law(RunOf(r, steps))
  {
    if steps != [] {
      RunLaw(r, steps[..|steps| - 1]);
      LawKept(RunOf(r, steps[..|steps| - 1]), steps[|steps| - 1]);
    }
  }

  /** Over every schedule, whatever the count has wrapped to: while no reclaim is
      between its two updates, index and count together point at the next free
      descriptor. */
  lemma {:induction false} IndexAndCountAgree(r: Race, steps: seq<Step>)
    requires Law(r)
    ensures var t := RunOf(r, steps);
            Standing(t.at, Moved) == 0 ==> (t.ring.clean + t.ring.inflight) % SIZE == t.ring.next
  {
    RunLaw(r, steps);
    var t := RunOf(r, steps);
    if Standing(t.at, Moved) == 0 { AgreeSlots(t.ring.cleaned, t.ring.inflight, |t.ring.accepted|); }
  }

  // ----- When the count wraps ----------------------------------------------

  /** What the loops' tests see of a state: the count, and whether the device has
      finished with the descriptor at the index. */
  datatype View = View(count: nat, at: Pcs, finished: bool)

  function ViewOf(r: Race): View
    requires Shape(r.ring)
  {
    View(r.ring.inflight, r.at, r.ring.desc[r.ring.clean].done)
  }

  /** The views before, between and after the steps of a run. */
  function Views(r: Race, steps: seq<Step>): (vs: seq<View>)
    requires Shape(r.ring)
    ensures |vs| == |steps| + 1
  {
    seq(|steps| + 1, i requires 0 <= i <= |steps| => ViewOf(RunOf(r, steps[..i])))
  }

  predicate Follows(v: View, step: Step, next: View) {
    && v.count < WRAP
    && next.at == (if Takes(v.count, v.at, step) then Placed(v.at, step, v.count != 0 && v.finished) else v.at)
    && next.count == if !Takes(v.count, v.at, step) then v.count
                     else if step.Count? then (v.count + WRAP - 1) % WRAP
                     else if step.Send? then v.count + 1
                     else v.count
  }

  predicate Trace(vs: seq<View>, steps: seq<Step>) {
    |vs| == |steps| + 1 && forall k :: 0 <= k < |steps| ==> Follows(vs[k], steps[k], vs[k + 1])
  }

  lemma {:induction false} DoFollows(r: Race, step: Step)
    requires Law(r)
    ensures Shape(Do(r, step).ring) && Follows(ViewOf(r), step, ViewOf(Do(r, step)))
  {
    DoShape(r, step);
  }

  lemma {:induction false} ViewsTrace(r: Race, steps: seq<Step>)
    requires Law(r)
    ensures Trace(Views(r, steps), steps) && Views(r, steps)[0] == ViewOf(r)
  {
    forall k | 0 <= k < |steps| ensures Follows(Views(r, steps)[k], steps[k], Views(r, steps)[k + 1]) {
      RunLaw(r, steps[..k]);
      RunExtends(r, steps[..k], steps[k]);
      assert steps[..k] + [steps[k]] == steps[..k + 1];
      DoFollows(RunOf(r, steps[..k]), steps[k]);
    }
  }

  predicate Passes(vs: seq<View>, steps: seq<Step>, i: nat, w: Who)
    requires i < |steps| < |vs|
  {
    steps[i] == Test(w) && PcOf(vs[i].at, w) == Testing && vs[i].count != 0 && vs[i].finished
  }

  predicate Counts(vs: seq<View>, steps: seq<Step>, i: nat, w: Who)
    requires i < |steps| < |vs|
  {
    steps[i] == Count(w) && PcOf(vs[i].at, w) == Moved
  }

  predicate Sends(vs: seq<View>, steps: seq<Step>, i: nat)
    requires i < |steps| < |vs|
  {
    steps[i].Send? && Takes(vs[i].count, vs[i].at, steps[i])
  }

  /** The test at `p` passed and its decrement has not come before step `n`. */
  predicate Claim(vs: seq<View>, steps: seq<Step>, p: nat, n: nat, w: Who)
    requires n <= |steps| < |vs|
  {
    p < n && Passes(vs, steps, p, w) && forall k :: p < k < n ==> !Counts(vs, steps, k, w)
  }

  /** Step `j` is the other reclaim's decrement of the last outstanding
      descriptor, and nothing is sent from there to step `n`. */
  predicate TakesLast(vs: seq<View>, steps: seq<Step>, j: nat, n: nat, w: Who)
    requires n <= |steps| < |vs|
  {
    && j < n && Counts(vs, steps, j, Other(w)) && vs[j].count == 1
    && forall k :: j < k < n ==> !Sends(vs, steps, k)
  }

  /** Both tests, `p` and `q`, come before either decrement, `j` and `i`, of the
      last outstanding descriptor. */
  ghost predicate BothBeforeEither(vs: seq<View>, steps: seq<Step>, i: nat, w: Who)
    requires i < |steps| < |vs|
  {
    exists p: nat, q: nat, j: nat ::
      Claim(vs, steps, p, i, w) && p < j && TakesLast(vs, steps, j, i, w) && Claim(vs, steps, q, j, Other(w))
  }

  predicate Holding(at: Pcs, w: Who) { PcOf(at, w).Passed? || PcOf(at, w).Moved? }

  lemma {:induction false} HoldingHasTested(vs: seq<View>, steps: seq<Step>, n: nat, w: Who) returns (p: nat)
    requires Trace(vs, steps) && n <= |steps| && !Holding(vs[0].at, w) && Holding(vs[n].at, w)
    ensures Claim(vs, steps, p, n, w)
  {
    assert Follows(vs[n - 1], steps[n - 1], vs[n]);
    if Holding(vs[n - 1].at, w) {
      p := HoldingHasTested(vs, steps, n - 1, w);
    } else {
      p := n - 1;
    }
  }

  /** Under a claim the count can reach zero only by the other's decrement. */
  lemma {:induction false} ZeroUnderClaim(vs: seq<View>, steps: seq<Step>, p: nat, n: nat, w: Who) returns (j: nat)
    requires Trace(vs, steps) && n <= |steps| && Claim(vs, steps, p, n, w) && vs[n].count == 0
    ensures p < j && TakesLast(vs, steps, j, n, w)
  {
    assert Follows(vs[n - 1], steps[n - 1], vs[n]);
    if vs[n - 1].count == 0 {
      j := ZeroUnderClaim(vs, steps, p, n - 1, w);
    } else {
      j := n - 1;
      assert j > p ==> !Counts(vs, steps, j, w);
    }
  }

  lemma {:induction false} StaysZero(vs: seq<View>, steps: seq<Step>, p: nat, j: nat, n: nat, i: nat, w: Who)
    requires Trace(vs, steps) && i < |steps| && p < j < n <= i
    requires Claim(vs, steps, p, i, w) && TakesLast(vs, steps, j, i, w)
    ensures vs[n].count == 0 && !Holding(vs[n].at, Other(w))
    decreases n
  {
    assert Follows(vs[n - 1], steps[n - 1], vs[n]);
    if n - 1 > j {
      StaysZero(vs, steps, p, j, n - 1, i, w);
      assert !Counts(vs, steps, n - 1, w) && !Sends(vs, steps, n - 1);
    }
  }

  lemma {:induction false} TraceWraps(vs: seq<View>, steps: seq<Step>, i: nat, w: Who)
    requires Trace(vs, steps) && !Holding(vs[0].at, Poll) && !Holding(vs[0].at, Interrupt)
    requires i < |steps| && Counts(vs, steps, i, w)
    ensures vs[i + 1].count == WRAP - 1 <==> BothBeforeEither(vs, steps, i, w)
  {
    assert Follows(vs[i], steps[i], vs[i + 1]);
    assert vs[i + 1].count == WRAP - 1 <==> vs[i].count == 0;
    if vs[i].count == 0 {
      var p := HoldingHasTested(vs, steps, i, w);
      var j := ZeroUnderClaim(vs, steps, p, i, w);
      var q := HoldingHasTested(vs, steps, j, Other(w));
      assert BothBeforeEither(vs, steps, i, w);
    }
    if BothBeforeEither(vs, steps, i, w) {
      var p: nat, q: nat, j: nat :|
        Claim(vs, steps, p, i, w) && p < j && TakesLast(vs, steps, j, i, w) && Claim(vs, steps, q, j, Other(w));
      StaysZero(vs, steps, p, j, i, i, w);
    }
  }

  /** Over every schedule: a decrement wraps the count to 65535 if and only if
      both reclaims passed the test of the last outstanding descriptor before
      either decrement, and no frame was sent between the two decrements. */
  lemma {:induction false} WrapsIff(r: Race, steps: seq<Step>, i: nat, w: Who)
    requires Law(r) && !Holding(r.at, Poll) && !Holding(r.at, Interrupt)
    requires i < |steps| && Counts(Views(r, steps), steps, i, w)
    ensures Views(r, steps)[i + 1].count == WRAP - 1 <==> BothBeforeEither(Views(r, steps), steps, i, w)
  {
    ViewsTrace(r, steps);
    TraceWraps(Views(r, steps), steps, i, w);
  }

  // ----- What is left when both loops finish -------------------------------

  /** Descriptors the device has not finished with. */
  function Owned(s: State): int { |s.accepted| - s.written }

  /** How far the driver's index stands past the oldest of them, around the
      ring. */
  function Ahead(s: State): nat { (s.cleaned - s.written) % SIZE }

  /** The device's side of the ring, and the done bit of every slot: clear from
      the oldest descriptor the device owns to the newest, set on all others. */
  predicate Settled(s: State) {
    && Shape(s)
    && s.clean == Slot(s.cleaned) && s.next == s.tdt == Slot(|s.accepted|)
    && s.tdh == Slot(|s.wire|) && s.back == Slot(s.written)
    && s.written <= |s.wire| <= |s.accepted| < s.written + SIZE
    && forall x :: 0 <= x < SIZE ==> BitIs(s, x)
  }

  predicate BitIs(s: State, x: nat)
    requires Shape(s)
  {
    s.desc[Slot(s.written + x)].done <==> x >= Owned(s)
  }

  lemma {:induction false} SlotAhead(cleaned: nat, written: nat)
    ensures Slot(cleaned) == Slot(written + (cleaned - written) % SIZE)
  {}

  lemma {:induction false} BitAtClean(s: State)
    requires Settled(s)
    ensures s.desc[s.clean].done <==> Ahead(s) >= Owned(s)
  {
    SlotAhead(s.cleaned, s.written);
    assert BitIs(s, Ahead(s));
  }

  /** The index never stands more than one past the oldest descriptor the device
      owns; it stands on it with at most one test passed, and past it with
      none. */
  predicate AtMostOneAhead(ahead: nat, owned: int, passed: nat) {
    owned >= 1 ==>
      && (ahead == 0 ==> passed <= 1)
      && (1 <= ahead <= owned ==> ahead == 1 && (owned >= 2 ==> passed == 0))
  }

  predicate Near(r: Race) {
    Settled(r.ring) && AtMostOneAhead(Ahead(r.ring), Owned(r.ring), Standing(r.at, Passed))
  }

  lemma {:induction false} AheadMoves(cleaned: nat, written: nat)
    ensures var x := (cleaned - written) % SIZE;
            && (cleaned + 1 - written) % SIZE == (if x == SIZE - 1 then 0 else x + 1)
            && (cleaned - written - 1) % SIZE == (if x == 0 then SIZE - 1 else x - 1)
  {}

  lemma {:induction false} TestNear(r: Race, w: Who)
    requires Near(r)
    ensures Near(Do(r, Test(w)))
  {
    BitAtClean(r.ring);
  }

  lemma {:induction false} SameBits(s: State, t: State)
    requires Settled(s) && Shape(t) && t.desc == s.desc && t.written == s.written && |t.accepted| == |s.accepted|
    ensures forall x :: 0 <= x < SIZE ==> BitIs(t, x)
  {
    forall x | 0 <= x < SIZE ensures BitIs(t, x) { assert BitIs(s, x); }
  }

  lemma {:induction false} MoveNear(r: Race, w: Who)
    requires Near(r)
    ensures Near(Do(r, Move(w)))
  {
    if PcOf(r.at, w) == Passed {
      var s, t := r.ring, Do(r, Move(w)).ring;
      SlotNext(s.cleaned);
      AheadMoves(s.cleaned, s.written);
      SameBits(s, t);
    }
  }

  lemma {:induction false} CountNear(r: Race, w: Who)
    requires Near(r)
    ensures Near(Do(r, Count(w)))
  {
    if PcOf(r.at, w) == Moved { SameBits(r.ring, Do(r, Count(w)).ring); }
  }

  lemma {:induction false} FetchNear(r: Race)
    requires Near(r)
    ensures Near(Do(r, DeviceFetch))
  {
    var s, t := r.ring, Do(r, DeviceFetch).ring;
    if s.tdh != s.tdt {
      SlotNext(|s.wire|);
      ActsShape(s, DeviceFetch);
      SameBits(s, t);
    }
  }

  lemma {:induction false} DoneBitsMove(s: State, t: State)
    requires Settled(s) && s.written < |s.wire| && s.back != s.tdh && t == WriteBack(s) && Shape(t)
    ensures forall x :: 0 <= x < SIZE ==> BitIs(t, x)
  {
    forall x | 0 <= x < SIZE ensures BitIs(t, x) {
      if x == SIZE - 1 {
        SlotRound(s.written);
      } else {
        SlotsDistinct(s.written, s.written + 1 + x);
        assert BitIs(s, x + 1);
      }
    }
  }

  lemma {:induction false} DoneNear(r: Race)
    requires Near(r)
    ensures Near(Do(r, DeviceDone))
  {
    var s, t := r.ring, Do(r, DeviceDone).ring;
    if s.back != s.tdh {
      SlotNext(s.written);
      ActsShape(s, DeviceDone);
      DoneBitsMove(s, t);
      AheadMoves(s.cleaned, s.written);
    }
  }

  lemma {:induction false} StepNear(r: Race, step: Step)
    requires Near(r) && !step.Send?
    ensures Near(Do(r, step))
  {
    match step
    case Test(w) => TestNear(r, w);
    case Move(w) => MoveNear(r, w);
    case Count(w) => CountNear(r, w);
    case Enter(_) =>
    case DeviceFetch => FetchNear(r);
    case DeviceDone => DoneNear(r);
  }

  predicate NoSends(steps: seq<Step>) {
    forall i :: 0 <= i < |steps| ==> !steps[i].Send?
  }

  lemma {:induction false} RunNear(r: Race, steps: seq<Step>)
    requires Near(r) && NoSends(steps)
    ensures Near(RunOf(r, steps))
  {
    if steps != [] {
      RunNear(r, steps[..|steps| - 1]);
      StepNear(RunOf(r, steps[..|steps| - 1]), steps[|steps| - 1]);
    }
  }

  lemma {:induction false} AheadAtStart(cleaned: nat, written: nat, accepted: nat)
    requires cleaned <= written <= accepted < cleaned + SIZE
    ensures AtMostOneAhead((cleaned - written) % SIZE, accepted - written, 0)
  {}

  /** A state of the serialised protocol, both reclaims about to begin. */
  function Begin(s: State): Race { Race(s, Pcs(Testing, Testing)) }

  lemma {:induction false} BeginNear(s: State)
    requires Inv(s)
    ensures Near(Begin(s)) && Law(Begin(s))
  {
    forall x | 0 <= x < SIZE ensures BitIs(s, x) {
      var k := s.written + x;
      if k >= s.cleaned + SIZE {
        SlotRound(k - SIZE);
        assert s.desc[Slot(k - SIZE)].done;
      }
    }
    AheadAtStart(s.cleaned, s.written, |s.accepted|);
  }

  /** From every reachable state and over every schedule of the two reclaims and
      the device, at most one descriptor that the device owns is passed over. */
  lemma {:induction false} AtMostOnePassedOver(s: State, steps: seq<Step>)
    requires Inv(s) && NoSends(steps)
    ensures var t := RunOf(Begin(s), steps).ring;
            Ahead(t) < Owned(t) ==> Ahead(t) <= 1
  {
    BeginNear(s);
    RunNear(Begin(s), steps);
  }

  predicate ReclaimsOnly(steps: seq<Step>) {
    forall i :: 0 <= i < |steps| ==> steps[i].Test? || steps[i].Move? || steps[i].Count?
  }

  /** The loops have ended, and for a reason. */
  predicate Stopped(r: Race)
    requires Shape(r.ring)
  {
    r.at == Pcs(Left, Left) ==> !Ready(r.ring)
  }

  /** With two or more descriptors owned by the device the count is exact. */
  predicate Exact(r: Race) {
    Owned(r.ring) >= 2 ==>
      && r.ring.cleaned <= r.ring.written + 1 && |r.ring.accepted| < r.ring.cleaned + SIZE
      && r.ring.inflight == |r.ring.accepted| - r.ring.cleaned + Standing(r.at, Moved)
  }

  lemma {:induction false} StepExact(r: Race, step: Step)
    requires Near(r) && Law(r) && Exact(r) && (step.Test? || step.Move? || step.Count?)
    ensures Exact(Do(r, step))
  {
    if Owned(r.ring) >= 2 && step.Move? { OneAhead(r.ring.cleaned, r.ring.written); }
    if Owned(r.ring) >= 2 && step.Count? && PcOf(r.at, step.w) == Moved { CountDown(r.ring.inflight); }
  }

  lemma {:induction false} CountDown(x: nat)
    requires 1 <= x < WRAP
    ensures (x + WRAP - 1) % WRAP == x - 1
  {}

  lemma {:induction false} StepStops(r: Race, step: Step)
    requires Shape(r.ring) && Stopped(r) && (step.Test? || step.Move? || step.Count?)
    ensures var t := Do(r, step);
            Shape(t.ring) && Stopped(t) && t.ring == r.ring.(clean := t.ring.clean, cleaned := t.ring.cleaned, inflight := t.ring.inflight)
  {
    DoShape(r, step);
  }

  lemma {:induction false} OneAhead(cleaned: nat, written: nat)
    requires cleaned <= written + 1
    ensures cleaned == written + 1 ==> (cleaned - written) % SIZE == 1
  {}

  lemma {:induction false} ReclaimRun(s: State, steps: seq<Step>)
    requires Inv(s) && ReclaimsOnly(steps)
    ensures var t := RunOf(Begin(s), steps);
            && Near(t) && Law(t) && Exact(t) && Stopped(t)
            && t.ring == s.(clean := t.ring.clean, cleaned := t.ring.cleaned, inflight := t.ring.inflight)
  {
    BeginNear(s);
    RunNear(Begin(s), steps);
    RunLaw(Begin(s), steps);
    if steps != [] {
      var init, step := steps[..|steps| - 1], steps[|steps| - 1];
      ReclaimRun(s, init);
      StepExact(RunOf(Begin(s), init), step);
      StepStops(RunOf(Begin(s), init), step);
    }
  }

  /** The slots the index and the count name when both loops have ended. */
  lemma {:induction false} EndOfLoops(cleaned: nat, written: nat, accepted: nat, count: nat, done: bool)
    requires written <= accepted < written + SIZE && Agree(cleaned, count, accepted, 0)
    requires AtMostOneAhead((cleaned - written) % SIZE, accepted - written, 0)
    requires done <==> (cleaned - written) % SIZE >= accepted - written
    requires count == 0 || !done
    ensures var lost := (cleaned - written) % SIZE;
            && lost <= 1 && lost <= accepted - written
            && Slot(cleaned) == Slot(written + lost) && count % SIZE == accepted - written - lost
    ensures accepted == written ==> count == 0
  {
    SlotAhead(cleaned, written);
  }

  /** The index and count two reclaims leave, against those of a serialised one. */
  predicate LeftBehind(clean: nat, count: nat, serialClean: nat, serialCount: nat) {
    && (|| (clean == serialClean && count % SIZE == serialCount)
        || (serialCount > 0 && clean == (serialClean + 1) % SIZE && count % SIZE == serialCount - 1))
    && (serialCount >= 2 ==> count < SIZE)
    && (serialCount == 0 ==> count == 0)
  }

  lemma {:induction false} ReclaimEnds(s: State)
    requires Inv(s)
    ensures Reclaim(s).clean == s.back && Reclaim(s).inflight == Owned(s)
  {
    ReclaimReachesWriteBack(s);
  }

  lemma {:induction false} Behind(written: nat, owned: nat, lost: nat, clean: nat, count: nat)
    requires lost <= 1 && lost <= owned && clean == Slot(written + lost) && count % SIZE == owned - lost
    requires (owned >= 2 ==> count < SIZE) && (owned == 0 ==> count == 0)
    ensures LeftBehind(clean, count, Slot(written), owned)
  {
    SlotNext(written);
  }

  lemma {:induction false} BothLeft(r: Race)
    requires Near(r) && Law(r) && Exact(r) && Stopped(r) && r.at == Pcs(Left, Left)
    ensures LeftBehind(r.ring.clean, r.ring.inflight, r.ring.back, Owned(r.ring))
  {
    var t := r.ring;
    BitAtClean(t);
    EndOfLoops(t.cleaned, t.written, |t.accepted|, t.inflight, t.desc[t.clean].done);
    Behind(t.written, Owned(t), Ahead(t), t.clean, t.inflight);
  }

  /** What two reclaims leave behind, over every schedule of their steps from
      every reachable state. Either the index stands where a serialised reclaim
      leaves it, or one descriptor further, past one the device still owns; the
      count goes with the index, up to whole rings, and exactly when the device
      owns two or more. If it owns none, a count that wrapped has come back to
      zero and nothing is left of the race. */
  lemma {:induction false} WhatTwoReclaimsLeave(s: State, steps: seq<Step>)
    requires Inv(s) && ReclaimsOnly(steps) && RunOf(Begin(s), steps).at == Pcs(Left, Left)
    ensures var t, u := RunOf(Begin(s), steps).ring, Reclaim(s);
            && t == s.(clean := t.clean, cleaned := t.cleaned, inflight := t.inflight)
            && LeftBehind(t.clean, t.inflight, u.clean, u.inflight)
  {
    ReclaimRun(s, steps);
    ReclaimEnds(s);
    BothLeft(RunOf(Begin(s), steps));
  }

  // ----- How a descriptor is passed over -----------------------------------

  predicate Moves(vs: seq<View>, steps: seq<Step>, i: nat, w: Who)
    requires i < |steps| < |vs|
  {
    steps[i] == Move(w) && PcOf(vs[i].at, w) == Passed
  }

  /** Only a move of the index changes which descriptor is looked at. */
  predicate Steady(vs: seq<View>, steps: seq<Step>)
    requires |steps| < |vs|
  {
    forall k, w :: 0 <= k < |steps| && !Moves(vs, steps, k, w) && !Moves(vs, steps, k, Other(w)) ==> vs[k + 1].finished == vs[k].finished
  }

  lemma {:induction false} ReclaimsAreSteady(r: Race, steps: seq<Step>)
    requires Shape(r.ring) && ReclaimsOnly(steps)
    ensures Steady(Views(r, steps), steps)
  {
    var vs := Views(r, steps);
    forall k, w | 0 <= k < |steps| && !Moves(vs, steps, k, w) && !Moves(vs, steps, k, Other(w))
      ensures vs[k + 1].finished == vs[k].finished
    {
      RunExtends(r, steps[..k], steps[k]);
      assert steps[..k] + [steps[k]] == steps[..k + 1];
      SteadyStep(RunOf(r, steps[..k]), steps[k], w);
    }
  }

  lemma {:induction false} SteadyStep(r: Race, step: Step, w: Who)
    requires Shape(r.ring) && (step.Test? || step.Move? || step.Count?)
    requires !(step == Move(w) && PcOf(r.at, w) == Passed) && !(step == Move(Other(w)) && PcOf(r.at, Other(w)) == Passed)
    ensures Shape(Do(r, step).ring) && ViewOf(Do(r, step)).finished == ViewOf(r).finished
  {}

  /** The reclaim tested at `p` and has waited since then to move the index. */
  predicate Waits(vs: seq<View>, steps: seq<Step>, p: nat, n: nat, w: Who)
    requires n <= |steps| < |vs|
  {
    p < n && Passes(vs, steps, p, w) && forall k :: p < k <= n ==> PcOf(vs[k].at, w) == Passed
  }

  /** Step `j` is the other reclaim's last move before step `n`, and it moved
      onto a descriptor the device has not finished with. */
  predicate MovesOnto(vs: seq<View>, steps: seq<Step>, j: nat, n: nat, w: Who)
    requires n <= |steps| < |vs|
  {
    && j < n && Moves(vs, steps, j, Other(w)) && !vs[j + 1].finished
    && forall k :: j < k < n ==> !Moves(vs, steps, k, Other(w))
  }

  ghost predicate Overtaken(vs: seq<View>, steps: seq<Step>, i: nat, w: Who)
    requires i < |steps| < |vs|
  {
    exists p: nat, j: nat :: Waits(vs, steps, p, i, w) && p < j && MovesOnto(vs, steps, j, i, w)
  }

  lemma {:induction false} WaitingHasTested(vs: seq<View>, steps: seq<Step>, n: nat, w: Who) returns (p: nat)
    requires Trace(vs, steps) && n <= |steps| && !Holding(vs[0].at, w) && PcOf(vs[n].at, w) == Passed
    ensures Waits(vs, steps, p, n, w)
  {
    assert Follows(vs[n - 1], steps[n - 1], vs[n]);
    if PcOf(vs[n - 1].at, w) == Passed {
      p := WaitingHasTested(vs, steps, n - 1, w);
    } else {
      p := n - 1;
    }
  }

  lemma {:induction false} UnfinishedWhileWaiting(vs: seq<View>, steps: seq<Step>, p: nat, n: nat, w: Who) returns (j: nat)
    requires Trace(vs, steps) && Steady(vs, steps) && n <= |steps| && Waits(vs, steps, p, n, w) && !vs[n].finished
    ensures p < j && MovesOnto(vs, steps, j, n, w)
  {
    assert !Moves(vs, steps, n - 1, w) by { assert Follows(vs[n - 1], steps[n - 1], vs[n]); }
    if Moves(vs, steps, n - 1, Other(w)) {
      j := n - 1;
    } else {
      j := UnfinishedWhileWaiting(vs, steps, p, n - 1, w);
    }
  }

  lemma {:induction false} StaysUnfinished(vs: seq<View>, steps: seq<Step>, p: nat, j: nat, n: nat, i: nat, w: Who)
    requires Trace(vs, steps) && Steady(vs, steps) && i < |steps| && p < j < n <= i
    requires Waits(vs, steps, p, i, w) && MovesOnto(vs, steps, j, i, w)
    ensures !vs[n].finished
    decreases n
  {
    if n - 1 > j {
      StaysUnfinished(vs, steps, p, j, n - 1, i, w);
      assert !Moves(vs, steps, n - 1, w) by { assert Follows(vs[n - 1], steps[n - 1], vs[n]); }
      assert !Moves(vs, steps, n - 1, Other(w));
    }
  }

  /** Over every schedule of the two reclaims: a move passes over a descriptor the
      device has not finished with if and only if, between that reclaim's test
      and its move, the other one took the last finished descriptor. */
  lemma {:induction false} PassesOverIff(r: Race, steps: seq<Step>, i: nat, w: Who)
    requires Law(r) && ReclaimsOnly(steps) && !Holding(r.at, Poll) && !Holding(r.at, Interrupt)
    requires i < |steps| && Moves(Views(r, steps), steps, i, w)
    ensures !Views(r, steps)[i].finished <==> Overtaken(Views(r, steps), steps, i, w)
  {
    ViewsTrace(r, steps);
    ReclaimsAreSteady(r, steps);
    TraceOvertaken(Views(r, steps), steps, i, w);
  }

  lemma {:induction false} TraceOvertaken(vs: seq<View>, steps: seq<Step>, i: nat, w: Who)
    requires Trace(vs, steps) && Steady(vs, steps) && !Holding(vs[0].at, w)
    requires i < |steps| && Moves(vs, steps, i, w)
    ensures !vs[i].finished <==> Overtaken(vs, steps, i, w)
  {
    if !vs[i].finished {
      var p := WaitingHasTested(vs, steps, i, w);
      var j := UnfinishedWhileWaiting(vs, steps, p, i, w);
      assert Overtaken(vs, steps, i, w);
    }
    if Overtaken(vs, steps, i, w) {
      var p: nat, j: nat :| Waits(vs, steps, p, i, w) && p < j && MovesOnto(vs, steps, j, i, w);
      StaysUnfinished(vs, steps, p, j, i, i, w);
    }
  }

  // ----- What a descriptor passed over can lead to -------------------------

  /** The driver counts one descriptor less than the device owns, and the device
      has not taken any of those it owns. */
  predicate OneLost(s: State) {
    && Shape(s)
    && s.tdh == s.back == Slot(s.written) && s.clean == Slot(s.written + 1)
    && s.next == s.tdt == Slot(|s.accepted|)
    && s.written < |s.accepted| <= s.written + SIZE && s.inflight == |s.accepted| - s.written - 1
    && (|s.accepted| > s.written + 1 ==> !s.desc[Slot(s.written + 1)].done)
  }

  function Sending(fs: seq<Frame>): (steps: seq<Step>)
    ensures |steps| == |fs|
  {
    seq(|fs|, i requires 0 <= i < |fs| => Send(fs[i]))
  }

  predicate FramesFit(fs: seq<Frame>) { forall i :: 0 <= i < |fs| ==> |fs[i].data| <= BUF_SIZE }

  lemma {:induction false} SendLost(s: State, f: Frame)
    requires OneLost(s) && |s.accepted| < s.written + SIZE && |f.data| <= BUF_SIZE
    ensures s.inflight < SIZE - 1 && OneLost(Publish(s, f))
  {
    var t := Publish(s, f);
    SlotNext(|s.accepted|);
    ActsShape(s, Send(f));
    if |s.accepted| > s.written + 1 { SlotsDistinct(s.written + 1, |s.accepted|); }
  }

  /** Such a send is what a transmit does to the ring: its own reclaim finds
      nothing to free. */
  lemma {:induction false} LostSendIsTransmit(s: State, data: seq<u8>, meta: Option<TxMeta>)
    requires OneLost(s) && s.inflight < SIZE - 1
    requires HEADER_LEN <= |data| <= BUF_SIZE && !(meta.Some? && (meta.value.csum || meta.value.tso))
    ensures Transmit(s, true, data, meta) == (Publish(s, Frame(data, VlanOf(meta))), Ok)
  {}

  lemma {:induction false} SendManyLost(r: Race, fs: seq<Frame>)
    requires OneLost(r.ring) && FramesFit(fs) && |r.ring.accepted| + |fs| <= r.ring.written + SIZE
    ensures var t := RunOf(r, Sending(fs));
            && OneLost(t.ring) && t.at == r.at && t.ring.accepted == r.ring.accepted + fs
            && t.ring.wire == r.ring.wire && t.ring.written == r.ring.written
  {
    if fs == [] {
      assert Sending(fs) == [] && r.ring.accepted + fs == r.ring.accepted;
    } else {
      var init, f := fs[..|fs| - 1], fs[|fs| - 1];
      SendManyLost(r, init);
      assert Sending(fs) == Sending(init) + [Send(f)];
      RunExtends(r, Sending(init), Send(f));
      SendLost(RunOf(r, Sending(init)).ring, f);
      assert r.ring.accepted + init + [f] == r.ring.accepted + fs;
    }
  }

  /** The device sees an empty ring, the driver a full one. */
  predicate Stalled(r: Race) {
    && Shape(r.ring) && r.ring.tdh == r.ring.tdt == r.ring.back
    && r.ring.inflight == SIZE - 1 && !r.ring.desc[r.ring.clean].done
    && !Holding(r.at, Poll) && !Holding(r.at, Interrupt)
  }

  lemma {:induction false} StalledStep(r: Race, step: Step)
    requires Stalled(r)
    ensures Stalled(Do(r, step)) && Do(r, step).ring == r.ring
  {}

  /** A stalled ring stays as it is whatever driver and device do. */
  lemma {:induction false} StalledForever(r: Race, steps: seq<Step>)
    requires Stalled(r)
    ensures Stalled(RunOf(r, steps)) && RunOf(r, steps).ring == r.ring
  {
    if steps != [] {
      StalledForever(r, steps[..|steps| - 1]);
      StalledStep(RunOf(r, steps[..|steps| - 1]), steps[|steps| - 1]);
    }
  }

  /** And every transmit that passes the other checks is refused as busy. */
  lemma {:induction false} StalledIsBusy(r: Race, data: seq<u8>, meta: Option<TxMeta>)
    requires Stalled(r) && HEADER_LEN <= |data| <= BUF_SIZE && !(meta.Some? && (meta.value.csum || meta.value.tso))
    ensures Transmit(r.ring, true, data, meta) == (r.ring, Busy)
  {}

  lemma {:induction false} FullIsStalled(r: Race)
    requires OneLost(r.ring) && |r.ring.accepted| == r.ring.written + SIZE && r.at == Pcs(Left, Left)
    ensures Stalled(r)
  {
    SlotRound(r.ring.written);
  }

  lemma {:induction false} RunConcat(r: Race, a: seq<Step>, b: seq<Step>)
    requires Shape(r.ring)
    ensures RunOf(r, a + b) == RunOf(RunOf(r, a), b)
  {
    if b == [] {
      assert a + b == a;
    } else {
      var init, last := b[..|b| - 1], b[|b| - 1];
      RunConcat(r, a, init);
      LastStep(a, b);
      RunExtends(r, a + init, last);
      RunExtends(RunOf(r, a), init, last);
    }
  }

  lemma {:induction false} LastStep(a: seq<Step>, b: seq<Step>)
    requires b != []
    ensures a + b == (a + b[..|b| - 1]) + [b[|b| - 1]] && b == b[..|b| - 1] + [b[|b| - 1]]
  {}

  /** Once a descriptor is lost, filling the ring before the device takes the next
      one stops it for good: it sees an empty ring although 64 frames wait, every
      transmit finds 63 in flight, and no step of anyone changes that. */
  lemma {:induction false} LostDescriptorCanStall(r: Race, fs: seq<Frame>, later: seq<Step>)
    requires OneLost(r.ring) && r.at == Pcs(Left, Left)
    requires FramesFit(fs) && |r.ring.accepted| + |fs| == r.ring.written + SIZE
    ensures var t := RunOf(r, Sending(fs) + later).ring;
            && t.wire == r.ring.wire && t.accepted == r.ring.accepted + fs && t.inflight == SIZE - 1
            && t.tdh == t.tdt && |t.accepted| - t.written == SIZE
  {
    SendManyLost(r, fs);
    var full := RunOf(r, Sending(fs));
    FullIsStalled(full);
    StalledForever(full, later);
    RunConcat(r, Sending(fs), later);
  }

  // ----- Schedules ---------------------------------------------------------

  /** Both test, both move, both count, and both leave the loop. */
  function Overlap(): seq<Step> { Front() + Back() }

  function Front(): seq<Step> { [Test(Poll), Test(Interrupt), Move(Poll), Move(Interrupt)] }

  function Back(): seq<Step> { [Count(Poll), Count(Interrupt), Test(Poll), Test(Interrupt)] }

  lemma {:induction false} RunFour(r: Race, a: Step, b: Step, c: Step, d: Step)
    requires Shape(r.ring)
    ensures Shape(Do(r, a).ring) && Shape(Do(Do(r, a), b).ring) && Shape(Do(Do(Do(r, a), b), c).ring)
    ensures RunOf(r, [a, b, c, d]) == Do(Do(Do(Do(r, a), b), c), d)
  {
    RunTwo(r, a, b);
    RunTwo(RunOf(r, [a, b]), c, d);
    RunConcat(r, [a, b], [c, d]);
    assert [a, b] + [c, d] == [a, b, c, d];
  }

  lemma {:induction false} RunTwo(r: Race, a: Step, b: Step)
    requires Shape(r.ring)
    ensures Shape(Do(r, a).ring) && RunOf(r, [a, b]) == Do(Do(r, a), b)
  {
    DoShape(r, a);
    RunExtends(r, [], a);
    RunExtends(r, [a], b);
    assert [] + [a] == [a] && [a] + [b] == [a, b];
  }

  lemma {:induction false} FrontMovesTwice(s: State)
    requires Shape(s) && Ready(s)
    ensures RunOf(Begin(s), Front())
            == Race(s.(clean := ((s.clean + 1) % SIZE + 1) % SIZE, cleaned := s.cleaned + 2), Pcs(Moved, Moved))
  {
    RunFour(Begin(s), Test(Poll), Test(Interrupt), Move(Poll), Move(Interrupt));
  }

  lemma {:induction false} BackCountsTwice(s: State)
    requires Shape(s) && 2 <= s.inflight < WRAP && (s.inflight == 2 || !s.desc[s.clean].done)
    ensures RunOf(Race(s, Pcs(Moved, Moved)), Back()) == Race(s.(inflight := s.inflight - 2), Pcs(Left, Left))
  {
    RunFour(Race(s, Pcs(Moved, Moved)), Count(Poll), Count(Interrupt), Test(Poll), Test(Interrupt));
  }

  /** Two reclaims that overlap on the only finished descriptor pass over the one
      after it, which the device still owns. */
  lemma {:induction false} OverlapLosesOne(s: State)
    requires Inv(s) && s.cleaned + 1 == s.written < |s.accepted|
    ensures var t := RunOf(Begin(s), Overlap());
            && t.at == Pcs(Left, Left)
            && t.ring == s.(clean := Slot(s.written + 1), cleaned := s.written + 1, inflight := Owned(s) - 1)
  {
    SlotNext(s.cleaned);
    SlotNext(s.written);
    assert s.desc[Slot(s.cleaned)].done;
    FrontMovesTwice(s);
    var t := RunOf(Begin(s), Front()).ring;
    if Owned(s) >= 2 { assert !s.desc[Slot(s.written + 1)].done; }
    BackCountsTwice(t);
    RunConcat(Begin(s), Front(), Back());
  }

  lemma {:induction false} OverlapIsLoss(s: State)
    requires Inv(s) && s.cleaned + 1 == s.written == |s.wire| < |s.accepted|
    ensures OneLost(RunOf(Begin(s), Overlap()).ring)
  {
    OverlapLosesOne(s);
    if Owned(s) >= 2 { assert !s.desc[Slot(s.written + 1)].done; }
  }

  /** From every reachable state with one descriptor to reclaim and the others not
      yet taken by the device: two overlapping reclaims, and enough frames to fill
      the ring before the device goes on, and nothing is ever sent again. */
  lemma {:induction false} OverlapCanStall(s: State, fs: seq<Frame>, later: seq<Step>)
    requires Inv(s) && s.cleaned + 1 == s.written == |s.wire| < |s.accepted|
    requires FramesFit(fs) && |s.accepted| + |fs| == s.written + SIZE
    ensures var t := RunOf(Begin(s), Overlap() + (Sending(fs) + later)).ring;
            t.wire == s.wire && t.accepted == s.accepted + fs && |t.accepted| - t.written == SIZE && t.inflight == SIZE - 1
  {
    OverlapLosesOne(s);
    OverlapIsLoss(s);
    LostDescriptorCanStall(RunOf(Begin(s), Overlap()), fs, later);
    RunConcat(Begin(s), Overlap(), Sending(fs) + later);
  }

  /** Two frames sent, and the first of them finished, is such a state. */
  lemma {:induction false} StallIsReachable(data: seq<u8>)
    requires HEADER_LEN <= |data| <= BUF_SIZE
    ensures var send := OpTransmit(true, data, None);
            var s := Run([send, send] + [OpFetch] + [OpWriteBack]);
            s.cleaned == 0 && s.written == |s.wire| == 1 && |s.accepted| == 2
  {
    var send := OpTransmit(true, data, None);
    var s := AfterTwoSends(data, send);
    var t := FinishesOne([send, send]);
  }

  lemma {:induction false} FinishesOne(ops: seq<Op>) returns (t: State)
    requires Run(ops).written == 0 && Run(ops).wire == [] && |Run(ops).accepted| == 2
    ensures t == Run(ops + [OpFetch] + [OpWriteBack])
    ensures t.written == |t.wire| == 1 && t.cleaned == Run(ops).cleaned && |t.accepted| == 2
  {
    var u := TakesOne(ops);
    t := HandsBackOne(ops + [OpFetch]);
  }

  lemma {:induction false} AfterTwoSends(data: seq<u8>, send: Op) returns (s: State)
    requires HEADER_LEN <= |data| <= BUF_SIZE && send == OpTransmit(true, data, None)
    ensures s == Run([send, send]) && s.written == 0 && s.cleaned == 0 && s.wire == [] && |s.accepted| == 2
  {
    var s1 := SendsOne(Run([]), data);
    s := SendsOne(s1, data);
    RunSnoc([], send);
    RunSnoc([send], send);
    assert [] + [send] == [send] && [send] + [send] == [send, send];
  }

  lemma {:induction false} TakesOne(ops: seq<Op>) returns (t: State)
    requires Run(ops).written == 0 && Run(ops).wire == [] && |Run(ops).accepted| == 2
    ensures t == Run(ops + [OpFetch]) && t == Run(ops).(wire := t.wire, tdh := t.tdh) && |t.wire| == 1
  {
    t := FetchesOne(Run(ops));
    RunSnoc(ops, OpFetch);
  }

  lemma {:induction false} FetchesOne(s: State) returns (t: State)
    requires Inv(s) && s.wire == [] && |s.accepted| == 2
    ensures t == Fetch(s) && t == s.(wire := t.wire, tdh := t.tdh) && |t.wire| == 1
  {
    t := Fetch(s);
    FetchInv(s);
  }

  lemma {:induction false} HandsBackOne(ops: seq<Op>) returns (t: State)
    requires Run(ops).written == 0 && |Run(ops).wire| == 1
    ensures t == Run(ops + [OpWriteBack]) && t == Run(ops).(desc := t.desc, back := t.back, written := 1)
  {
    t := WriteBack(Run(ops));
    WriteBackInv(Run(ops));
    RunSnoc(ops, OpWriteBack);
  }

  lemma {:induction false} RunSnoc(ops: seq<Op>, op: Op)
    ensures Run(ops + [op]) == Apply(Run(ops), op)
  {
    assert (ops + [op])[..|ops|] == ops;
  }

  lemma {:induction false} SendsOne(s: State, data: seq<u8>) returns (t: State)
    requires Inv(s) && s.written == 0 && |s.accepted| < SIZE - 1 && HEADER_LEN <= |data| <= BUF_SIZE
    ensures t == Apply(s, OpTransmit(true, data, None)) && Inv(t)
    ensures t.written == 0 && t.cleaned == 0 && t.wire == s.wire && |t.accepted| == |s.accepted| + 1
  {
    t := Apply(s, OpTransmit(true, data, None));
    ReclaimReachesWriteBack(s);
    TransmitInv(s, true, data, None);
  }

  /** A frame sent between the two decrements of the last descriptor keeps the
      count from wrapping, and is itself the one that is lost: both loops end with
      nothing counted in flight and the device owning that frame. */
  lemma {:induction false} SendBetweenIsLost(s: State, f: Frame)
    requires Inv(s) && s.cleaned + 1 == s.written == |s.accepted| && |f.data| <= BUF_SIZE
    ensures var t := RunOf(Begin(s), Front() + [Count(Poll), Send(f), Count(Interrupt)] + [Test(Poll), Test(Interrupt)]);
            && t.at == Pcs(Left, Left) && t.ring.accepted == s.accepted + [f]
            && t.ring.inflight == 0 && Owned(t.ring) == 1 && OneLost(t.ring)
  {
    var t := SentBetween(s, f);
    LostFrame(s, f, t);
  }

  lemma {:induction false} LostFrame(s: State, f: Frame, t: State)
    requires Inv(s) && s.cleaned + 1 == s.written == |s.accepted| && |f.data| <= BUF_SIZE
    requires t == Publish(s.(clean := ((s.clean + 1) % SIZE + 1) % SIZE, cleaned := s.cleaned + 2, inflight := 0), f).(inflight := 0)
    ensures t.accepted == s.accepted + [f] && Owned(t) == 1 && OneLost(t)
  {
    SlotNext(s.cleaned);
    SlotNext(s.written);
  }

  lemma {:induction false} SentBetween(s: State, f: Frame) returns (t: State)
    requires Inv(s) && s.cleaned + 1 == s.written == |s.accepted| && |f.data| <= BUF_SIZE
    ensures RunOf(Begin(s), Front() + [Count(Poll), Send(f), Count(Interrupt)] + [Test(Poll), Test(Interrupt)]) == Race(t, Pcs(Left, Left))
    ensures t == Publish(s.(clean := ((s.clean + 1) % SIZE + 1) % SIZE, cleaned := s.cleaned + 2, inflight := 0), f).(inflight := 0)
  {
    assert s.desc[Slot(s.cleaned)].done;
    FrontMovesTwice(s);
    var u := SendsBetween(RunOf(Begin(s), Front()), f);
    t := u.ring;
    RunConcat(Begin(s), Front(), [Count(Poll), Send(f), Count(Interrupt)]);
    RunTwo(u, Test(Poll), Test(Interrupt));
    RunConcat(Begin(s), Front() + [Count(Poll), Send(f), Count(Interrupt)], [Test(Poll), Test(Interrupt)]);
  }

  lemma {:induction false} SendsBetween(r: Race, f: Frame) returns (u: Race)
    requires Shape(r.ring) && r.at == Pcs(Moved, Moved) && r.ring.inflight == 1 && |f.data| <= BUF_SIZE
    ensures u == RunOf(r, [Count(Poll), Send(f), Count(Interrupt)])
    ensures Shape(u.ring) && u == Race(Publish(r.ring.(inflight := 0), f).(inflight := 0), Pcs(Testing, Testing))
  {
    RunTwo(r, Count(Poll), Send(f));
    RunExtends(r, [Count(Poll), Send(f)], Count(Interrupt));
    assert [Count(Poll), Send(f)] + [Count(Interrupt)] == [Count(Poll), Send(f), Count(Interrupt)];
    u := RunOf(r, [Count(Poll), Send(f), Count(Interrupt)]);
  }

  // ----- Sends in between --------------------------------------------------

  /** The count stands at zero, reclaim `w` has yet to lower it, and the index is
      one past everything sent. */
  predicate Leaping(r: Race, w: Who) {
    && Shape(r.ring) && PcOf(r.at, w) == Moved && PcOf(r.at, Other(w)) == Testing
    && r.ring.inflight == 0 && r.ring.cleaned == |r.ring.accepted| + 1
    && r.ring.clean == Slot(r.ring.cleaned) && r.ring.next == Slot(|r.ring.accepted|)
    && 0 <= Owned(r.ring) < SIZE && AllBits(r.ring)
  }

  predicate AllBits(s: State)
    requires Shape(s)
  {
    forall x :: 0 <= x < SIZE ==> BitIs(s, x)
  }

  lemma {:induction false} BitsOfSame(s: State, t: State)
    requires Shape(s) && AllBits(s) && Shape(t) && t.desc == s.desc && t.written == s.written && |t.accepted| == |s.accepted|
    ensures AllBits(t)
  {
    forall x | 0 <= x < SIZE ensures BitIs(t, x) { assert BitIs(s, x); }
  }

  /** A frame is sent, the other reclaim takes the free descriptor behind it for a
      finished one, and the first lowers the count. */
  function Turn(w: Who, f: Frame): seq<Step> { [Send(f), Test(Other(w)), Move(Other(w)), Count(w)] }

  lemma {:induction false} SendBits(s: State, f: Frame)
    requires Shape(s) && |f.data| <= BUF_SIZE && s.next == Slot(|s.accepted|) && 0 <= Owned(s) < SIZE
    requires AllBits(s)
    ensures Shape(Publish(s, f)) && AllBits(Publish(s, f))
  {
    ActsShape(s, Send(f));
    var t := Publish(s, f);
    forall x | 0 <= x < SIZE ensures BitIs(t, x) {
      assert BitIs(s, x);
      if x < Owned(s) { SlotsDistinct(s.written + x, |s.accepted|); }
      if x > Owned(s) { SlotsDistinct(|s.accepted|, s.written + x); }
    }
  }

  lemma {:induction false} TurnLeaps(r: Race, w: Who, f: Frame)
    requires Leaping(r, w) && |f.data| <= BUF_SIZE && Owned(r.ring) + 1 < SIZE
    ensures var t := RunOf(r, Turn(w, f));
            && Leaping(t, Other(w)) && t.ring.accepted == r.ring.accepted + [f] && t.ring.written == r.ring.written
  {
    SendBits(r.ring, f);
    FreeBehind(Publish(r.ring, f));
    TurnIs(r, w, f);
    LeapsAgain(r.ring, Publish(r.ring, f), RunOf(r, Turn(w, f)), w);
  }

  lemma {:induction false} FreeBehind(s: State)
    requires Shape(s) && AllBits(s) && 0 <= Owned(s) < SIZE
    ensures s.desc[Slot(|s.accepted|)].done
  {
    assert BitIs(s, Owned(s));
  }

  lemma {:induction false} TurnIs(r: Race, w: Who, f: Frame)
    requires Shape(r.ring) && PcOf(r.at, w) == Moved && PcOf(r.at, Other(w)) == Testing && r.ring.inflight == 0
    requires |f.data| <= BUF_SIZE && Publish(r.ring, f).desc[r.ring.clean].done
    ensures RunOf(r, Turn(w, f)) == Race(Publish(r.ring, f).(clean := (r.ring.clean + 1) % SIZE, cleaned := r.ring.cleaned + 1, inflight := 0),
                                         SetPc(SetPc(r.at, w, Testing), Other(w), Moved))
  {
    RunFour(r, Send(f), Test(Other(w)), Move(Other(w)), Count(w));
  }

  lemma {:induction false} LeapsAgain(s: State, sent: State, t: Race, w: Who)
    requires Shape(sent) && AllBits(sent) && 0 <= Owned(sent) < SIZE && sent.next == (Slot(|s.accepted|) + 1) % SIZE
    requires |sent.accepted| == |s.accepted| + 1 == s.cleaned && s.clean == Slot(s.cleaned) && Shape(t.ring)
    requires t.ring == sent.(clean := (s.clean + 1) % SIZE, cleaned := s.cleaned + 1, inflight := 0)
    requires PcOf(t.at, w) == Testing && PcOf(t.at, Other(w)) == Moved
    ensures Leaping(t, Other(w))
  {
    SlotNext(|s.accepted|);
    SlotNext(s.cleaned);
    BitsOfSame(sent, t.ring);
  }

  /** The side that has yet to lower the count after `n` turns. */
  function Side(w: Who, n: nat): Who { if n % 2 == 0 then w else Other(w) }

  function Turns(w: Who, fs: seq<Frame>): seq<Step> {
    if fs == [] then [] else Turns(w, fs[..|fs| - 1]) + Turn(Side(w, |fs| - 1), fs[|fs| - 1])
  }

  lemma {:induction false} TurnsLeap(r: Race, w: Who, fs: seq<Frame>)
    requires Leaping(r, w) && FramesFit(fs) && Owned(r.ring) + |fs| < SIZE
    ensures var t := RunOf(r, Turns(w, fs));
            && Leaping(t, Side(w, |fs|)) && t.ring.accepted == r.ring.accepted + fs && t.ring.written == r.ring.written
  {
    if fs == [] {
      assert r.ring.accepted + fs == r.ring.accepted;
    } else {
      var init, f := fs[..|fs| - 1], fs[|fs| - 1];
      TurnsLeap(r, w, init);
      TurnLeaps(RunOf(r, Turns(w, init)), Side(w, |init|), f);
      RunConcat(r, Turns(w, init), Turn(Side(w, |init|), f));
      LastFrame(r.ring.accepted, fs);
      SideNext(w, |init|);
    }
  }

  lemma {:induction false} LastFrame(before: seq<Frame>, fs: seq<Frame>)
    requires fs != []
    ensures before + fs[..|fs| - 1] + [fs[|fs| - 1]] == before + fs
  {}

  lemma {:induction false} SideNext(w: Who, n: nat)
    ensures Side(w, n + 1) == Other(Side(w, n))
  {}

  /** The last frame keeps the count from wrapping, and both loops end. */
  function Landing(w: Who, f: Frame): seq<Step> { [Send(f), Count(w), Test(w), Test(Other(w))] }

  lemma {:induction false} LandingEnds(r: Race, w: Who, f: Frame)
    requires Leaping(r, w) && |f.data| <= BUF_SIZE
    ensures var t := RunOf(r, Landing(w, f));
            && t.at == Pcs(Left, Left) && t.ring.inflight == 0 && t.ring.clean == t.ring.next
            && t.ring.accepted == r.ring.accepted + [f] && t.ring.written == r.ring.written
  {
    SlotNext(|r.ring.accepted|);
    LandingIs(r, w, f);
  }

  lemma {:induction false} LandingIs(r: Race, w: Who, f: Frame)
    requires Shape(r.ring) && PcOf(r.at, w) == Moved && PcOf(r.at, Other(w)) == Testing && r.ring.inflight == 0 && |f.data| <= BUF_SIZE
    ensures RunOf(r, Landing(w, f)) == Race(Publish(r.ring, f).(inflight := 0), Pcs(Left, Left))
  {
    RunFour(r, Send(f), Count(w), Test(w), Test(Other(w)));
  }

  lemma {:induction false} FrontLeaps(s: State)
    requires Inv(s) && s.cleaned + 1 == s.written == |s.accepted|
    ensures var t := RunOf(Begin(s), Front() + [Count(Poll)]);
            Leaping(t, Interrupt) && t.ring.accepted == s.accepted && t.ring.written == s.written
  {
    BeginNear(s);
    assert s.desc[Slot(s.cleaned)].done;
    FrontCounted(s);
    FirstLeap(s, RunOf(Begin(s), Front() + [Count(Poll)]));
  }

  lemma {:induction false} FrontCounted(s: State)
    requires Shape(s) && Ready(s) && s.inflight == 1
    ensures RunOf(Begin(s), Front() + [Count(Poll)])
            == Race(s.(clean := ((s.clean + 1) % SIZE + 1) % SIZE, cleaned := s.cleaned + 2, inflight := 0), Pcs(Testing, Moved))
  {
    FrontMovesTwice(s);
    RunExtends(Begin(s), Front(), Count(Poll));
  }

  lemma {:induction false} FirstLeap(s: State, t: Race)
    requires Settled(s) && s.cleaned + 1 == s.written == |s.accepted| && Shape(t.ring)
    requires t == Race(s.(clean := ((s.clean + 1) % SIZE + 1) % SIZE, cleaned := s.cleaned + 2, inflight := 0), Pcs(Testing, Moved))
    ensures Leaping(t, Interrupt)
  {
    TwoFurther(s.cleaned);
    assert AllBits(s);
    BitsOfSame(s, t.ring);
  }

  lemma {:induction false} TwoFurther(k: nat)
    ensures ((Slot(k) + 1) % SIZE + 1) % SIZE == Slot(k + 2)
  {
    SlotNext(k);
    SlotNext(k + 1);
  }

  /** With sends in between there is no such bound as one: two reclaims that lie
      in step can take every frame of up to a whole ring for free, so that at the
      end the driver counts none in flight and the device owns them all. */
  lemma {:induction false} SendsCanAllBeLost(s: State, fs: seq<Frame>, f: Frame)
    requires Inv(s) && s.cleaned + 1 == s.written == |s.accepted|
    requires FramesFit(fs) && |f.data| <= BUF_SIZE && |fs| < SIZE
    ensures var steps := Front() + [Count(Poll)] + Turns(Interrupt, fs) + Landing(Side(Interrupt, |fs|), f);
            var t := RunOf(Begin(s), steps);
            && t.at == Pcs(Left, Left) && t.ring.inflight == 0 && t.ring.clean == t.ring.next
            && t.ring.accepted == s.accepted + fs + [f] && Owned(t.ring) == |fs| + 1
  {
    var a, b, c := Front() + [Count(Poll)], Turns(Interrupt, fs), Landing(Side(Interrupt, |fs|), f);
    FrontLeaps(s);
    TurnsLeap(RunOf(Begin(s), a), Interrupt, fs);
    LandingEnds(RunOf(RunOf(Begin(s), a), b), Side(Interrupt, |fs|), f);
    RunConcat(Begin(s), a, b);
    RunConcat(Begin(s), a + b, c);
  }
}
