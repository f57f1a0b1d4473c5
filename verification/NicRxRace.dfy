/** Two passes over the receive ring that are not serialised. The interrupt
    handler and the poll routine of kernel/drivers/rabbit_eth.c both call
    eth_process_rx without a lock. Looking at the next descriptor, handing its
    packet on, clearing it and moving the index are one step each here; the
    device is at rest. */
module NicRxRace {
  import opened Ring

  datatype Who = Poll | Interrupt

  /** Where a pass stands: before it looks at the next descriptor, with the
      descriptor of a position in hand, having handed its packet on or counted it
      as an error, having cleared it, or at its end. */
  datatype Pc = Looking | Took(k: nat) | Gave(k: nat) | Cleared(k: nat) | Ended

  datatype Pcs = Pcs(poll: Pc, irq: Pc)

  /** A packet handed on: the position of its descriptor, and the one its buffer
      was taken from, which is read from the index again. */
  datatype Handed = Handed(desc: nat, buffer: nat)

  datatype State = State(next: nat, done: seq<bool>, given: seq<Handed>, at: Pcs)

  /** A pass also ends when its budget is spent. */
  datatype Step = Look(w: Who) | Give(w: Who) | Clear(w: Who) | Advance(w: Who) | Stop(w: Who)

  function Other(w: Who): Who { if w.Poll? then Interrupt else Poll }

  function PcOf(at: Pcs, w: Who): Pc { if w.Poll? then at.poll else at.irq }

  function SetPc(at: Pcs, w: Who, pc: Pc): Pcs { if w.Poll? then at.(poll := pc) else at.(irq := pc) }

  function Do(s: State, step: Step): State
    requires |s.done| == SIZE
  {
    var pc := PcOf(s.at, step.w);
    match step
    case Look(w) =>
      if pc.Looking? then s.(at := SetPc(s.at, w, if s.done[Slot(s.next)] then Took(s.next) else Ended)) else s
    case Give(w) =>
      if pc.Took? then s.(given := s.given + [Handed(pc.k, s.next)], at := SetPc(s.at, w, Gave(pc.k))) else s
    case Clear(w) =>
      if pc.Gave? then s.(done := s.done[Slot(pc.k) := false], at := SetPc(s.at, w, Cleared(pc.k))) else s
    case Advance(w) =>
      if pc.Cleared? then s.(next := s.next + 1, at := SetPc(s.at, w, Looking)) else s
    case Stop(w) => if pc.Looking? then s.(at := SetPc(s.at, w, Ended)) else s
  }

  function RunOf(s: State, steps: seq<Step>): (t: State)
    requires |s.done| == SIZE
    ensures |t.done| == SIZE
  {
    if steps == [] then s else Do(RunOf(s, steps[..|steps| - 1]), steps[|steps| - 1])
  }

  /** A pass has a descriptor in hand that it has not cleared. */
  predicate Holds(at: Pcs, w: Who) { PcOf(at, w).Took? || PcOf(at, w).Gave? }

  /** A pass takes a descriptor while the other has one in hand. */
  predicate Clash(s: State, step: Step)
    requires |s.done| == SIZE
  {
    step.Look? && PcOf(s.at, step.w).Looking? && s.done[Slot(s.next)] && Holds(s.at, Other(step.w))
  }

  predicate Clashes(s: State, steps: seq<Step>)
    requires |s.done| == SIZE
  {
    steps != [] && (Clashes(s, steps[..|steps| - 1]) || Clash(RunOf(s, steps[..|steps| - 1]), steps[|steps| - 1]))
  }

  /** The packets of positions `from..end`, each once, in order, from its own
      buffer. */
  function Once(from: nat, end: nat): (r: seq<Handed>)
    requires from <= end
    ensures |r| == end - from && forall i :: 0 <= i < |r| ==> r[i] == Handed(from + i, from + i)
  {
    seq(end - from, i requires 0 <= i < end - from => Handed(from + i, from + i))
  }

  predicate Idle(pc: Pc) { pc.Looking? || pc.Ended? }

  /** One pass at a time is at work, on the descriptor the index names. */
  predicate Serial(s: State, from: nat) {
    && |s.done| == SIZE && from <= s.next
    && (Idle(s.at.poll) || Idle(s.at.irq))
    && Working(s, s.at.poll) && Working(s, s.at.irq)
    && s.given == Once(from, s.next + if HasGiven(s.at.poll) || HasGiven(s.at.irq) then 1 else 0)
  }

  predicate HasGiven(pc: Pc) { pc.Gave? || pc.Cleared? }

  predicate Working(s: State, pc: Pc)
    requires |s.done| == SIZE
  {
    !Idle(pc) ==> pc.k == s.next && (pc.Cleared? ==> !s.done[Slot(s.next)])
  }

  lemma {:induction false} OnceGrows(from: nat, end: nat)
    requires from <= end
    ensures Once(from, end) + [Handed(end, end)] == Once(from, end + 1)
  {}

  lemma {:induction false} SerialStep(s: State, step: Step, from: nat)
    requires Serial(s, from) && !Clash(s, step)
    ensures Serial(Do(s, step), from)
  {
    OnceGrows(from, s.next);
  }

  lemma {:induction false} SerialRun(s: State, steps: seq<Step>, from: nat)
    requires Serial(s, from) && !Clashes(s, steps)
    ensures Serial(RunOf(s, steps), from)
  {
    if steps != [] {
      SerialRun(s, steps[..|steps| - 1], from);
      SerialStep(RunOf(s, steps[..|steps| - 1]), steps[|steps| - 1], from);
    }
  }

  /** How often the descriptor of position `k` was handed on. */
  function Times(given: seq<Handed>, k: nat): nat {
    if given == [] then 0 else Times(given[..|given| - 1], k) + if given[|given| - 1].desc == k then 1 else 0
  }

  function InHand(at: Pcs, k: nat): nat {
    (if at.poll == Took(k) then 1 else 0) + if at.irq == Took(k) then 1 else 0
  }

  /** The descriptor was, or will be, handed on twice. */
  predicate Twice(s: State, k: nat) { Times(s.given, k) + InHand(s.at, k) >= 2 }

  lemma {:induction false} TwiceStep(s: State, step: Step, k: nat)
    requires |s.done| == SIZE && Twice(s, k)
    ensures Twice(Do(s, step), k)
  {
    var t := Do(s, step);
    if |t.given| > |s.given| { assert t.given[..|t.given| - 1] == s.given; }
  }

  lemma {:induction false} TimesOnce(from: nat, end: nat, k: nat)
    requires from <= end
    ensures Times(Once(from, end), k) == if from <= k < end then 1 else 0
    decreases end
  {
    if from < end {
      OnceGrows(from, end - 1);
      TimesOnce(from, end - 1, k);
      assert Once(from, end)[..end - from - 1] == Once(from, end - 1);
    }
  }

  lemma {:induction false} ClashIsTwice(s: State, step: Step, from: nat)
    requires Serial(s, from) && Clash(s, step)
    ensures Twice(Do(s, step), s.next)
  {
    TimesOnce(from, s.next, s.next);
    TimesOnce(from, s.next + 1, s.next);
  }

  lemma {:induction false} ClashesGiveTwice(s: State, steps: seq<Step>, from: nat) returns (k: nat)
    requires Serial(s, from) && Clashes(s, steps)
    ensures Twice(RunOf(s, steps), k)
  {
    var init, last := steps[..|steps| - 1], steps[|steps| - 1];
    if Clashes(s, init) {
      k := ClashesGiveTwice(s, init, from);
      TwiceStep(RunOf(s, init), last, k);
    } else {
      SerialRun(s, init, from);
      ClashIsTwice(RunOf(s, init), last, from);
      k := RunOf(s, init).next;
    }
  }

  /** Over every schedule of two passes, from a state in which neither is at work:
      when both have ended, every packet the index has passed was handed on
      exactly once, in order and from its own buffer, if and only if no pass took
      a descriptor between the other's look and its clearing. */
  lemma {:induction false} HandedOnOnceIff(s: State, steps: seq<Step>)
    requires |s.done| == SIZE && s.given == [] && s.at == Pcs(Looking, Looking)
    requires RunOf(s, steps).at == Pcs(Ended, Ended)
    ensures s.next <= RunOf(s, steps).next && RunOf(s, steps).given == Once(s.next, RunOf(s, steps).next)
            <==> !Clashes(s, steps)
  {
    assert Serial(s, s.next);
    var t := RunOf(s, steps);
    if Clashes(s, steps) {
      var k := ClashesGiveTwice(s, steps, s.next);
      if s.next <= t.next { TimesOnce(s.next, t.next, k); }
    } else {
      SerialRun(s, steps, s.next);
    }
  }

  /** Both look, and then both go on: the packet is handed on twice, and the index
      passes the next descriptor, finished or not, without looking at it. */
  lemma {:induction false} BothTakeOne(s: State)
    requires |s.done| == SIZE && s.given == [] && s.at == Pcs(Looking, Looking) && s.done[Slot(s.next)]
    ensures var steps := [Look(Poll), Look(Interrupt)] + [Give(Poll), Give(Interrupt)]
                         + [Clear(Poll), Clear(Interrupt)] + [Advance(Poll), Advance(Interrupt)];
            var t := RunOf(s, steps);
            && Clashes(s, steps)
            && t.given == [Handed(s.next, s.next), Handed(s.next, s.next)] && t.next == s.next + 2
            && t.done == s.done[Slot(s.next) := false]
  {
    var a := [Look(Poll), Look(Interrupt)];
    var b, c := a + [Give(Poll), Give(Interrupt)], a + [Give(Poll), Give(Interrupt)] + [Clear(Poll), Clear(Interrupt)];
    RunTwo(s, [], Look(Poll), Look(Interrupt));
    assert [] + a == a;
    RunTwo(s, a, Give(Poll), Give(Interrupt));
    RunTwo(s, b, Clear(Poll), Clear(Interrupt));
    RunTwo(s, c, Advance(Poll), Advance(Interrupt));
  }

  lemma {:induction false} RunTwo(s: State, before: seq<Step>, x: Step, y: Step)
    requires |s.done| == SIZE
    ensures RunOf(s, before + [x, y]) == Do(Do(RunOf(s, before), x), y)
    ensures Clashes(s, before + [x, y])
            <==> Clashes(s, before) || Clash(RunOf(s, before), x) || Clash(Do(RunOf(s, before), x), y)
  {
    var all := before + [x, y];
    assert all[..|all| - 1] == before + [x] && (before + [x])[..|before|] == before;
  }
}
