/** Index arithmetic of a descriptor ring: a position that only ever grows, and
    the slot it falls on. */
module Ring {

  const SIZE: nat := 64

  function Slot(k: nat): (i: nat)
    ensures i < SIZE
  {
    k % SIZE
  }

  /** The source's own step from one slot to the next. */
  lemma {:induction false} SlotNext(k: nat)
    ensures (Slot(k) + 1) % SIZE == Slot(k + 1)
  {}

  /** The slot before, going around. */
  lemma {:induction false} SlotBefore(k: nat)
    ensures Slot(k + SIZE - 1) == (Slot(k) + SIZE - 1) % SIZE
  {}

  lemma {:induction false} SlotRound(k: nat)
    ensures Slot(k + SIZE) == Slot(k)
  {}

  /** Positions less than a whole ring apart share no slot. */
  lemma {:induction false} SlotsDistinct(j: nat, k: nat)
    requires j < k < j + SIZE
    ensures Slot(j) != Slot(k)
  {}
}
