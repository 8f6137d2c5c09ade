/** Positions in a ring of slots. */
module Rings {
  import opened Bits

  /** The ring slot of entry `k`. */
  function SlotOf(k: nat, size: nat): (s: nat)
    requires size > 0
    ensures s < size
  {
    if k < size then k else SlotOf(k - size, size)
  }

  lemma {:induction false} SlotIsRemainder(k: nat, size: nat)
    requires size > 0
    ensures SlotOf(k, size) == k % size
    decreases k
  {
    if k >= size {
      SlotIsRemainder(k - size, size);
      RemainderUnique(k, (k - size) / size + 1, (k - size) % size, size);
    }
  }

  /** The slot of a counter that wraps at `2^bits` is the slot of the unbounded one. */
  lemma SlotOfWrapped(k: nat, size: nat, bits: nat)
    requires size > 0 && IsPow2(size) && size <= Pow2(bits)
    ensures k % Pow2(bits) % size == SlotOf(k, size)
  {
    var c := Pow2Divides(size, bits);
    ModMod(k, c, size);
    SlotIsRemainder(k, size);
  }

  /** Two entries less than a lap apart are in different slots. */
  lemma SlotsApart(j: nat, k: nat, size: nat)
    requires size > 0 && j < k < j + size
    ensures SlotOf(j, size) != SlotOf(k, size)
  {
    SlotIsRemainder(j, size);
    SlotIsRemainder(k, size);
    if j % size == k % size { CloseCongruent(j, k, size); }
  }
}
