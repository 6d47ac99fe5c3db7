// Positions in a circular buffer of n slots, shared by the ring modules.
module Ring {

  // Slot i places after h.
  function Slot(h: nat, i: nat, n: nat): (s: nat)
    requires h < n && i <= n
    ensures s < n
  {
    if h + i < n then h + i else h + i - n
  }

  lemma ModIsSlot(h: nat, i: nat, n: nat)
    requires h < n && i <= n
    ensures (h + i) % n == Slot(h, i, n)
  {
    if h + i < n {
    } else {
      assert h + i == n + (h + i - n);
    }
  }

  lemma SlotInjective(h: nat, n: nat, j: nat)
    requires h < n && j < n
    ensures Slot(h, j, n) == h <==> j == 0
    ensures forall i | 0 <= i < n && i != j :: Slot(h, i, n) != Slot(h, j, n)
  {
  }

  // Every slot is some number of places after h.
  lemma SlotReaches(h: nat, k: nat, n: nat) returns (i: nat)
    requires h < n && k < n
    ensures i < n && Slot(h, i, n) == k
  {
    i := if k >= h then k - h else k + n - h;
  }
}
