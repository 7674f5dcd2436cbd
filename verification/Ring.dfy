/** A ring of 256 cells, as used by the receiver and by the logger: offsets from a starting
cell wrap around at the edge. */
module Ring {

  const SIZE: nat := 256

  type Cell = p: nat | p < SIZE

  function Slot(start: nat, k: nat): Cell {
    (start + k) % SIZE
  }

  function Next(p: nat): nat {
    if p + 1 >= SIZE then 0 else p + 1
  }

  lemma NextSlot(start: nat, k: nat)
    ensures Next(Slot(start, k)) == Slot(start, k + 1)
  {
  }

  lemma SlotFromNext(start: nat, k: nat)
    requires start < SIZE
    ensures Slot(Next(start), k) == Slot(start, k + 1)
  {
  }

  lemma SlotsDiffer(start: nat, k: nat, n: nat)
    requires k < n < k + SIZE
    ensures Slot(start, k) != Slot(start, n)
  {
    var d := n - k;
    assert (start + n) == (start + k) + d;
  }

  lemma SlotsRepeat(start: nat, m: nat, j: nat)
    requires m % SIZE == 0
    ensures Slot(start, m + j) == Slot(start, j)
  {
    Turns(start + j, m / SIZE);
    assert start + (m + j) == (start + j) + SIZE * (m / SIZE);
  }

  /** Whole turns of the ring come back to the same cell. */
  lemma {:induction false} Turns(p: nat, q: nat)
    ensures (p + SIZE * q) % SIZE == p % SIZE
  {
    if q == 0 {
    } else {
      Turns(p, q - 1);
      OneTurn(p + SIZE * (q - 1));
    }
  }

  lemma OneTurn(p: nat)
    ensures (p + SIZE) % SIZE == p % SIZE
  {
  }
}
