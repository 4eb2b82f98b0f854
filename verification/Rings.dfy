/** Positions on a ring of slots, and counters that wrap at 16 bits. */
module Rings {
  import opened Basics

  const INDEX_SPAN := 0x1_0000

  /** The descriptors of each direction. */
  const TOTAL_DESC := 256

  /** The slot reached after n steps round a ring of `size` slots. */
  function Position(size: nat, n: nat): (p: nat)
    requires 0 < size
    ensures p < size
    decreases n
  {
    if n == 0 then 0
    else
      var p := Position(size, n - 1);
      if p + 1 == size then 0 else p + 1
  }

  /** The slot by its number. */
  lemma {:induction false} PositionIsRemainder(size: nat, n: nat)
    requires 0 < size
    ensures Position(size, n) == n % size
    decreases n
  {
    if n > 0 {
      PositionIsRemainder(size, n - 1);
      var q, r := (n - 1) / size, (n - 1) % size;
      assert n == q * size + (r + 1);
      if r + 1 == size {
        assert n == (q + 1) * size;
        Remainder(n, size, q + 1, 0);
      } else {
        Remainder(n, size, q, r + 1);
      }
      hide Position;
      assert Position(size, n) == if r + 1 == size then 0 else r + 1 by { OneStep(size, n - 1); }
    }
  }

  /** Going d slots further, at most once round. */
  lemma {:induction false} Ahead(size: nat, n: nat, d: nat)
    requires 0 < size && d <= size
    ensures Position(size, n + d) == if Position(size, n) + d < size then Position(size, n) + d
                                     else Position(size, n) + d - size
    decreases d
  {
    if d > 0 {
      Ahead(size, n, d - 1);
    }
  }

  /** One step: the next slot and the next value of a 16-bit counter. */
  lemma OneStep(size: nat, n: nat)
    requires 0 < size
    ensures Position(size, n + 1) == if Position(size, n) + 1 == size then 0 else Position(size, n) + 1
    ensures (n + 1) % INDEX_SPAN == (n % INDEX_SPAN + 1) % INDEX_SPAN
  {
  }

  /** Within one turn of the ring, every step reaches another slot. */
  lemma OtherSlot(size: nat, n: nat, k: nat)
    requires 0 < size && n < k < n + size
    ensures Position(size, n) != Position(size, k)
  {
    Ahead(size, n, k - n);
  }

  /** The number of steps between two counters, from their low 16 bits. */
  function Between(from: nat, to: nat): nat {
    (to - from) % INDEX_SPAN
  }

  lemma BetweenIsDifference(from: nat, to: nat)
    requires from <= to < from + 0x1_0000
    ensures Between(from % 0x1_0000, to % 0x1_0000) == to - from
  {
  }
}
