/** Powers of two, and the capacities the array and the heap round up to. */
module Powers {
  function Pow2(k: nat): (p: nat)
    ensures p > 0
  {
    if k == 0 then 1 else 2 * Pow2(k - 1)
  }

  lemma {:induction false} Pow2Grows(a: nat, b: nat)
    requires a <= b
    ensures Pow2(a) <= Pow2(b)
    decreases b
  {
    if a < b {
      Pow2Grows(a, b - 1);
    }
  }

  /** flsl: the position of the highest bit set, counting from 1. */
  function Flsl(n: nat): nat {
    if n == 0 then 0 else 1 + Flsl(n / 2)
  }

  /** 1 << flsl(n) is the first power of two above n. */
  lemma {:induction false} FlslBounds(n: nat)
    ensures n < Pow2(Flsl(n))
    ensures n > 0 ==> Flsl(n) > 0 && Pow2(Flsl(n) - 1) <= n && Pow2(Flsl(n)) <= 2 * n
  {
    if n > 0 {
      FlslBounds(n / 2);
    }
  }

  lemma HalvePow2(k: nat)
    ensures k == 0 ==> Pow2(k) == 1
    ensures k > 0 ==> Pow2(k) == 2 * Pow2(k - 1)
  {
  }

  /** __CFArrayDequeRoundUpCapacity and __CFBinaryHeapRoundUpCapacity, for capacities whose shift does not overflow. */
  function RoundUpCapacity(capacity: nat): nat {
    if capacity < 4 then 4 else Pow2(Flsl(capacity))
  }

  /** Four for less than four, and otherwise the one power of two that is above the capacity and at most its double. */
  lemma RoundUpBounds(capacity: nat)
    ensures if capacity < 4 then RoundUpCapacity(capacity) == 4
            else && capacity < RoundUpCapacity(capacity) <= 2 * capacity
                 && exists k: nat :: RoundUpCapacity(capacity) == Pow2(k)
  {
    FlslBounds(capacity);
  }
}
