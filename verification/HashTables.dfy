/** The size and capacity tables of the hash, and the size a rehash goes to (CFBasicHash.c). */
module HashTables {
  const LAST := 44

  /** __CFBasicHashTableSizes: from index 45 on the table holds zeros. */
  function TableSize(i: nat): (n: nat) {
    match i
    case 0 => 0 case 1 => 3 case 2 => 7 case 3 => 13 case 4 => 23 case 5 => 41 case 6 => 71 case 7 => 127
    case 8 => 191 case 9 => 251 case 10 => 383 case 11 => 631 case 12 => 1087 case 13 => 1723 case 14 => 2803
    case 15 => 4523 case 16 => 7351 case 17 => 11959 case 18 => 19447 case 19 => 31231 case 20 => 50683
    case 21 => 81919 case 22 => 132607 case 23 => 214519 case 24 => 346607 case 25 => 561109 case 26 => 907759
    case 27 => 1468927 case 28 => 2376191 case 29 => 3845119 case 30 => 6221311 case 31 => 10066421
    case 32 => 16287743 case 33 => 26354171 case 34 => 42641881 case 35 => 68996069 case 36 => 111638519
    case 37 => 180634607 case 38 => 292272623 case 39 => 472907251 case 40 => 765180413 case 41 => 1238087663
    case 42 => 2003267557 case 43 => 3241355263 case 44 => 5244622819
    case _ => 0
  }

  /** __CFBasicHashTableCapacities */
  function TableCapacity(i: nat): (n: nat) {
    match i
    case 0 => 0 case 1 => 3 case 2 => 6 case 3 => 11 case 4 => 19 case 5 => 32 case 6 => 52 case 7 => 85
    case 8 => 118 case 9 => 155 case 10 => 237 case 11 => 390 case 12 => 672 case 13 => 1065 case 14 => 1732
    case 15 => 2795 case 16 => 4543 case 17 => 7391 case 18 => 12019 case 19 => 19302 case 20 => 31324
    case 21 => 50629 case 22 => 81956 case 23 => 132580 case 24 => 214215 case 25 => 346784 case 26 => 561026
    case 27 => 907847 case 28 => 1468567 case 29 => 2376414 case 30 => 3844982 case 31 => 6221390
    case 32 => 10066379 case 33 => 16287773 case 34 => 26354132 case 35 => 42641916 case 36 => 68996399
    case 37 => 111638327 case 38 => 180634415 case 39 => 292272755 case 40 => 472907503 case 41 => 765180257
    case 42 => 1238087439 case 43 => 2003267722 case 44 => 3241355160
    case _ => 0
  }

  lemma CapacityGrows(i: nat, j: nat)
    requires i <= j <= LAST
    ensures TableCapacity(i) <= TableCapacity(j)
    ensures i < j ==> TableCapacity(i) < TableCapacity(j)
  {
  }

  lemma SizeIsPositive(i: nat)
    requires i <= LAST
    ensures TableCapacity(i) <= TableSize(i)
    ensures i == 0 ==> TableSize(i) == 0
    ensures i > 0 ==> 3 <= TableCapacity(i)
  {
  }

  lemma EmptyTable()
    ensures TableSize(0) == 0 == TableCapacity(0)
  {
  }

  // ---- The size a rehash goes to ----

  /** Index idx is the first with the capacity. */
  ghost predicate IsFirstFit(idx: nat, capacity: nat) {
    && idx <= LAST && capacity <= TableCapacity(idx)
    && forall i: nat :: i < idx ==> TableCapacity(i) < capacity
  }

  lemma FirstFitIsUnique(i: nat, j: nat, capacity: nat)
    requires IsFirstFit(i, capacity) && IsFirstFit(j, capacity)
    ensures i == j
  {
    hide TableCapacity;
    assert !(i < j) && !(j < i);
  }

  /** A rehash for newItemCount more classes (none less when negative, the same size when 0) goes to size index next:
      the first with the capacity, and one further when a fast-growing table asks for one more. */
  ghost predicate RehashesTo(fastGrow: bool, idx: nat, used: nat, newItemCount: int, next: nat) {
    if newItemCount == 0 then next == idx
    else if newItemCount == 1 && fastGrow then next > 0 && IsFirstFit(next - 1, used + 1)
    else IsFirstFit(next, used + if newItemCount < 0 then 0 else newItemCount)
  }

  /** A size can be found, and it is one of the table's. */
  predicate CanRehash(fastGrow: bool, used: nat, newItemCount: int) {
    newItemCount > 0 ==>
      used + newItemCount <= TableCapacity(if fastGrow && newItemCount == 1 then LAST - 1 else LAST)
  }

  lemma {:induction false} FirstFitExists(capacity: nat, from: nat) returns (idx: nat)
    requires from <= LAST && capacity <= TableCapacity(LAST)
    requires forall i: nat :: i < from ==> TableCapacity(i) < capacity
    ensures IsFirstFit(idx, capacity)
    decreases LAST - from
  {
    hide TableCapacity;
    if capacity <= TableCapacity(from) {
      idx := from;
    } else {
      idx := FirstFitExists(capacity, from + 1);
    }
  }

  /** Rehashing goes to a size of the table exactly under this condition. Otherwise there is no size with the
      capacity, and the source stops; or the fast-growing step goes to index LAST + 1, which has no buckets. */
  lemma RehashStaysInTableIff(fastGrow: bool, idx: nat, used: nat, newItemCount: int, next: nat)
    requires idx <= LAST && used <= TableCapacity(idx)
    ensures CanRehash(fastGrow, used, newItemCount) ==>
              exists n: nat :: RehashesTo(fastGrow, idx, used, newItemCount, n)
    ensures RehashesTo(fastGrow, idx, used, newItemCount, next) ==>
              && (next <= LAST <==> CanRehash(fastGrow, used, newItemCount))
              && (next > LAST <==> next == LAST + 1 && fastGrow && newItemCount == 1
                                   && TableCapacity(LAST - 1) < used + 1 <= TableCapacity(LAST))
  {
    hide TableCapacity;
    CapacityGrows(idx, LAST);
    CapacityGrows(LAST - 1, LAST);
    if CanRehash(fastGrow, used, newItemCount) {
      if newItemCount == 0 {
        assert RehashesTo(fastGrow, idx, used, newItemCount, idx);
      } else {
        var n := FirstFitExists(used + if newItemCount < 0 then 0 else newItemCount, 0);
        assert RehashesTo(fastGrow, idx, used, newItemCount, if newItemCount == 1 && fastGrow then n + 1 else n);
      }
    }
    if RehashesTo(fastGrow, idx, used, newItemCount, next) {
      if newItemCount == 1 && fastGrow {
        if next <= LAST {
          CapacityGrows(next - 1, LAST - 1);
        } else {
          assert next - 1 == LAST;
        }
      } else {
        CapacityGrows(next, LAST);
      }
    }
  }

  /** Growing a full table by one class: a fast-growing one skips a size. So it leaves the table of sizes exactly when
      it grows fast and is full at the last but one size, and it finds no size exactly when it is full at the last. */
  lemma FullTableGrows(fastGrow: bool, idx: nat, next: nat)
    requires idx <= LAST
    ensures CanRehash(fastGrow, TableCapacity(idx), 1) <==> idx < if fastGrow then LAST - 1 else LAST
    ensures RehashesTo(fastGrow, idx, TableCapacity(idx), 1, next)
            <==> idx < LAST && next == if fastGrow then idx + 2 else idx + 1
    ensures (exists n: nat :: LAST < n && RehashesTo(fastGrow, idx, TableCapacity(idx), 1, n))
            <==> fastGrow && idx == LAST - 1
    ensures (exists n: nat :: RehashesTo(fastGrow, idx, TableCapacity(idx), 1, n)) <==> idx < LAST
  {
    hide TableCapacity;
    CapacityGrows(idx, LAST);
    CapacityGrows(LAST - 1, LAST);
    if idx < LAST {
      CapacityGrows(idx, LAST - 1);
      CapacityGrows(idx, idx + 1);
      forall i: nat | i < idx + 1
        ensures TableCapacity(i) < TableCapacity(idx) + 1
      {
        CapacityGrows(i, idx);
      }
      var step := if fastGrow then idx + 2 else idx + 1;
      assert RehashesTo(fastGrow, idx, TableCapacity(idx), 1, step);
      forall n: nat | RehashesTo(fastGrow, idx, TableCapacity(idx), 1, n)
        ensures n == step
      {
        FirstFitIsUnique(idx + 1, if fastGrow then n - 1 else n, TableCapacity(idx) + 1);
      }
    } else {
      var more := TableCapacity(idx) + 1;
      forall n: nat | IsFirstFit(n, more)
        ensures false
      {
        CapacityGrows(n, LAST);
      }
    }
  }

  /** The table that goes wrong: fast-growing, with 2003267722 classes at index 43, asked for one more. Its next size
      index is 45, where the size table says no buckets at all. */
  lemma FastGrowthLeavesTheTable()
    ensures RehashesTo(true, 43, 2003267722, 1, 45) && TableCapacity(43) == 2003267722 && TableSize(45) == 0
  {
    FullTableGrows(true, 43, 45);
  }

  /** How it gets there: by shrinking, from an even index to an odd one, and growing again. A table at the last size
      that is down to one class less than index 39 has room for goes to 39, and grows to 41, 43 and 45. */
  lemma ShrinkingLeadsThere()
    ensures RehashesTo(true, LAST, TableCapacity(39) - 1, -1, 39)
    ensures RehashesTo(true, 39, TableCapacity(39), 1, 41)
    ensures RehashesTo(true, 41, TableCapacity(41), 1, 43) && RehashesTo(true, 43, TableCapacity(43), 1, 45)
  {
    FullTableGrows(true, 39, 41);
    FullTableGrows(true, 41, 43);
    FullTableGrows(true, 43, 45);
  }
}
