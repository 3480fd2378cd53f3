/** The binary heap (CFBinaryHeap.c) against a multiset kept in order. */
module BinaryHeap {
  import opened Bytes
  import opened Powers
  import opened Ordering
  import opened HeapOrder

  const MAX_COUNT := 0x1FFF_FFFF  // far enough below 2^31 that no capacity overflows its shift

  class Heap {
    const cmp: (u64, u64) -> int  // the compare callback, or the order of the pointers without one
    var buckets: array<u64>
    var count: nat

    ghost predicate Valid()
      reads `buckets, `count, buckets
    {
      count <= buckets.Length && TotalPreorder(cmp) && IsHeap(cmp, buckets[..count])
    }

    /** The buckets in use. */
    ghost function Items(): (s: seq<u64>)
      reads `buckets, `count, buckets
      requires count <= buckets.Length
      ensures |s| == count
    {
      buckets[..count]
    }

    constructor (cmp: (u64, u64) -> int)
      requires TotalPreorder(cmp)
      ensures Valid() && Items() == [] && this.cmp == cmp && fresh(buckets) && buckets.Length == 4
    {
      this.cmp := cmp;
      buckets := new u64[RoundUpCapacity(1)];
      count := 0;
    }

    /** __CFBinaryHeapGrow: reallocating keeps the items. */
    method Grow(numNewValues: nat)
      requires count <= buckets.Length && count + numNewValues <= MAX_COUNT
      modifies `buckets
      ensures fresh(buckets) && count + numNewValues <= buckets.Length && Items() == old(Items())
      ensures buckets.Length == RoundUpCapacity(count + numNewValues)
    {
      RoundUpBounds(count + numNewValues);
      var bigger := new u64[RoundUpCapacity(count + numNewValues)];
      forall i | 0 <= i < count {
        bigger[i] := buckets[i];
      }
      assert bigger[..count] == buckets[..count];
      buckets := bigger;
    }

    /** The buckets hold s, but for a hole that the value is to fill. */
    ghost predicate Holding(s: seq<u64>, hole: nat, value: u64)
      reads `buckets, buckets
    {
      hole < |s| <= buckets.Length && s == buckets[..|s|][hole := value]
    }

    method ItemAt(i: nat, ghost s: seq<u64>, ghost hole: nat, ghost value: u64) returns (item: u64)
      requires Holding(s, hole, value) && i < |s| && i != hole
      ensures item == s[i] && hole < |s| && s[hole] == value
    {
      return buckets[i];
    }

    /** Moves an item into the hole, and leaves the hole where it was. */
    method MoveItem(to: nat, from: nat, item: u64, ghost s: seq<u64>, ghost value: u64)
      requires Holding(s, to, value) && from < |s| && from != to && item == s[from]
      modifies buckets
      ensures Holding(Exchanged(s, to, from), from, value)
    {
      HoleMoves(buckets[..|s|], value, to, from);
      buckets[to] := item;
      assert buckets[..|s|] == old(buckets[..|s|])[to := item];
    }

    method FillHole(hole: nat, value: u64, ghost s: seq<u64>)
      requires Holding(s, hole, value)
      modifies buckets
      ensures |s| <= buckets.Length && buckets[..|s|] == s
    {
      buckets[hole] := value;
    }

    /** The loop of CFBinaryHeapAddValue: the hole at the end rises past greater items until the value fits. */
    method SiftUp(value: u64, ghost was: seq<u64>, end: nat)
      requires TotalPreorder(cmp) && IsHeap(cmp, was) && end == |was| && Holding(was + [value], end, value)
      modifies buckets
      ensures end < buckets.Length && IsHeap(cmp, buckets[..end + 1])
      ensures multiset(buckets[..end + 1]) == multiset(was) + multiset{value}
      ensures end == 0 || cmp(was[Parent(end)], value) <= 0 ==> buckets[..end + 1] == was + [value]
    {
      hide TotalPreorder, IsHeap, RisesFrom, Exchanged, Holding;
      ghost var s := was + [value];
      AppendRises(cmp, was, value);
      var idx: nat := end;
      while 0 < idx
        invariant idx <= end && |s| == end + 1 && Holding(s, idx, value) && RisesFrom(cmp, s, idx)
        invariant multiset(s) == multiset(was) + multiset{value}
        invariant if idx == end then s == was + [value] else cmp(was[Parent(end)], value) > 0
      {
        var pidx := Parent(idx);
        var item := ItemAt(pidx, s, idx, value);
        if cmp(item, value) <= 0 {
          break;
        }
        Rise(cmp, s, idx);
        ExchangedCounts(s, idx, pidx);
        MoveItem(idx, pidx, item, s, value);
        s := Exchanged(s, idx, pidx);
        idx := pidx;
      }
      HoleIsValue(s, idx, value);
      Settled(cmp, s, idx);
      FillHole(idx, value, s);
    }

    lemma HoleIsValue(s: seq<u64>, hole: nat, value: u64)
      requires Holding(s, hole, value)
      ensures hole < |s| <= buckets.Length && s[hole] == value
    {
    }

    method MakeRoom()
      requires Valid() && count < MAX_COUNT
      modifies this`buckets
      ensures Valid() && Items() == old(Items()) && count < buckets.Length
      ensures buckets == old(buckets) || fresh(buckets)
    {
      hide TotalPreorder, IsHeap, Pow2, Flsl, RoundUpCapacity;
      if count == buckets.Length {
        Grow(1);
      }
    }

    /** CFBinaryHeapAddValue. A value that is not before the parent of the last place stays there. */
    method AddValue(value: u64)
      requires Valid() && count < MAX_COUNT
      modifies this, buckets
      ensures Valid() && (buckets == old(buckets) || fresh(buckets))
      ensures multiset(Items()) == multiset(old(Items())) + multiset{value}
      ensures old(count) == 0 || cmp(old(Items())[Parent(old(count))], value) <= 0 ==>
                Items() == old(Items()) + [value]
    {
      hide TotalPreorder, IsHeap, Holding, Parent, Pow2, Flsl, RoundUpCapacity;
      ghost var was := Items();
      MakeRoom();
      NewPlace(was, value);
      SiftUp(value, was, count);
      ghost var after := buckets[..count + 1];
      count := count + 1;
      assert Items() == after;
    }

    lemma NewPlace(was: seq<u64>, value: u64)
      requires |was| < buckets.Length && was == buckets[..|was|]
      ensures Holding(was + [value], |was|, value)
    {
    }

    /** CFBinaryHeapGetMinimum */
    method GetMinimum() returns (value: u64)
      requires Valid()
      ensures if count > 0 then value == Items()[0] && forall v :: v in Items() ==> cmp(value, v) <= 0 else value == 0
    {
      if count == 0 {
        return 0;
      }
      forall i: nat | i < count
        ensures cmp(Items()[0], Items()[i]) <= 0
      {
        MinimumFirst(cmp, Items(), i);
      }
      return buckets[0];
    }

    /** The loop of CFBinaryHeapRemoveMinimumValue: the hole at the root sinks past lesser items until the last one
        fits. */
    method SiftDown(val: u64, ghost start: seq<u64>)
      requires TotalPreorder(cmp) && SinksFrom(cmp, start, 0) && Holding(start, 0, val) && count == |start|
      modifies buckets
      ensures count <= buckets.Length && IsHeap(cmp, buckets[..count])
      ensures multiset(buckets[..count]) == multiset(start)
    {
      hide TotalPreorder, IsHeap, SinksFrom, Exchanged, Holding;
      ghost var s := start;
      HoleIsValue(s, 0, val);
      var idx: nat, cidx: nat := 0, 1;
      while cidx < count
        invariant idx < count == |s| && cidx == 2 * idx + 1 && Holding(s, idx, val) && SinksFrom(cmp, s, idx)
        invariant multiset(s) == multiset(start)
      {
        HoleIsValue(s, idx, val);
        var item := ItemAt(cidx, s, idx, val);
        if cidx + 1 < count {
          var item2 := ItemAt(cidx + 1, s, idx, val);
          if cmp(item, item2) > 0 {
            cidx := cidx + 1;
            item := item2;
          }
        }
        LesserChild(cmp, s, idx, cidx);
        if cmp(item, val) > 0 {
          break;
        }
        Sink(cmp, s, idx, cidx);
        ExchangedCounts(s, idx, cidx);
        MoveItem(idx, cidx, item, s, val);
        s := Exchanged(s, idx, cidx);
        idx := cidx;
        cidx := 2 * idx + 1;
      }
      HoleIsValue(s, idx, val);
      Sunk(cmp, s, idx);
      FillHole(idx, val, s);
    }

    /** CFBinaryHeapRemoveMinimumValue */
    method RemoveMinimumValue()
      requires Valid()
      modifies this, buckets
      ensures Valid() && buckets == old(buckets)
      ensures if old(count) == 0 then Items() == []
              else multiset(Items()) == multiset(old(Items())) - multiset{old(Items())[0]}
    {
      hide TotalPreorder, IsHeap, SinksFrom;
      ghost var was := Items();
      var cnt := count;
      if cnt == 0 {
        return;
      }
      count := cnt - 1;
      var val := buckets[cnt - 1];
      if count == 0 {
        OneLeft(cmp, was);
        buckets[0] := val;
        return;
      }
      RootSinks(cmp, was);
      assert was[..cnt - 1] == buckets[..cnt - 1];
      SiftDown(val, was[..cnt - 1][0 := val]);
    }

    /** CFBinaryHeapCreateCopy: adding the items in bucket order reproduces the buckets, because none has to rise. */
    method CreateCopy() returns (copy: Heap)
      requires Valid() && count <= MAX_COUNT
      ensures fresh(copy) && fresh(copy.buckets) && copy.cmp == cmp
      ensures copy.Valid() && copy.Items() == Items()
    {
      hide TotalPreorder, IsHeap, Parent;
      ghost var s := Items();
      copy := new Heap(cmp);
      for idx := 0 to count
        invariant fresh(copy) && fresh(copy.buckets) && copy.cmp == cmp
        invariant copy.Valid() && copy.Items() == s[..idx]
      {
        NoneRises(cmp, s, idx);
        assert buckets[idx] == s[idx];
        copy.AddValue(buckets[idx]);
      }
      assert s[..count] == s;
    }

    /** CFBinaryHeapGetValues: the items in order, taken from a copy; the heap keeps its own. */
    method GetValues(values: array<u64>)
      requires Valid() && count <= MAX_COUNT && count <= values.Length && values != buckets
      modifies values
      ensures Sorted(cmp, values[..count])
      ensures multiset(values[..count]) == multiset(Items())
      ensures values[count..] == old(values[count..])
    {
      hide TotalPreorder, IsHeap, Sorted, Taken;
      if count == 0 {
        NothingTaken(cmp, Items());
        TakenIsSorted(cmp, [], Items());
        assert values[..0] == [] == Items() && values[0..] == values[..];
        return;
      }
      var heapCopy := CreateCopy();
      DrainInto(heapCopy, values);
    }
  }

  /** The loop of CFBinaryHeapGetValues. */
  method DrainInto(heapCopy: Heap, values: array<u64>)
    requires heapCopy.Valid() && heapCopy.count <= values.Length && values != heapCopy.buckets
    modifies heapCopy, heapCopy.buckets, values
    ensures var n := old(heapCopy.count);
            && Sorted(heapCopy.cmp, values[..n]) && multiset(values[..n]) == multiset(old(heapCopy.Items()))
            && values[n..] == old(values[n..])
  {
    hide TotalPreorder, IsHeap, Sorted, Taken;
    var idx := 0;
    NothingTaken(heapCopy.cmp, heapCopy.Items());
    assert values[..0] == [];
    ghost var n, all, rest := heapCopy.count, multiset(heapCopy.Items()), values[heapCopy.count..];
    while 0 < heapCopy.count
      invariant heapCopy.buckets == old(heapCopy.buckets) && heapCopy.Valid()
      invariant idx + heapCopy.count == n && values[n..] == rest
      invariant multiset(values[..idx]) + multiset(heapCopy.Items()) == all
      invariant Taken(heapCopy.cmp, values[..idx], heapCopy.Items())
      decreases heapCopy.count
    {
      ghost var after := values[idx + 1..];
      idx := TakeMinimum(heapCopy, values, idx);
      assert values[n..] == after[n - idx..];
    }
    assert heapCopy.Items() == [];
    TakenIsSorted(heapCopy.cmp, values[..n], []);
  }

  /** One turn of CFBinaryHeapGetValues. */
  method TakeMinimum(heapCopy: Heap, values: array<u64>, idx: nat) returns (next: nat)
    requires heapCopy.Valid() && 0 < heapCopy.count && idx < values.Length && values != heapCopy.buckets
    requires Taken(heapCopy.cmp, values[..idx], heapCopy.Items())
    modifies heapCopy, heapCopy.buckets, values
    ensures heapCopy.Valid() && heapCopy.buckets == old(heapCopy.buckets)
    ensures next == idx + 1 && heapCopy.count == old(heapCopy.count) - 1
    ensures Taken(heapCopy.cmp, values[..next], heapCopy.Items())
    ensures multiset(values[..next]) + multiset(heapCopy.Items())
         == old(multiset(values[..idx]) + multiset(heapCopy.Items()))
    ensures values[next..] == old(values[next..])
  {
    hide TotalPreorder, IsHeap, Taken;
    ghost var out, left := values[..idx], heapCopy.Items();
    var value := heapCopy.GetMinimum();
    heapCopy.RemoveMinimumValue();
    assert |multiset(left)| == |left| && |multiset(heapCopy.Items())| == |heapCopy.Items()|;
    TakeNext(heapCopy.cmp, out, left, heapCopy.Items());
    values[idx] := value;
    assert values[..idx + 1] == out + [value];
    next := idx + 1;
  }
}
