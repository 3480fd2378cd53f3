/** The open-addressing hash behind sets, bags, dictionaries and index maps (CFBasicHash.c, with the linear probing of
    CFBasicHashFindBucket.m), refined to an ideal map from key classes to entries. */
module BasicHash {
  import opened Bytes
  import opened HashTables
  import opened HashSlots
  import opened HashIdeal
  import opened HashIndex

  /** The largest value a count of each width is raised to before the counts are widened. */
  function CountLimit(width: nat): nat {
    if width == 0 then 0x7F else if width == 1 then 0x7FFF else if width == 2 then 0x7FFF_FFFF else LONG_MAX
  }

  lemma CountLimits()
    ensures CountLimit(0) == 127 && CountLimit(1) == 32767 && CountLimit(2) == 2147483647
    ensures CountLimit(3) == LONG_MAX == 9223372036854775807
  {
  }

  class Table {
    const f: Keying
    const fastGrow: bool
    var keys: array<u64>
    var values: array<u64>
    var counts: array<nat>
    var numBucketsIdx: nat
    var usedBuckets: nat
    var deleted: nat
    var countsWidth: nat
    ghost var where: map<u64, nat>

    ghost function State(): Slots
      reads `keys, `values, `counts, keys, values, counts
    {
      Slots(keys[..], values[..], counts[..])
    }

    /** Each array is the one it was or a newly allocated one. */
    twostate predicate Owned()
      reads this
    {
      && (keys == old(keys) || fresh(keys))
      && (values == old(values) || fresh(values))
      && (counts == old(counts) || fresh(counts))
    }

    /** The arrays are apart, but for a table without keys, whose key array is its value array. */
    ghost predicate Shaped()
      reads `keys, `values, `counts, `numBucketsIdx
    {
      && numBucketsIdx <= LAST
      && keys.Length == values.Length == counts.Length == TableSize(numBucketsIdx)
      && (f.hasKeys ==> keys != values) && (!f.hasKeys ==> keys == values)
      && keys as object != counts && values as object != counts
    }

    /** Between operations: the buckets represent the contents, used_buckets counts the live ones and stays within
        capacity, the 16-bit deleted field counts the tombstones exactly, and in a table of 20 or more buckets there
        are fewer tombstones than a quarter of them. */
    ghost predicate Valid()
      reads this, keys, values, counts
    {
      && Shaped()
      && Consistent(f, State(), where)
      && usedBuckets == |where| <= TableCapacity(numBucketsIdx)
      && deleted == multiset(keys[..])[DELETED] < 0x1_0000
      && (20 <= keys.Length ==> deleted < keys.Length / 4)
      && CountsFit()
    }

    ghost predicate CountsFit()
      reads `counts, `countsWidth, counts
    {
      countsWidth <= 3 && (f.hasCounts ==> forall i: nat :: i < counts.Length ==> counts[i] <= CountLimit(countsWidth))
    }

    /** The ideal map this table stands for. */
    ghost function Contents(): map<u64, Entry>
      reads `keys, `values, `counts, `where, keys, values, counts
      requires Consistent(f, State(), where)
    {
      Model(f, State(), where)
    }

    constructor (f: Keying, fastGrow: bool)
      ensures Valid() && Contents() == map[] && fresh(keys) && fresh(values) && fresh(counts)
      ensures this.f == f && this.fastGrow == fastGrow && numBucketsIdx == 0
    {
      hide TableSize, TableCapacity;
      this.f := f;
      this.fastGrow := fastGrow;
      var none := new u64[0];
      var none2 := new u64[0];
      values := none;
      keys := if f.hasKeys then none2 else none;
      counts := new nat[0];
      numBucketsIdx := 0;
      usedBuckets := 0;
      deleted := 0;
      countsWidth := 0;
      where := map[];
      new;
      EmptyTable();
      ClearIsConsistent(f, State());
    }

    // ---- Probing ----

    /** ___CFBasicHashFindBucket_Linear: the bucket of the key with its count, or count 0 and the first bucket on from
        the hash that is not live, which an add should fill, -1 when there is none. */
    method FindBucket(key: u64) returns (idx: int, count: nat)
      requires Valid()
      ensures f.cls(key) in where ==> idx == where[f.cls(key)] && 0 <= idx < keys.Length
                                      && count == Contents()[f.cls(key)].count
      ensures f.cls(key) !in where ==> count == 0 && (idx == -1 || (0 <= idx && FreeFor(f, State(), f.cls(key), idx)))
      ensures f.cls(key) !in where && usedBuckets < keys.Length ==> idx != -1
      ensures f.cls(key) !in where && idx != -1 ==> FirstFree(f, State(), f.cls(key), idx)
    {
      hide TableSize, TableCapacity, Path, Consistent, Model, Searched, NoTombstone, First, FirstFree;
      ghost var s := State();
      var c := f.cls(key);
      var n := keys.Length;
      SizeIsPositive(numBucketsIdx);
      if numBucketsIdx == 0 {
        FullSearch(f, s, where, c);
        return -1, 0;
      }
      var h := First(f, c, n);
      var deletedIdx := -1;
      var probe := h;
      SearchedNothing(f, s, c);
      for j := 0 to n
        invariant j < n ==> probe == Probe(h, j, n)
        invariant -1 <= deletedIdx < n
        invariant deletedIdx != -1 ==> FreeFor(f, s, c, deletedIdx) && FirstFree(f, s, c, deletedIdx)
        invariant Searched(f, s, c, j)
        invariant deletedIdx == -1 ==> NoTombstone(f, s, c, j)
      {
        var currKey := keys[probe];
        if currKey == EMPTY {
          EmptyEndsSearch(f, s, where, c, j);
          SearchedIsPath(f, s, c, j);
          if deletedIdx == -1 {
            FoundFree(f, s, c, j);
          }
          return if deletedIdx == -1 then probe else deletedIdx, 0;
        } else if currKey == DELETED {
          if deletedIdx == -1 {
            SearchedIsPath(f, s, c, j);
            FoundFree(f, s, c, j);
            deletedIdx := probe;
          }
        } else if f.cls(Decode(currKey)) == c {
          FoundAt(f, s, where, probe);
          return probe, if f.hasCounts then counts[probe] else 1;
        }
        assert Live(currKey) ==> KeyClass(f, s, probe) != c;
        SearchOn(f, s, c, j);
        probe := probe + 1;
        if n <= probe {
          probe := probe - n;
        }
      }
      FullSearch(f, s, where, c);
      return deletedIdx, 0;
    }

    /** ___CFBasicHashFindBucket_Linear_NoCollision: in arrays without tombstones that do not hold the class, the first
        empty bucket probed. */
    method FindBucketNoCollision(c: u64) returns (idx: int)
      requires Shaped() && Consistent(f, State(), where)
      requires DELETED !in keys[..] && c !in where && |where| < keys.Length
      ensures 0 <= idx < keys.Length && FreeFor(f, State(), c, idx)
      ensures FirstFree(f, State(), c, idx)
    {
      hide TableSize, TableCapacity, Path, Consistent, Searched, NoTombstone, First, FirstFree;
      ghost var s := State();
      var n := keys.Length;
      var probe := First(f, c, n);
      SearchedNothing(f, s, c);
      for j := 0 to n
        invariant j < n ==> probe == Probe(First(f, c, n), j, n)
        invariant Searched(f, s, c, j) && NoTombstone(f, s, c, j)
      {
        if keys[probe] == EMPTY {
          SearchedIsPath(f, s, c, j);
          FoundFree(f, s, c, j);
          return probe;
        }
        assert keys[probe] in keys[..];
        FoundAt(f, s, where, probe);
        SearchOn(f, s, c, j);
        probe := probe + 1;
        if n <= probe {
          probe := probe - n;
        }
      }
      FullSearch(f, s, where, c);
      assert false;
      idx := -1;
    }

    // ---- Stores ----

    /** __CFBasicHashSetValue and __CFBasicHashSetKey */
    method Store(idx: nat, key: u64, value: u64)
      requires Shaped() && idx < keys.Length && (!f.hasKeys ==> key == value)
      modifies keys, values
      ensures State() == Put(old(State()), idx, Encode(key), Encode(value), counts[idx])
    {
      values[idx] := Encode(value);
      if f.hasKeys {
        keys[idx] := Encode(key);
      }
      assert keys[..] == old(keys[..])[idx := Encode(key)];
      assert values[..] == old(values[..])[idx := Encode(value)];
      assert counts[..] == old(counts[..])[idx := counts[idx]];
    }

    /** __CFBasicHashBumpCounts: the next wider array holds the same counts. */
    method BumpCounts()
      requires Shaped() && CountsFit() && countsWidth < 3
      modifies this`counts, this`countsWidth
      ensures fresh(counts) && counts[..] == old(counts[..]) && Shaped() && CountsFit()
      ensures countsWidth == old(countsWidth) + 1
    {
      var narrow := counts;
      var wider := new nat[narrow.Length];
      for i := 0 to narrow.Length
        invariant wider[..i] == narrow[..i]
        modifies wider
      {
        wider[i] := narrow[i];
        assert wider[..i + 1] == wider[..i] + [narrow[i]] && narrow[..i + 1] == narrow[..i] + [narrow[i]];
      }
      assert wider[..] == wider[..narrow.Length] && narrow[..] == narrow[..narrow.Length];
      countsWidth := countsWidth + 1;
      counts := wider;
      assert forall i: nat :: i < counts.Length ==> counts[i] == narrow[..][i];
    }

    /** __CFBasicHashIncSlotCount: widening in mid-increment loses nothing. */
    method IncSlotCount(idx: nat)
      requires Shaped() && CountsFit() && idx < counts.Length && f.hasCounts && counts[idx] < LONG_MAX
      modifies this`counts, this`countsWidth, counts
      ensures Shaped() && CountsFit() && (fresh(counts) || counts == old(counts))
      ensures counts[..] == old(counts[..])[idx := old(counts[idx]) + 1]
      ensures old(counts[idx]) < CountLimit(countsWidth)
      ensures if old(counts[idx]) < CountLimit(old(countsWidth))
              then countsWidth == old(countsWidth) && counts == old(counts)
              else countsWidth > old(countsWidth) && old(counts[idx]) >= CountLimit(countsWidth - 1)
      decreases 3 - countsWidth
    {
      if counts[idx] < CountLimit(countsWidth) {
        counts[idx] := counts[idx] + 1;
        return;
      }
      BumpCounts();
      assert counts[idx] == old(counts[..])[idx];
      IncSlotCount(idx);
    }

    // ---- Rehashing ----

    /** __CFBasicHashGetNumBucketsIndexForCapacity: the first index with the capacity. */
    method NumBucketsIndexForCapacity(capacity: nat) returns (idx: nat)
      requires capacity <= TableCapacity(LAST)
      ensures IsFirstFit(idx, capacity)
    {
      hide TableCapacity;
      for i := 0 to LAST
        invariant forall k: nat :: k < i ==> TableCapacity(k) < capacity
      {
        if capacity <= TableCapacity(i) {
          return i;
        }
      }
      return LAST;
    }

    /** The size a rehash goes to. */
    method RehashIndex(newItemCount: int) returns (newIdx: nat)
      requires Shaped() && usedBuckets <= TableCapacity(numBucketsIdx)
      requires CanRehash(fastGrow, usedBuckets, newItemCount)
      ensures newIdx <= LAST && RehashesTo(fastGrow, numBucketsIdx, usedBuckets, newItemCount, newIdx)
      ensures usedBuckets + (if newItemCount < 0 then 0 else newItemCount) <= TableCapacity(newIdx)
    {
      hide TableSize, TableCapacity;
      newIdx := numBucketsIdx;
      if newItemCount != 0 {
        var more := if newItemCount < 0 then 0 else newItemCount;
        CapacityGrows(numBucketsIdx, LAST);
        CapacityGrows(LAST - 1, LAST);
        newIdx := NumBucketsIndexForCapacity(usedBuckets + more);
        if newItemCount == 1 && fastGrow {
          newIdx := newIdx + 1;
        }
        RehashStaysInTableIff(fastGrow, numBucketsIdx, usedBuckets, newItemCount, newIdx);
        if newItemCount == 1 && fastGrow {
          CapacityGrows(newIdx - 1, newIdx);
        }
      }
    }

    /** Fresh arrays, all empty. */
    method Allocate(newIdx: nat)
      requires newIdx <= LAST && countsWidth <= 3
      modifies this`keys, this`values, this`counts, this`numBucketsIdx, this`deleted, this`where
      ensures Shaped() && CountsFit() && fresh(keys) && fresh(values) && fresh(counts)
      ensures numBucketsIdx == newIdx && deleted == 0 && where == map[]
      ensures forall i: nat :: i < keys.Length ==> keys[i] == EMPTY && values[i] == EMPTY && counts[i] == 0
    {
      hide TableSize;
      var n := TableSize(newIdx);
      values := new u64[n](_ => EMPTY);
      if f.hasKeys {
        keys := new u64[n](_ => EMPTY);
      } else {
        keys := values;
      }
      counts := new nat[n](_ => 0);
      numBucketsIdx := newIdx;
      deleted := 0;
      where := map[];
    }

    /** __CFBasicHashRehash: grow (positive), shrink (negative) or sweep (zero). Every entry survives and every
        tombstone is gone. */
    method Rehash(newItemCount: int)
      requires Shaped() && Consistent(f, State(), where) && CountsFit() && usedBuckets == |where|
      requires usedBuckets <= TableCapacity(numBucketsIdx)
      requires CanRehash(fastGrow, usedBuckets, newItemCount)
      modifies this
      ensures Valid() && Contents() == old(Contents()) && fresh(keys) && fresh(values) && fresh(counts)
      ensures deleted == 0 && usedBuckets == old(usedBuckets)
      ensures RehashesTo(fastGrow, old(numBucketsIdx), usedBuckets, newItemCount, numBucketsIdx)
      ensures usedBuckets + (if newItemCount < 0 then 0 else newItemCount) <= TableCapacity(numBucketsIdx)
      ensures DELETED !in keys[..] && where.Keys == old(where.Keys)
    {
      hide TableSize, TableCapacity, Consistent, Model, CanRehash, RehashesTo;
      ghost var old_, oldWhere := State(), where;
      var oldKeys, oldValues, oldCounts := keys, values, counts;
      var newIdx := RehashIndex(newItemCount);
      Allocate(newIdx);
      NothingMoved(f, old_, oldWhere, State());
      SizeIsPositive(newIdx);
      MoveAll(oldKeys, oldValues, oldCounts, old_, oldWhere);
      FinishMove(old_, oldWhere);
      KeysOfModel(f, old_, oldWhere);
      KeysOfModel(f, State(), where);
    }

    lemma FinishMove(old_: Slots, oldWhere: map<u64, nat>)
      requires Shaped() && CountsFit() && Moved(f, old_, oldWhere, State(), where, |old_.keys|)
      requires usedBuckets == |oldWhere| <= TableCapacity(numBucketsIdx) && deleted == 0
      ensures Valid() && Contents() == Model(f, old_, oldWhere) && DELETED !in keys[..]
    {
      hide TableSize, TableCapacity, Consistent, Model;
      AllMoved(f, old_, oldWhere, State(), where);
      NoneDeleted(State());
    }

    /** The loop that moves every live bucket into the new arrays. */
    method MoveAll(oldKeys: array<u64>, oldValues: array<u64>, oldCounts: array<nat>,
                   ghost old_: Slots, ghost oldWhere: map<u64, nat>)
      requires Shaped() && CountsFit()
      requires oldKeys != keys && oldKeys != values && oldValues != keys && oldValues != values && oldCounts != counts
      requires oldKeys as object != counts && oldValues as object != counts
      requires oldCounts as object != keys && oldCounts as object != values
      requires old_ == Slots(oldKeys[..], oldValues[..], oldCounts[..])
      requires Moved(f, old_, oldWhere, State(), where, 0)
      requires |oldWhere| <= keys.Length
      requires f.hasCounts ==> forall i: nat :: i < oldCounts.Length ==> oldCounts[i] <= CountLimit(countsWidth)
      modifies this`where, keys, values, counts
      ensures Shaped() && CountsFit()
      ensures Moved(f, old_, oldWhere, State(), where, |old_.keys|)
    {
      hide TableSize, TableCapacity, Consistent, Model, FreeFor;
      for idx := 0 to oldKeys.Length
        invariant CountsFit()
        invariant Moved(f, old_, oldWhere, State(), where, idx)
        modifies this`where, keys, values, counts
      {
        MatchedBucket(f, old_, oldWhere, idx);
        var w := oldValues[idx];
        if Live(w) {
          DecodeIsNoSentinel(w);
          DecodeIsNoSentinel(oldKeys[idx]);
          var key := Decode(if f.hasKeys then oldKeys[idx] else w);
          MoveOne(key, Decode(w), oldCounts[idx], idx, old_, oldWhere);
        } else {
          SkipBucket(f, old_, oldWhere, State(), where, idx);
        }
      }
    }

    /** One live bucket goes into the new arrays. */
    method MoveOne(key: u64, value: u64, count: nat, ghost idx: nat, ghost old_: Slots, ghost oldWhere: map<u64, nat>)
      requires Shaped() && CountsFit() && Moved(f, old_, oldWhere, State(), where, idx) && |oldWhere| <= keys.Length
      requires idx < |old_.keys| == |old_.values| == |old_.counts| && Live(old_.keys[idx])
      requires key == Decode(old_.keys[idx]) && Encode(key) == old_.keys[idx] && Encode(value) == old_.values[idx]
      requires count == old_.counts[idx] && (f.hasCounts ==> count <= CountLimit(countsWidth))
      requires !f.hasKeys ==> key == value
      modifies this`where, keys, values, counts
      ensures Shaped() && CountsFit() && Moved(f, old_, oldWhere, State(), where, idx + 1)
    {
      hide TableSize, TableCapacity, Consistent, Model, FreeFor, FirstFree;
      BucketIsNew(f, old_, oldWhere, State(), where, idx);
      NoneDeleted(State());
      var bkt := FindBucketNoCollision(f.cls(key));
      MoveBucket(f, old_, oldWhere, State(), where, idx, bkt);
      ghost var s := State();
      Store(bkt, key, value);
      counts[bkt] := count;
      assert State() == Put(s, bkt, old_.keys[idx], old_.values[idx], old_.counts[idx]);
      where := where[f.cls(key) := bkt];
    }

    lemma NoneDeleted(s: Slots)
      requires forall p: nat :: p < |s.keys| ==> s.keys[p] != DELETED
      ensures DELETED !in s.keys
    {
    }

    // ---- Adding and removing buckets ----

    /** One more class can be added: below capacity no rehash comes first, and a full table has a size to grow to. */
    predicate CanAdd()
      reads `numBucketsIdx, `usedBuckets
    {
      usedBuckets < TableCapacity(numBucketsIdx) || CanRehash(fastGrow, usedBuckets, 1)
    }

    /** The size after adding a class: the same, or from a full table the next one, or the one after that. */
    twostate predicate GrewIfFull()
      reads this
    {
      && old(numBucketsIdx) <= numBucketsIdx <= LAST
      && numBucketsIdx == if old(usedBuckets) < TableCapacity(old(numBucketsIdx)) then old(numBucketsIdx)
                          else old(numBucketsIdx) + if fastGrow then 2 else 1
    }

    /** Bucket bkt can take a class that is not present. The deleted field no longer counts bkt if that is a
        tombstone. */
    ghost predicate Ready(bkt: int, c: u64)
      reads this, keys, values, counts
    {
      && Shaped() && Consistent(f, State(), where) && CountsFit()
      && 0 <= bkt < keys.Length && c !in where && FreeFor(f, State(), c, bkt)
      && usedBuckets == |where| < TableCapacity(numBucketsIdx)
      && deleted == multiset(keys[..])[DELETED] - (if keys[bkt] == DELETED then 1 else 0)
      && deleted < 0x1_0000 && (20 <= keys.Length ==> deleted < keys.Length / 4)
    }

    /** __CFBasicHashAddValue: a new class goes to the bucket found for it, or to another one after growing. */
    method AddBucket(idx: int, key: u64, value: u64)
      requires Valid() && !IsSentinel(key) && !IsSentinel(value) && (!f.hasKeys ==> key == value)
      requires f.cls(key) !in where && CanAdd()
      requires usedBuckets < keys.Length ==> 0 <= idx && FreeFor(f, State(), f.cls(key), idx)
      modifies this, keys, values, counts
      ensures Valid() && Owned() && GrewIfFull()
      ensures Contents() == old(Contents())[f.cls(key) := Entry(key, value, 1)]
    {
      hide Shaped, CountsFit, Consistent, Model, FreeFor, CanRehash, TableSize, TableCapacity;
      var bkt := FindRoom(idx, f.cls(key));
      FillBucket(bkt, key, value);
    }

    method GrowForOne(c: u64) returns (bkt: nat)
      requires Valid() && c !in where && CanAdd() && TableCapacity(numBucketsIdx) < usedBuckets + 1
      modifies this
      ensures Ready(bkt, c) && Owned() && Contents() == old(Contents()) && GrewIfFull()
    {
      hide TableSize, TableCapacity, Consistent, Model, FreeFor, FirstFree, CanRehash, RehashesTo, CountsFit;
      FullTableGrows(fastGrow, numBucketsIdx, 0);
      Rehash(1);
      FullTableGrows(fastGrow, old(numBucketsIdx), numBucketsIdx);
      SizeIsPositive(numBucketsIdx);
      bkt := FindBucketNoCollision(c);
      assert keys[bkt] in keys[..];
    }

    method FindRoom(idx: int, c: u64) returns (bkt: nat)
      requires Valid() && c !in where && CanAdd()
      requires usedBuckets < keys.Length ==> 0 <= idx && FreeFor(f, State(), c, idx)
      modifies this
      ensures Ready(bkt, c) && Owned() && Contents() == old(Contents()) && GrewIfFull()
    {
      hide TableSize, TableCapacity, Consistent, Model, FreeFor, CanRehash, RehashesTo, CountsFit;
      SizeIsPositive(numBucketsIdx);
      if TableCapacity(numBucketsIdx) < usedBuckets + 1 {
        bkt := GrowForOne(c);
      } else {
        bkt := idx;
        NotLive(State(), bkt, c);
        MatchedBucket(f, State(), where, bkt);
        if values[bkt] == DELETED {
          TombstonesAfter(keys[..], bkt, DELETED);
          deleted := deleted - 1;
        }
      }
    }

    /** The rest of adding: store the key and value, count one, and one more bucket is in use. */
    method FillBucket(bkt: nat, key: u64, value: u64)
      requires Ready(bkt, f.cls(key))
      requires !IsSentinel(key) && !IsSentinel(value) && (!f.hasKeys ==> key == value)
      modifies this, keys, values, counts
      ensures Valid() && Owned() && numBucketsIdx == old(numBucketsIdx)
      ensures Contents() == old(Contents())[f.cls(key) := Entry(key, value, 1)]
    {
      hide TableSize, TableCapacity, Consistent, Model, FreeFor, CountsFit;
      ghost var s, was := State(), where;
      MatchedBucket(f, s, was, bkt);
      NotLive(s, bkt, f.cls(key));
      ghost var count := if f.hasCounts then 1 else counts[bkt];
      AddKeeps(f, s, was, bkt, key, value, count);
      TombstonesAfter(s.keys, bkt, Encode(key));
      StoreNew(bkt, key, value, count);
      where := was[f.cls(key) := bkt];
      usedBuckets := usedBuckets + 1;
      Settled(|was| + 1);
    }

    lemma Settled(used: nat)
      requires Shaped() && Consistent(f, State(), where) && CountsFit()
      requires usedBuckets == |where| == used <= TableCapacity(numBucketsIdx)
      requires deleted == multiset(State().keys)[DELETED] < 0x1_0000
      requires 20 <= keys.Length ==> deleted < keys.Length / 4
      ensures Valid()
    {
    }

    method StoreNew(bkt: nat, key: u64, value: u64, ghost count: nat)
      requires Shaped() && CountsFit() && bkt < keys.Length && (!f.hasKeys ==> key == value)
      requires if f.hasCounts then counts[bkt] == 0 && count == 1 else count == counts[bkt]
      modifies this`counts, this`countsWidth, keys, values, counts
      ensures Shaped() && CountsFit() && (fresh(counts) || counts == old(counts))
      ensures State() == Put(old(State()), bkt, Encode(key), Encode(value), count)
    {
      hide TableSize;
      ghost var s := State();
      Store(bkt, key, value);
      if f.hasCounts {
        assert counts[..] == s.counts;
        IncSlotCount(bkt);
      }
      assert State().counts == s.counts[bkt := count];
    }

    lemma NotLive(s: Slots, i: nat, c: u64)
      requires FreeFor(f, s, c, i)
      ensures i < |s.keys| && !Live(s.keys[i])
    {
    }

    /** What a removal leaves: a table not much larger than its contents need. */
    ghost predicate WellSized()
      reads `numBucketsIdx, `usedBuckets
    {
      var slack := if fastGrow then 5 else 2;
      slack < numBucketsIdx ==> TableCapacity(numBucketsIdx - slack) <= usedBuckets
    }

    /** __CFBasicHashRemoveValue: leave a tombstone, then shrink, or sweep when tombstones are many or their 16-bit
        count has rolled over to zero. */
    method RemoveBucket(idx: nat, ghost c: u64)
      requires Valid() && c in where && where[c] == idx
      requires f.hasCounts ==> Contents()[c].count == 1
      modifies this, keys, values, counts
      ensures Valid() && Owned()
      ensures Contents() == old(Contents()) - {c}
      ensures usedBuckets == old(usedBuckets) - 1 && WellSized()
    {
      hide TableSize, TableCapacity, Consistent, Model, CanRehash, CountsFit, WellSized;
      EmptyBucket(idx, c);
      ShrinkOrSweep();
    }

    /** Two sizes smaller would be enough, or five in a table that grows fast. */
    predicate TooLarge()
      reads `numBucketsIdx, `usedBuckets
    {
      if fastGrow then numBucketsIdx > 5 && usedBuckets < TableCapacity(numBucketsIdx - 5)
      else numBucketsIdx > 2 && usedBuckets < TableCapacity(numBucketsIdx - 2)
    }

    /** The tombstones are a quarter of 20 or more buckets, or their count has rolled over. */
    predicate ToSweep()
      reads `numBucketsIdx, `deleted
    {
      deleted == 0 || (TableSize(numBucketsIdx) >= 20 && deleted >= TableSize(numBucketsIdx) / 4)
    }

    /** The second half of __CFBasicHashRemoveValue. The true number of tombstones is the deleted field, or 2^16 when
        that has just rolled over. */
    method ShrinkOrSweep()
      requires Shaped() && Consistent(f, State(), where) && CountsFit()
      requires usedBuckets == |where| <= TableCapacity(numBucketsIdx)
      requires deleted < 0x1_0000 && (multiset(keys[..])[DELETED] == deleted || deleted == 0)
      modifies this
      ensures Valid() && Owned() && Contents() == old(Contents()) && usedBuckets == old(usedBuckets)
      ensures WellSized()
      ensures if old(TooLarge())
              then RehashesTo(fastGrow, old(numBucketsIdx), usedBuckets, -1, numBucketsIdx) && deleted == 0
              else && numBucketsIdx == old(numBucketsIdx)
                   && if old(ToSweep()) then deleted == 0 else State() == old(State()) && deleted == old(deleted)
    {
      hide TableSize, TableCapacity, Consistent, Model, CountsFit;
      SizeIsPositive(numBucketsIdx);
      var doShrink := if fastGrow
        then 5 < numBucketsIdx && usedBuckets < TableCapacity(numBucketsIdx - 5)
        else 2 < numBucketsIdx && usedBuckets < TableCapacity(numBucketsIdx - 2);
      if doShrink {
        Rehash(-1);
        return;
      }
      doShrink := 0 == deleted;  // the count has rolled over
      var numBuckets := TableSize(numBucketsIdx);
      doShrink := doShrink || (20 <= numBuckets && numBuckets / 4 <= deleted);
      if doShrink {
        Rehash(0);
      }
    }

    /** What a tombstone in place of class c will stand for. */
    lemma TombstoneFacts(idx: nat, c: u64, count: nat)
      requires Valid() && c in where && where[c] == idx && (f.hasCounts ==> Contents()[c].count == 1)
      requires idx < counts.Length ==> count == if f.hasCounts then 0 else counts[idx]
      ensures Shaped() && CountsFit() && idx < keys.Length && keys.Length == counts.Length
      ensures f.hasCounts ==> counts[idx] == 1
      ensures var s, where' := Put(State(), idx, DELETED, DELETED, count), where - {c};
              && Consistent(f, s, where') && Model(f, s, where') == Contents() - {c}
              && multiset(s.keys)[DELETED] == deleted + 1
              && |where'| == usedBuckets - 1
    {
      hide TableSize, TableCapacity, Consistent, Model, CountsFit, First;
      PresentInModel(f, State(), where, c);
      SameLengths(f, State(), where);
      RemoveKeeps(f, State(), where, c, count);
      TombstonesAfter(keys[..], idx, DELETED);
    }

    /** The stores of a removal: the bucket becomes a tombstone, and the 16-bit count of tombstones goes up by one. */
    method EmptyBucket(idx: nat, ghost c: u64)
      requires Valid() && c in where && where[c] == idx
      requires f.hasCounts ==> Contents()[c].count == 1
      modifies this`where, this`usedBuckets, this`deleted, keys, values, counts
      ensures Shaped() && Consistent(f, State(), where) && CountsFit()
      ensures Contents() == old(Contents()) - {c}
      ensures usedBuckets == |where| == old(usedBuckets) - 1
      ensures multiset(keys[..])[DELETED] == old(deleted) + 1 && deleted == (old(deleted) + 1) % 0x1_0000
    {
      hide TableSize, TableCapacity, Consistent, Model, CountsFit, Valid, Put, Shaped;
      ghost var count := if f.hasCounts || counts.Length <= idx then 0 else counts[idx];
      TombstoneFacts(idx, c, count);
      Erase(idx, count);
      where := where - {c};
      usedBuckets := usedBuckets - 1;
      deleted := (deleted + 1) % 0x1_0000;
    }

    method Erase(idx: nat, ghost count: nat)
      requires Shaped() && CountsFit() && idx < keys.Length
      requires if f.hasCounts then counts[idx] == 1 && count == 0 else count == counts[idx]
      modifies keys, values, counts
      ensures CountsFit() && State() == Put(old(State()), idx, DELETED, DELETED, count)
    {
      hide TableSize;
      values[idx] := DELETED;
      if f.hasKeys {
        keys[idx] := DELETED;
      }
      if f.hasCounts {
        counts[idx] := counts[idx] - 1;
      }
      assert keys[..] == old(keys[..])[idx := DELETED];
      assert values[..] == old(values[..])[idx := DELETED];
      assert counts[..] == old(counts[..])[idx := count];
    }

    // ---- Counting and replacing in a live bucket ----

    method CountUp(idx: nat, ghost c: u64)
      requires Valid() && f.hasCounts && c in where && where[c] == idx && Contents()[c].count < LONG_MAX
      modifies `counts, `countsWidth, counts
      ensures Valid() && Owned()
      ensures c in old(Contents())
              && Contents() == old(Contents())[c := old(Contents())[c].(count := old(Contents())[c].count + 1)]
    {
      hide TableSize, TableCapacity, Consistent, Model, CountsFit;
      ghost var s := State();
      PresentInModel(f, s, where, c);
      RecountKeeps(f, s, where, c, Contents()[c].count + 1);
      IncSlotCount(idx);
      assert State() == s.(counts := s.counts[idx := s.counts[idx] + 1]);
      Settled(usedBuckets);
    }

    /** __CFBasicHashDecSlotCount */
    method CountDown(idx: nat, ghost c: u64)
      requires Valid() && f.hasCounts && c in where && where[c] == idx && 1 < Contents()[c].count
      modifies counts
      ensures Valid() && Owned()
      ensures c in old(Contents())
              && Contents() == old(Contents())[c := old(Contents())[c].(count := old(Contents())[c].count - 1)]
    {
      hide TableSize, TableCapacity, Consistent, Model;
      ghost var s := State();
      PresentInModel(f, s, where, c);
      RecountKeeps(f, s, where, c, Contents()[c].count - 1);
      counts[idx] := counts[idx] - 1;
      assert State() == s.(counts := s.counts[idx := s.counts[idx] - 1]);
      Settled(usedBuckets);
    }

    /** __CFBasicHashReplaceValue */
    method ReplaceBucket(idx: nat, key: u64, value: u64)
      requires Valid() && !IsSentinel(key) && !IsSentinel(value) && (!f.hasKeys ==> key == value)
      requires f.cls(key) in where && where[f.cls(key)] == idx
      modifies keys, values
      ensures Valid()
      ensures f.cls(key) in old(Contents())
      ensures Contents() == old(Contents())[f.cls(key) := Entry(key, value, old(Contents())[f.cls(key)].count)]
    {
      hide TableSize, TableCapacity, Consistent, Model, CountsFit;
      ghost var s := State();
      PresentInModel(f, s, where, f.cls(key));
      MatchedBucket(f, s, where, idx);
      ReplaceKeeps(f, s, where, f.cls(key), key, value, s.counts[idx]);
      TombstonesAfter(s.keys, idx, Encode(key));
      Store(idx, key, value);
      Settled(usedBuckets);
    }

    // ---- The operations ----

    /** The ideal contents count as the ideal operations expect, one class a used bucket. */
    lemma ContentsAreCounted()
      requires Valid()
      ensures Counted(f, Contents()) && |Contents()| == usedBuckets && Contents().Keys == where.Keys
    {
      hide TableSize, TableCapacity, Consistent, Model;
      KeysOfModel(f, State(), where);
      assert |Contents().Keys| == |where.Keys|;
      forall c | c in Contents()
        ensures 1 <= Contents()[c].count <= LONG_MAX && (!f.hasCounts ==> Contents()[c].count == 1)
      {
        PresentInModel(f, State(), where, c);
        MatchedBucket(f, State(), where, where[c]);
      }
    }

    /** The contents are storable: keys in their classes, no sentinels, and counts as the kind has them. */
    lemma ContentsAreStorable()
      requires Valid()
      ensures Storable(f, Contents())
    {
      hide TableSize, TableCapacity, Consistent, Model;
      ContentsAreCounted();
      forall c | c in Contents()
        ensures Holdable(f, c, Contents()[c])
      {
        PresentInModel(f, State(), where, c);
        MatchedBucket(f, State(), where, where[c]);
        DecodeIsNoSentinel(State().keys[where[c]]);
        DecodeIsNoSentinel(State().values[where[c]]);
      }
    }

    /** The accounting of every valid table: used_buckets is the number of live buckets, within capacity, and the
        16-bit deleted field the number of tombstones, few of them in a table of 20 or more buckets. */
    lemma Accounting()
      requires Valid()
      ensures usedBuckets == LiveCount(keys[..]) <= TableCapacity(numBucketsIdx)
      ensures deleted == multiset(keys[..])[DELETED] < 0x1_0000
      ensures 20 <= keys.Length ==> multiset(keys[..])[DELETED] < keys.Length / 4
    {
      hide TableSize, TableCapacity, Consistent;
      LiveBucketsAreClasses(f, State(), where, keys.Length);
    }

    /** A class can be added unless the table is full at its last size, or growing fast and full at the last but one. */
    lemma CanAddIff()
      requires Valid()
      ensures CanAdd() <==> usedBuckets < TableCapacity(numBucketsIdx)
                            || numBucketsIdx < if fastGrow then LAST - 1 else LAST
      ensures |Contents()| < TableCapacity(if fastGrow then LAST - 1 else LAST) ==> CanAdd()
    {
      hide TableSize, TableCapacity, Consistent, Model;
      ContentsAreCounted();
      FullTableGrows(fastGrow, numBucketsIdx, 0);
    }

    /** CFBasicHashAddValue: whether the contents have changed. */
    method AddValue(key: u64, value: u64) returns (added: bool)
      requires Valid() && Legal(f, Add(key, value))
      requires f.cls(key) in Contents() || CanAdd()
      modifies this, keys, values, counts
      ensures Valid() && Owned()
      ensures Contents() == IdealAdd(f, old(Contents()), key, value)
      ensures OthersKept(old(Contents()), Contents(), f.cls(key)) && f.cls(key) in Contents()
      ensures f.cls(key) !in old(Contents()) ==> added && Contents()[f.cls(key)] == Entry(key, value, 1)
      ensures f.cls(key) in old(Contents()) && !f.hasCounts ==> !added && Contents() == old(Contents())
      ensures f.cls(key) in old(Contents()) && f.hasCounts ==>
                var was := old(Contents())[f.cls(key)];
                && added == (was.count < LONG_MAX)
                && Contents()[f.cls(key)] == Entry(was.key, was.value, if added then was.count + 1 else LONG_MAX)
      ensures if f.cls(key) in old(Contents()) then numBucketsIdx == old(numBucketsIdx) else GrewIfFull()
      ensures added == (Change(f, old(Contents()), Add(key, value)) == 1)
    {
      hide Shaped, CountsFit, Consistent, Model, FreeFor, CanRehash, TableSize, TableCapacity;
      ContentsAreCounted();
      AddMeans(f, Contents(), key, value);
      var idx, count := FindBucket(key);
      if 0 < count {
        if f.hasCounts && count < LONG_MAX {
          CountUp(idx, f.cls(key));
          return true;
        }
      } else {
        AddBucket(idx, key, value);
        return true;
      }
      return false;
    }

    /** CFBasicHashReplaceValue */
    method ReplaceValue(key: u64, value: u64)
      requires Valid() && Legal(f, Replace(key, value))
      modifies this, keys, values, counts
      ensures Valid() && Owned()
      ensures Contents() == IdealReplace(f, old(Contents()), key, value) && numBucketsIdx == old(numBucketsIdx)
      ensures OthersKept(old(Contents()), Contents(), f.cls(key))
      ensures f.cls(key) in Contents() <==> f.cls(key) in old(Contents())
      ensures f.cls(key) in old(Contents()) ==>
                Contents()[f.cls(key)] == Entry(key, value, old(Contents())[f.cls(key)].count)
    {
      hide Shaped, CountsFit, Consistent, Model, FreeFor, CanRehash, TableSize, TableCapacity;
      ContentsAreCounted();
      ReplaceMeans(f, Contents(), key, value);
      var idx, count := FindBucket(key);
      if 0 < count {
        ReplaceBucket(idx, key, value);
      }
    }

    /** CFBasicHashSetValue */
    method SetValue(key: u64, value: u64)
      requires Valid() && Legal(f, Set(key, value))
      requires f.cls(key) in Contents() || CanAdd()
      modifies this, keys, values, counts
      ensures Valid() && Owned()
      ensures Contents() == IdealSet(f, old(Contents()), key, value)
      ensures OthersKept(old(Contents()), Contents(), f.cls(key)) && f.cls(key) in Contents()
      ensures var was := old(Contents());
              Contents()[f.cls(key)] == Entry(key, value, if f.cls(key) in was then was[f.cls(key)].count else 1)
      ensures if f.cls(key) in old(Contents()) then numBucketsIdx == old(numBucketsIdx) else GrewIfFull()
    {
      hide Shaped, CountsFit, Consistent, Model, FreeFor, CanRehash, TableSize, TableCapacity;
      ContentsAreCounted();
      SetMeans(f, Contents(), key, value);
      var idx, count := FindBucket(key);
      if 0 < count {
        ReplaceBucket(idx, key, value);
      } else {
        AddBucket(idx, key, value);
      }
    }

    /** CFBasicHashRemoveValue: the count the key had before. */
    method RemoveValue(key: u64) returns (count: nat)
      requires Valid()
      modifies this, keys, values, counts
      ensures Valid() && Owned()
      ensures Contents() == IdealStep(f, old(Contents()), Remove(key))
      ensures OthersKept(old(Contents()), Contents(), f.cls(key))
      ensures IsSentinel(key) || f.cls(key) !in old(Contents()) ==> count == 0 && Contents() == old(Contents())
      ensures !IsSentinel(key) && f.cls(key) in old(Contents()) ==>
                var was := old(Contents())[f.cls(key)];
                && count == was.count
                && (f.cls(key) in Contents() <==> 1 < count)
                && (1 < count < LONG_MAX ==> Contents()[f.cls(key)] == Entry(was.key, was.value, count - 1))
                && (count == LONG_MAX ==> Contents() == old(Contents()))
    {
      hide Shaped, CountsFit, Consistent, Model, CanRehash, TableSize, TableCapacity;
      ContentsAreCounted();
      RemoveMeans(f, Contents(), key);
      if IsSentinel(key) {
        return 0;
      }
      var idx;
      idx, count := FindBucket(key);
      if 1 < count {
        if f.hasCounts && count < LONG_MAX {
          CountDown(idx, f.cls(key));
        }
      } else if 0 < count {
        RemoveBucket(idx, f.cls(key));
      }
    }

    /** CFBasicHashGetCountOfKey */
    method GetCountOfKey(key: u64) returns (count: nat)
      requires Valid()
      ensures count == if !IsSentinel(key) && f.cls(key) in Contents() then Contents()[f.cls(key)].count else 0
      ensures 0 < count <==> !IsSentinel(key) && f.cls(key) in Contents()
    {
      hide Shaped, CountsFit, Consistent, Model, TableSize, TableCapacity;
      ContentsAreCounted();
      if IsSentinel(key) {
        return 0;
      }
      if usedBuckets == 0 {
        return 0;
      }
      var idx;
      idx, count := FindBucket(key);
    }

    /** CFBasicHashSetCapacity */
    method SetCapacity(capacity: nat)
      requires Valid() && CanRehash(fastGrow, usedBuckets, capacity - usedBuckets)
      modifies this
      ensures Valid() && Owned() && Contents() == old(Contents())
      ensures capacity <= TableCapacity(numBucketsIdx)
      ensures var more := capacity - usedBuckets;
              if 0 < more then RehashesTo(fastGrow, old(numBucketsIdx), usedBuckets, more, numBucketsIdx)
              else unchanged(this)
    {
      hide CountsFit, Consistent, Model, CanRehash, TableSize, TableCapacity;
      if usedBuckets < capacity {
        Rehash(capacity - usedBuckets);
      }
    }

    /** CFBasicHashRemoveAllValues, by __CFBasicHashDrain */
    method RemoveAllValues()
      requires Valid()
      modifies this
      ensures Valid() && Owned() && Contents() == map[]
      ensures numBucketsIdx == usedBuckets == deleted == keys.Length == 0
    {
      hide Consistent, Model, TableSize, TableCapacity;
      ContentsAreCounted();
      EmptyTable();
      if numBucketsIdx == 0 {
        return;
      }
      Allocate(0);
      usedBuckets := 0;
      ClearIsConsistent(f, State());
      Settled(0);
    }

    /** CFBasicHashGetCount */
    method GetCount() returns (total: nat)
      requires Valid()
      ensures total == SumOf(Contents())
    {
      hide TableSize, TableCapacity, Consistent, Model, Part, SumOf;
      ContentsAreCounted();
      if f.hasCounts {
        ghost var s := State();
        PartEnds(f, s, where);
        total := 0;
        SumOfOnes(map[]);
        for idx := 0 to counts.Length
          invariant total == SumOf(Part(f, s, where, idx))
        {
          PartNext(f, s, where, idx);
          if Live(s.keys[idx]) {
            SumWith(Part(f, s, where, idx), KeyClass(f, s, idx), EntryAt(f, s, idx));
          }
          total := total + counts[idx];
        }
        return total;
      }
      SumOfOnes(Contents());
      return usedBuckets;
    }

    /** CFBasicHashGetBucket: the entry of a live bucket, or one that counts 0. */
    method GetBucket(idx: nat) returns (bkt: Entry)
      requires Valid() && idx < keys.Length
      ensures bkt == if Live(State().keys[idx]) then EntryAt(f, State(), idx) else Entry(0, 0, 0)
      ensures Live(State().keys[idx]) ==> 0 < bkt.count
    {
      hide TableSize, TableCapacity, Consistent;
      MatchedBucket(f, State(), where, idx);
      if !Live(values[idx]) {
        return Entry(0, 0, 0);
      }
      return Entry(Decode(if f.hasKeys then keys[idx] else values[idx]), Decode(values[idx]),
                   if f.hasCounts then counts[idx] else 1);
    }

    // ---- Index maps ----

    /** The loop that makes room for value v. */
    method RenumberUp(v: u64)
      requires Valid() && f.hasKeys
      modifies values
      ensures Valid() && Contents() == ReadBackModel(old(Contents()), Up(v)) && keys[..] == old(keys[..])
    {
      hide TableSize, TableCapacity, Consistent, Model, Renumbered, CountsFit;
      ghost var s := State();
      ghost var m := Contents();
      SameLengths(f, s, where);
      RenumberNone(s, Up(v));
      for idx := 0 to values.Length
        invariant State() == Renumbered(s, idx, Up(v))
      {
        RenumberBucket(s, idx, Up(v));
        if Live(values[idx]) {
          var w := Decode(values[idx]);
          if v <= w {
            values[idx] := Encode((w + 1) % TWO_64);
          } else {
            UnchangedWord(values[idx], Up(v));
          }
        }
        assert values[..] == Renumbered(s, idx + 1, Up(v)).values;
      }
      assert m == Model(f, s, where);
      RenumberKeeps(f, s, where, Up(v));
      Settled(usedBuckets);
    }

    /** The loop that closes the gap at value v, and finds the last bucket that holds v. */
    method RenumberDown(v: u64) returns (bktIdx: int, ghost c: u64)
      requires Valid() && f.hasKeys && HasValue(Contents(), v)
      modifies values
      ensures Valid() && Contents() == ReadBackModel(old(Contents()), Down(v)) && keys[..] == old(keys[..])
      ensures c in where && bktIdx == where[c] && c in old(Contents()) && old(Contents())[c].value == v
    {
      hide TableSize, TableCapacity, Consistent, Model, Renumbered, CountsFit;
      ghost var s := State();
      RenumberNone(s, Down(v));
      bktIdx := -1;
      c := 0;
      for idx := 0 to values.Length
        invariant State() == Renumbered(s, idx, Down(v))
        invariant if bktIdx == -1 then NotAmong(Model(f, s, where), where, idx, v)
                  else c in where && where[c] == bktIdx && c in Model(f, s, where) && Model(f, s, where)[c].value == v
      {
        RenumberBucket(s, idx, Down(v));
        MatchedBucket(f, s, where, idx);
        if bktIdx == -1 {
          AmongNext(f, s, where, idx, v);
        }
        if Live(values[idx]) {
          FoundAt(f, s, where, idx);
          PresentInModel(f, s, where, KeyClass(f, s, idx));
          var w := Decode(values[idx]);
          if v == w {
            bktIdx := idx;
            c := KeyClass(f, s, idx);
          }
          if v < w {
            values[idx] := Encode(w - 1);
          } else {
            UnchangedWord(values[idx], Down(v));
          }
        }
        assert values[..] == Renumbered(s, idx + 1, Down(v)).values;
      }
      AmongAll(f, s, where, v);
      RenumberKeeps(f, s, where, Down(v));
      Settled(usedBuckets);
    }

    /** The table grows before the renumbering, so that no rehash comes between it and the add. */
    method RehashFirst(idx: int, c: u64) returns (bkt: int)
      requires Valid() && c !in where && CanAdd()
      requires usedBuckets < keys.Length ==> 0 <= idx && FreeFor(f, State(), c, idx)
      modifies this
      ensures Valid() && Owned() && Contents() == old(Contents()) && where.Keys == old(where.Keys)
      ensures 0 <= bkt && FreeFor(f, State(), c, bkt)
      ensures usedBuckets < TableCapacity(numBucketsIdx) && GrewIfFull()
    {
      hide TableSize, TableCapacity, Consistent, Model, FreeFor, CanRehash, RehashesTo, CountsFit;
      ContentsAreCounted();
      bkt := idx;
      SizeIsPositive(numBucketsIdx);
      if TableCapacity(numBucketsIdx) < usedBuckets + 1 {
        FullTableGrows(fastGrow, numBucketsIdx, 0);
        Rehash(1);
        FullTableGrows(fastGrow, old(numBucketsIdx), numBucketsIdx);
        SizeIsPositive(numBucketsIdx);
        bkt := FindBucketNoCollision(c);
      }
    }

    /** CFBasicHashAddIntValueAndInc */
    method AddIntValueAndInc(key: u64, v: u64) returns (added: bool)
      requires Valid() && f.hasKeys && Legal(f, Add(key, v))
      requires f.cls(key) in Contents() || CanAdd()
      modifies this, keys, values, counts
      ensures Valid() && Owned()
      ensures added == (f.cls(key) !in old(Contents()))
      ensures Contents() == if added then ReadBackModel(old(Contents()), Up(v))[f.cls(key) := Entry(key, v, 1)]
                            else old(Contents())
      ensures added ==> && Contents().Keys == old(Contents()).Keys + {f.cls(key)}
                        && Contents()[f.cls(key)] == Entry(key, v, 1) && MakesRoom(old(Contents()), Contents(), v)
    {
      hide Shaped, CountsFit, Consistent, Model, FreeFor, CanRehash, TableSize, TableCapacity, ReadBackModel, MakesRoom,
           Storable;
      ContentsAreCounted();
      ContentsAreStorable();
      if f.cls(key) !in Contents() {
        AddShifts(f, Contents(), v, f.cls(key), Entry(key, v, 1));
      }
      var idx, count := FindBucket(key);
      if 0 < count {
        return false;
      }
      idx := RehashFirst(idx, f.cls(key));
      ghost var s := State();
      RenumberUp(v);
      FreeForSameKeys(f, s, State(), f.cls(key), idx);
      AddBucket(idx, key, v);
      return true;
    }

    /** CFBasicHashRemoveIntValueAndDec, for a value that some class has: one such class goes. */
    method RemoveIntValueAndDec(v: u64) returns (ghost c: u64)
      requires Valid() && f.hasKeys && !IsSentinel(v) && HasValue(Contents(), v)
      requires f.hasCounts ==> forall d :: d in Contents() && Contents()[d].value == v ==> Contents()[d].count == 1
      modifies this, keys, values, counts
      ensures Valid() && Owned()
      ensures c in old(Contents()) && old(Contents())[c].value == v
      ensures Contents() == ReadBackModel(old(Contents()), Down(v)) - {c}
      ensures Contents().Keys == old(Contents()).Keys - {c} && ClosesGap(old(Contents()), Contents(), v, c)
    {
      hide Shaped, CountsFit, Consistent, Model, FreeFor, CanRehash, TableSize, TableCapacity, ClosesGap, Storable;
      var bktIdx;
      ghost var m := Contents();
      ContentsAreStorable();
      bktIdx, c := RenumberDown(v);
      RemoveShifts(f, m, v, c);
      RemoveBucket(bktIdx, c);
    }
  }
}
