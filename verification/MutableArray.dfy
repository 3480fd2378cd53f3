/** The deque-backed mutable array (CFArray.c) against a plain sequence. */
module MutableArray {
  import opened Bytes
  import opened Powers
  import opened Ordering
  import opened DequeMoves
  import opened ArrayIdeal

  const MAX_COUNT := 0x1FFF_0000  // far enough below 2^31 that no capacity overflows its shift

  /** objc_memmove_collectable, where it is called only for a positive length. */
  method MemMove(dst: array<u64>, d: nat, src: array<u64>, s: nat, n: nat)
    requires d + n <= dst.Length && s + n <= src.Length
    modifies dst
    ensures dst[..] == Copy(old(dst[..]), d, old(src[..]), s, n)
  {
    if 0 < n {
      forall i | 0 <= i < n {
        dst[d + i] := src[s + i];
      }
    }
    assert dst[..d] == old(dst[..d]) && dst[d..d + n] == old(src[s..s + n]) && dst[d + n..] == old(dst[d + n..]);
  }

  /** memset to zero, where it is called only for a positive length. */
  method MemClear(dst: array<u64>, d: nat, n: int)
    requires d + n <= dst.Length
    modifies dst
    ensures dst[..] == ClearSome(old(dst[..]), d, n)
  {
    if n > 0 {
      forall i | 0 <= i < n {
        dst[d + i] := 0;
      }
    }
  }

  class DequeArray {
    const cb: Callbacks
    var store: array?<u64>  // NULL until something is stored
    var leftIdx: nat
    var count: nat
    ghost var log: seq<Event>  // the calls of the callbacks so far

    ghost predicate Valid()
      reads `store, `leftIdx, `count
    {
      && (store == null ==> count == 0)
      && (store != null ==> leftIdx + count <= store.Length <= 0x4000_0000)
    }

    ghost function Contents(): (s: seq<u64>)
      reads `store, `leftIdx, `count, store
      requires Valid()
      ensures |s| == count
    {
      if store == null then [] else store[leftIdx..leftIdx + count]
    }

    constructor (cb: Callbacks)
      ensures Valid() && Contents() == [] && this.cb == cb && store == null
      ensures log == []
    {
      this.cb := cb;
      store := null;
      leftIdx := 0;
      count := 0;
      log := [];
    }

    /** The cells from leftIdx on hold a, then a gap, then c. */
    ghost predicate Open(a: seq<u64>, gap: nat, c: seq<u64>)
      reads `store, `leftIdx, store
    {
      store != null && store.Length <= 0x4000_0000 && Placed(store[..], leftIdx, a, gap, c)
    }

    /** A store with the rounded capacity, its items in the middle. */
    ghost predicate Centred(needed: nat, n: nat)
      reads `store, `leftIdx
    {
      store != null && store.Length == RoundUpCapacity(needed) && leftIdx == (store.Length - n) / 2
    }

    /** The case that moves everything to a new store. */
    method Reallocate(A: nat, B: nat, C: nat, newCount: nat, needed: nat, ghost a: seq<u64>, ghost c: seq<u64>)
      requires store != null && |a| == A && |c| == C && Placed(store[..], leftIdx, a, B, c)
      requires A + newCount + C <= needed <= 0x1FFF_FFFE
      modifies `store, `leftIdx
      ensures Open(a, newCount, c) && fresh(store)
      ensures Centred(needed, A + newCount + C)
    {
      hide RoundUpCapacity, Placed, Copy;
      var futureCnt := A + newCount + C;
      RoundUpBounds(needed);
      var capacity := RoundUpCapacity(needed);
      var newDeque := new u64[capacity];
      var oldL := leftIdx;
      var newL := (capacity - futureCnt) / 2;
      var oldC0 := oldL + A + B;
      var newC0 := newL + A + newCount;
      MoveAcross(store[..], oldL, a, B, c, newDeque[..], newL, newCount);
      MemMove(newDeque, newL, store, oldL, A);
      MemMove(newDeque, newC0, store, oldC0, C);
      leftIdx := newL;
      store := newDeque;
    }

    /** The case that re-centres both regions in the store, in the order that loses nothing. */
    method Recenter(A: nat, B: nat, C: nat, newCount: nat, ghost a: seq<u64>, ghost c: seq<u64>)
      requires store != null && store.Length <= 0x4000_0000
      requires |a| == A && |c| == C && Placed(store[..], leftIdx, a, B, c)
      requires B < newCount && leftIdx + A + B + C <= store.Length && A + newCount + C <= store.Length
      modifies `leftIdx, store
      ensures Open(a, newCount, c)
      ensures Cleared(store[..], old(leftIdx), A + B + C, leftIdx, A + newCount + C)
      ensures var half := (store.Length - (A + newCount + C)) / 2; leftIdx == half - half / 2
    {
      hide Placed, Cleared, Move, ClearSome;
      var L, R := leftIdx, store.Length - (A + B + C) - leftIdx;
      var oldL := L;
      var newL := (L + R - (newCount - B)) / 2;
      newL := newL - newL / 2;
      var oldC0 := oldL + A + B;
      var newC0 := newL + A + newCount;
      leftIdx := newL;
      if newL < oldL {
        MoveBothLeft(store[..], L, a, B, c, newL, newCount);
        MoveWithin(newL, oldL, A);
        MoveWithin(newC0, oldC0, C);
        MemClear(store, newC0 + C, oldC0 - newC0);
      } else {
        MoveBothRight(store[..], L, a, B, c, newL, newCount);
        MoveWithin(newC0, oldC0, C);
        MoveWithin(newL, oldL, A);
        MemClear(store, oldL, newL - oldL);
      }
    }

    /** The case that moves the right region only. */
    method MoveC(A: nat, B: nat, C: nat, newCount: nat, ghost a: seq<u64>, ghost c: seq<u64>)
      requires store != null && store.Length <= 0x4000_0000
      requires |a| == A && |c| == C && Placed(store[..], leftIdx, a, B, c)
      requires leftIdx + A + B + C <= store.Length && leftIdx + A + newCount + C <= store.Length
      modifies store
      ensures Open(a, newCount, c)
      ensures Cleared(store[..], leftIdx, A + B + C, leftIdx, A + newCount + C)
    {
      hide Placed, Cleared, Move, ClearSome;
      var oldC0 := leftIdx + A + B;
      var newC0 := leftIdx + A + newCount;
      MoveRightPart(store[..], leftIdx, a, B, c, newCount);
      MoveWithin(newC0, oldC0, C);
      MemClear(store, newC0 + C, oldC0 - newC0);
    }

    /** The case that moves the left region only. */
    method MoveA(A: nat, B: nat, C: nat, newCount: nat, ghost a: seq<u64>, ghost c: seq<u64>)
      requires store != null && store.Length <= 0x4000_0000
      requires |a| == A && |c| == C && Placed(store[..], leftIdx, a, B, c)
      requires newCount - B <= leftIdx && leftIdx + A + B + C <= store.Length
      modifies `leftIdx, store
      ensures Open(a, newCount, c)
      ensures Cleared(store[..], old(leftIdx), A + B + C, leftIdx, A + newCount + C)
      ensures leftIdx == old(leftIdx) - newCount + B
    {
      hide Placed, Cleared, Move, ClearSome;
      var oldL := leftIdx;
      var newL := leftIdx - (newCount - B);
      MoveLeftPart(store[..], oldL, a, B, c, newCount);
      leftIdx := newL;
      MoveWithin(newL, oldL, A);
      MemClear(store, oldL, newL - oldL);
    }

    method MoveWithin(d: nat, s: nat, n: nat)
      requires store != null && d + n <= store.Length && s + n <= store.Length
      modifies store
      ensures store[..] == Move(old(store[..]), d, s, n)
    {
      MemMove(store, d, store, s, n);
    }

    /** Room to spare: a fraction of the store, 4 cells at least. */
    function Wiggle(capacity: nat): (w: nat)
      ensures 4 <= w && capacity < 131072 * (w + 1) && (w > 4 ==> 131072 * w <= capacity)
    {
      if capacity / 0x2_0000 < 4 then 4 else capacity / 0x2_0000
    }

    /** Where the items start afterwards in a store that is kept: the smaller side moves, if there is room on its side;
        otherwise everything goes to a quarter of the free cells from the start. */
    function NewLeft(left: nat, a: nat, b: nat, c: nat, newCount: nat, capacity: nat): int {
      var more, after := newCount - b, capacity - left - a - b - c;
      if c < a && more <= after then left
      else if more < 0 || (more <= left && a <= c) then left - more
      else
        var half := (capacity - a - newCount - c) / 2;
        half - half / 2
    }

    /** A store has to grow when it is too small, or when items are added and its spare room is less than a fraction
        of it. */
    predicate TooTight(capacity: nat, count: nat, futureCnt: nat) {
      capacity < futureCnt || (count < futureCnt && capacity - count < Wiggle(capacity))
    }

    /** __CFArrayRepositionDequeRegions: opens or closes the range to newCount cells. Items before and after it move
        as they have to, and cells no longer in use are cleared. */
    method Reposition(loc: nat, len: nat, newCount: nat)
      requires Valid() && store != null && loc + len <= count && len != newCount
      requires count - len + newCount <= MAX_COUNT
      modifies `store, `leftIdx, store
      ensures Open(old(Contents()[..loc]), newCount, old(Contents()[loc + len..]))
      ensures store == old(store) || fresh(store)
      ensures store == old(store) ==> Cleared(store[..], old(leftIdx), count, leftIdx, count - len + newCount)
      ensures store != old(store) <==> TooTight(old(store.Length), count, count - len + newCount)
      ensures store != old(store) ==>
                Centred(count - len + newCount + Wiggle(old(store.Length)), count - len + newCount)
      ensures store == old(store) ==>
                leftIdx == NewLeft(old(leftIdx), loc, len, count - loc - len, newCount, store.Length)
    {
      hide RoundUpCapacity, Placed, Cleared, Move, ClearSome, Contents, Open;
      var futureCnt := count - len + newCount;
      var L, A, B := leftIdx, loc, len;
      var C := count - B - A;
      var R := store.Length - count - L;
      var numNewElems := newCount - B;
      ghost var a, c := Contents()[..A], Contents()[A + B..];
      ContentsPlaced(A, B);
      var wiggle := store.Length / 0x2_0000;
      if wiggle < 4 {
        wiggle := 4;
      }
      if store.Length < futureCnt || (count < futureCnt && L + R < wiggle) {
        Reallocate(A, B, C, newCount, futureCnt + wiggle, a, c);
        return;
      }
      if (numNewElems < 0 && C < A) || (numNewElems <= R && C < A) {
        MoveC(A, B, C, newCount, a, c);
      } else if numNewElems < 0 || (numNewElems <= L && A <= C) {
        MoveA(A, B, C, newCount, a, c);
      } else {
        Recenter(A, B, C, newCount, a, c);
      }
    }

    lemma ContentsPlaced(A: nat, B: nat)
      requires Valid() && store != null && A + B <= count
      ensures Placed(store[..], leftIdx, Contents()[..A], B, Contents()[A + B..])
    {
    }

    // ---- Replacing ----

    /** The new values as they will be stored. */
    method RetainValues(newValues: seq<u64>) returns (newv: seq<u64>)
      modifies `log
      ensures newv == Stored(cb, newValues) && log == old(log) + Retains(cb, newv)
    {
      if cb.hasRetain {
        newv := [];
        for idx := 0 to |newValues|
          invariant newv == Stored(cb, newValues[..idx]) && log == old(log) + Retains(cb, newv)
        {
          var v := cb.retain(newValues[idx]);
          log := log + [Retain(v)];
          StoredNext(cb, newValues, idx);
          newv := newv + [v];
        }
        assert newValues[..|newValues|] == newValues;
      } else {
        newv := newValues;
      }
    }

    /** __CFArrayReleaseValues of a deque, without giving up the store: the cells are cleared one by one. */
    method ReleaseValues(loc: nat, len: nat)
      requires Valid() && loc + len <= count
      modifies `log, store
      ensures Valid() && log == old(log) + Releases(cb, old(Contents()[loc..loc + len]))
      ensures store != null ==> store[..] == ClearSome(old(store[..]), old(leftIdx) + loc, len)
      ensures Contents()[..loc] == old(Contents()[..loc]) && Contents()[loc + len..] == old(Contents()[loc + len..])
    {
      hide ClearSome, Releases;
      ReleasesNothing(cb);
      assert len == 0 ==> Contents()[loc..loc + len] == [];
      if 0 < len && store != null {
        SliceOfSlice(store[..], leftIdx, leftIdx + count, loc, loc + len);
        ClearMiddle(store[..], leftIdx, loc, len, count);
        ReleaseCells(leftIdx + loc, len);
      } else if store != null {
        ClearNothing(store[..], leftIdx + loc);
      }
    }

    /** The loop of __CFArrayReleaseValues. */
    method ReleaseCells(at: nat, len: nat)
      requires store != null && at + len <= store.Length
      modifies `log, store
      ensures log == old(log) + Releases(cb, old(store[at..at + len]))
      ensures store[..] == ClearSome(old(store[..]), at, len)
    {
      hide ClearSome, Releases;
      ghost var b := store[..];
      ReleasesNothing(cb);
      ClearNothing(b, at);
      assert b[at..at + 0] == [];
      for idx := 0 to len
        invariant store[..] == ClearSome(b, at, idx)
        invariant log == old(log) + Releases(cb, b[at..at + idx])
      {
        ClearNext(b, at, idx);
        ReleasesNext(cb, b, at, idx);
        assert store[at + idx] == store[..][at + idx];
        if cb.hasRelease {
          log := log + [Release(store[at + idx])];
        }
        store[at + idx] := 0;
      }
    }

    /** A store with room for newCount cells in place of the range. */
    method OpenRange(loc: nat, len: nat, newCount: nat)
      requires Valid() && loc + len <= count && count - len + newCount <= MAX_COUNT
      modifies `store, `leftIdx, store
      ensures Open(old(Contents()[..loc]), newCount, old(Contents()[loc + len..]))
      ensures store == old(store) || fresh(store)
      ensures store == old(store) ==> Cleared(store[..], old(leftIdx), count, leftIdx, count - len + newCount)
      ensures old(store) == null ==> Centred(count - len + newCount, newCount)
    {
      hide RoundUpCapacity, Placed;
      var futureCnt := count - len + newCount;
      if store == null {
        RoundUpBounds(futureCnt);
        var capacity := RoundUpCapacity(futureCnt);
        leftIdx := (capacity - newCount) / 2;
        store := new u64[capacity];
        NothingPlaced(store[..], leftIdx, newCount);
      } else if len != newCount {
        Reposition(loc, len, newCount);
      } else {
        ContentsPlaced(loc, len);
      }
    }

    /** Copies the new elements in. */
    method FillRange(loc: nat, newv: seq<u64>, ghost a: seq<u64>, ghost c: seq<u64>, ghost l: nat, ghost n: nat)
      requires |a| == loc && Open(a, |newv|, c) && leftIdx + loc + |newv| + |c| <= store.Length
      modifies store
      ensures store[leftIdx..leftIdx + loc + |newv| + |c|] == a + newv + c
      ensures old(Cleared(store[..], l, n, leftIdx, loc + |newv| + |c|)) ==>
                Cleared(store[..], l, n, leftIdx, loc + |newv| + |c|)
    {
      hide Placed;
      ghost var b := store[..];
      if 0 < |newv| {
        forall i | 0 <= i < |newv| {
          store[leftIdx + loc + i] := newv[i];
        }
      }
      FillGap(b, leftIdx, a, c, newv);
      assert store[..] == b[..leftIdx + loc] + newv + b[leftIdx + loc + |newv|..];
    }

    /** Puts the new elements in place of the range, once the old ones are released. */
    method ReplaceCells(loc: nat, len: nat, newv: seq<u64>, ghost s: seq<u64>)
      requires Valid() && loc + len <= count == |s| && count - len + |newv| <= MAX_COUNT
      requires Contents()[..loc] == s[..loc] && Contents()[loc + len..] == s[loc + len..]
      modifies `store, `leftIdx, `count, store
      ensures Valid() && (store == old(store) || fresh(store))
      ensures Contents() == Spliced(s, loc, len, newv)
      ensures store == old(store) ==> store != null && Cleared(store[..], old(leftIdx), old(count), leftIdx, count)
    {
      hide Placed, Cleared, Contents, Open, Centred;
      OpenRange(loc, len, |newv|);
      OpenBounds(s[..loc], |newv|, s[loc + len..]);
      FillRange(loc, newv, s[..loc], s[loc + len..], old(leftIdx), old(count));
      SetCount(count - len + |newv|);
    }

    /** _CFArrayReplaceValues: in every one of its cases, the range is replaced by the new values, which are retained
        before the old ones are released. */
    method ReplaceValues(loc: nat, len: nat, newValues: seq<u64>)
      requires Valid() && loc + len <= count && count - len + |newValues| <= MAX_COUNT
      modifies this, store
      ensures Valid() && (store == old(store) || fresh(store))
      ensures Contents() == Spliced(old(Contents()), loc, len, Stored(cb, newValues))
      ensures log == old(log) + Retains(cb, Stored(cb, newValues)) + Releases(cb, old(Contents()[loc..loc + len]))
      ensures IsReplaced(cb, old(Contents()), Contents(), loc, len, newValues)
      ensures old(log) <= log && CallsAre(cb, log[|old(log)|..], newValues, old(Contents()[loc..loc + len]))
      ensures store == old(store) ==> store != null && Cleared(store[..], old(leftIdx), old(count), leftIdx, count)
    {
      hide Stored, Retains, Releases, Cleared, ClearSome, Contents, Spliced, IsReplaced, CallsAre;
      ghost var s, log0 := Contents(), log;
      assert |s| == count;
      var newv := RetainValues(newValues);
      ReleasesNothing(cb);
      assert len == 0 ==> s[loc..loc + len] == [];
      if 0 < len {
        ReleaseValues(loc, len);
      }
      ReplaceCells(loc, len, newv, s);
      SplicedMeans(cb, log0, log, s, loc, len, newValues);
    }

    /** __CFArraySetCount */
    method SetCount(n: nat)
      requires store != null && leftIdx + n <= store.Length <= 0x4000_0000
      modifies `count
      ensures Valid() && count == n && Contents() == store[leftIdx..leftIdx + n]
    {
      count := n;
    }

    lemma OpenBounds(a: seq<u64>, gap: nat, c: seq<u64>)
      requires Open(a, gap, c)
      ensures store != null && leftIdx + |a| + gap + |c| <= store.Length <= 0x4000_0000
    {
    }

    // ---- Entry points ----

    /** CFArrayGetValueAtIndex */
    method GetValueAtIndex(idx: nat) returns (value: u64)
      requires Valid() && idx < count
      ensures value == Contents()[idx]
    {
      return store[leftIdx + idx];
    }

    /** CFArrayAppendValue */
    method AppendValue(value: u64)
      requires Valid() && count < MAX_COUNT
      modifies this, store
      ensures Valid() && (store == old(store) || fresh(store))
      ensures Contents() == Step(cb, old(Contents()), Append(value)) == old(Contents()) + [Kept(cb, value)]
      ensures log == old(log) + StepLog(cb, old(Contents()), Append(value)) == old(log) + RetainOne(cb, value)
    {
      hide Contents, Step, StepLog, Stored, Spliced, Retains, Releases;
      AppendMeans(cb, Contents(), value);
      StepIsReplace(cb, log, Contents(), Append(value), count, 0, [value]);
      ReplaceValues(count, 0, [value]);
    }

    /** CFArrayInsertValueAtIndex */
    method InsertValueAtIndex(idx: nat, value: u64)
      requires Valid() && idx <= count < MAX_COUNT
      modifies this, store
      ensures Valid() && (store == old(store) || fresh(store))
      ensures Contents() == Step(cb, old(Contents()), Insert(idx, value))
      ensures Contents() == old(Contents())[..idx] + [Kept(cb, value)] + old(Contents())[idx..]
      ensures log == old(log) + StepLog(cb, old(Contents()), Insert(idx, value)) == old(log) + RetainOne(cb, value)
    {
      hide Contents, Step, StepLog, Stored, Spliced, Retains, Releases;
      InsertMeans(cb, Contents(), idx, value);
      StepIsReplace(cb, log, Contents(), Insert(idx, value), idx, 0, [value]);
      ReplaceValues(idx, 0, [value]);
    }

    /** CFArrayRemoveValueAtIndex */
    method RemoveValueAtIndex(idx: nat)
      requires Valid() && idx < count <= MAX_COUNT
      modifies this, store
      ensures Valid() && (store == old(store) || fresh(store))
      ensures Contents() == Step(cb, old(Contents()), Remove(idx))
      ensures Contents() == old(Contents())[..idx] + old(Contents())[idx + 1..]
      ensures log == old(log) + StepLog(cb, old(Contents()), Remove(idx))
      ensures log == old(log) + ReleaseOne(cb, old(Contents()[idx]))
    {
      hide Contents, Step, StepLog, Stored, Spliced, Retains, Releases;
      RemoveMeans(cb, Contents(), idx);
      StepIsReplace(cb, log, Contents(), Remove(idx), idx, 1, []);
      ReplaceValues(idx, 1, []);
    }

    method Overwrite(idx: nat, v: u64) returns (oldValue: u64)
      requires Valid() && idx < count
      modifies store
      ensures Valid() && oldValue == old(Contents()[idx]) && Contents() == old(Contents())[idx := v]
    {
      oldValue := store[leftIdx + idx];
      store[leftIdx + idx] := v;
    }

    method SetInPlace(idx: nat, value: u64)
      requires Valid() && idx < count
      modifies `log, store
      ensures Valid() && Contents() == Step(cb, old(Contents()), Set(idx, value))
      ensures log == old(log) + StepLog(cb, old(Contents()), Set(idx, value))
    {
      hide Contents, Valid, Step, StepLog;
      ghost var s := Contents();
      SetIsReplace(cb, s, idx, value);
      var v := value;
      if cb.hasRetain {
        v := cb.retain(value);
        log := log + [Retain(v)];
      }
      var oldValue := Overwrite(idx, v);
      if cb.hasRelease {
        log := log + [Release(oldValue)];
      }
    }

    /** CFArraySetValueAtIndex: in place, but at the end an append. */
    method SetValueAtIndex(idx: nat, value: u64)
      requires Valid() && idx <= count && (idx == count ==> count < MAX_COUNT)
      modifies this, store
      ensures Valid() && (store == old(store) || fresh(store))
      ensures Contents() == Step(cb, old(Contents()), Set(idx, value))
      ensures log == old(log) + StepLog(cb, old(Contents()), Set(idx, value))
      ensures if idx == old(count)
              then Contents() == old(Contents()) + [Kept(cb, value)] && log == old(log) + RetainOne(cb, value)
              else && Contents() == old(Contents())[idx := Kept(cb, value)]
                   && log == old(log) + RetainOne(cb, value) + ReleaseOne(cb, old(Contents()[idx]))
    {
      hide Contents, Step, StepLog, Stored, Spliced, Retains, Releases;
      SetMeans(cb, Contents(), idx, value);
      if idx == count {
        StepIsReplace(cb, log, Contents(), Set(idx, value), idx, 0, [value]);
        ReplaceValues(idx, 0, [value]);
      } else {
        SetInPlace(idx, value);
      }
    }

    /** CFArrayExchangeValuesAtIndices */
    method ExchangeValuesAtIndices(idx1: nat, idx2: nat)
      requires Valid() && idx1 < count && idx2 < count
      modifies store
      ensures Valid() && Contents() == Exchanged(old(Contents()), idx1, idx2)
      ensures Contents() == old(Contents())[idx1 := old(Contents()[idx2])][idx2 := old(Contents()[idx1])]
    {
      var tmp := store[leftIdx + idx1];
      store[leftIdx + idx1] := store[leftIdx + idx2];
      store[leftIdx + idx2] := tmp;
    }

    /** CFArrayRemoveAllValues: gives up the store. */
    method RemoveAllValues()
      requires Valid()
      modifies this, store
      ensures Valid() && store == null
      ensures Contents() == Step(cb, old(Contents()), Op.RemoveAll) == []
      ensures log == old(log) + StepLog(cb, old(Contents()), Op.RemoveAll)
      ensures old(log) <= log && CallsAre(cb, log[|old(log)|..], [], old(Contents()))
    {
      hide Releases, ClearSome, CallsAre;
      ghost var s := Contents();
      RemoveAllMeans(cb, s);
      ReleaseValues(0, count);
      count := 0;
      store := null;
      RemoveAllIsEmpty(cb, s);
    }

    /** Appending to one array leaves the other alone. */
    static ghost predicate Untouched(other: DequeArray, o: seq<u64>, count: nat, store: array?<u64>, leftIdx: nat)
      reads other, other.store
    {
      && other.Valid() && other.Contents() == o
      && other.count == count && other.store == store && other.leftIdx == leftIdx
    }

    /** CFArrayAppendArray, where other may be this array: what is appended is what it held before. */
    method AppendArray(other: DequeArray, loc: nat, len: nat)
      requires Valid() && other.Valid() && (other == this || store == null || store != other.store)
      requires loc + len <= other.count && count + len <= MAX_COUNT
      modifies this, store
      ensures Valid() && (store == old(store) || fresh(store))
      ensures Contents() == old(Contents()) + Stored(cb, old(other.Contents()[loc..loc + len]))
      ensures log == old(log) + Retains(cb, Stored(cb, old(other.Contents()[loc..loc + len])))
    {
      hide Stored, Step, StepLog, Retains, Contents, Valid;
      ghost var s, o, log0 := Contents(), other.Contents(), log;
      AppendNothing(cb, s, o, loc);
      assert log0 == log0 + [];
      for idx := loc to loc + len
        invariant Valid() && (store == old(store) || fresh(store)) && count == |s| + idx - loc
        invariant other != this ==> Untouched(other, o, old(other.count), old(other.store), old(other.leftIdx))
        invariant Contents() == s + Stored(cb, o[loc..idx])
        invariant log == log0 + Retains(cb, Stored(cb, o[loc..idx]))
      {
        var value := other.GetValueAtIndex(idx);
        assert value == o[idx];
        AppendNext(cb, s, o, loc, idx);
        AppendValue(value);
        assert log0 + Retains(cb, Stored(cb, o[loc..idx])) + StepLog(cb, s + Stored(cb, o[loc..idx]), Append(value))
            == log0 + (Retains(cb, Stored(cb, o[loc..idx])) + StepLog(cb, s + Stored(cb, o[loc..idx]), Append(value)));
      }
    }

    // ---- Searching and sorting ----

    /** CFArrayBSearchValues: in a sorted range, the first place not before the value. The probes step by falling
        powers of two. */
    method BSearchValues(loc: nat, len: nat, value: u64, cmp: (u64, u64) -> int) returns (r: nat)
      requires Valid() && loc + len <= count
      requires TotalPreorder(cmp) && Sorted(cmp, Contents()[loc..loc + len])
      ensures loc <= r <= loc + len
      ensures forall k :: loc <= k < r ==> cmp(Contents()[k], value) < 0
      ensures forall k :: r <= k < loc + len ==> cmp(Contents()[k], value) >= 0
    {
      hide LesserUpTo, NoLesserFrom, Sorted, TotalPreorder, Contents, Valid;
      ghost var s := Contents()[loc..loc + len];
      BoundEdges(cmp, s, value);
      if len == 0 {
        return loc;
      }
      var item := GetValueAtIndex(loc + len - 1);
      Compared(cmp, s, len - 1, value);
      if cmp(item, value) < 0 {
        BoundFound(loc, len, value, cmp, len);
        return loc + len;
      }
      item := GetValueAtIndex(loc);
      Compared(cmp, s, 0, value);
      Reversed(cmp, value, item);
      if cmp(value, item) < 0 {
        BoundFound(loc, len, value, cmp, 0);
        return loc;
      }
      var i := ProbeByPowers(loc, len, value, cmp);
      BoundFound(loc, len, value, cmp, i);
      return i + loc;
    }

    method ProbeByPowers(loc: nat, len: nat, value: u64, cmp: (u64, u64) -> int) returns (r: nat)
      requires Valid() && 0 < len && loc + len <= count
      requires TotalPreorder(cmp) && Sorted(cmp, Contents()[loc..loc + len])
      requires NoLesserFrom(cmp, Contents()[loc..loc + len], value, len - 1)
      ensures r <= len
      ensures LesserUpTo(cmp, Contents()[loc..loc + len], value, r)
      ensures NoLesserFrom(cmp, Contents()[loc..loc + len], value, r)
    {
      hide LesserUpTo, NoLesserFrom, Sorted, TotalPreorder, Pow2, Flsl, Contents, Valid;
      ghost var s := Contents()[loc..loc + len];
      BoundEdges(cmp, s, value);
      FlslBounds(len);
      HalvePow2(Flsl(len));
      var lg: nat := Flsl(len) - 1;
      var item := GetValueAtIndex(loc - 1 + Pow2(lg));
      Compared(cmp, s, Pow2(lg) - 1, value);
      if cmp(item, value) < 0 {
        LesserUpToFewer(cmp, s, value, Pow2(lg), len - Pow2(lg) + 1);
      }
      var idx := if cmp(item, value) < 0 then len - Pow2(lg) else -1;
      while lg > 0
        invariant -1 <= idx && idx + Pow2(lg) <= len
        invariant LesserUpTo(cmp, s, value, idx + 1) && NoLesserFrom(cmp, s, value, idx + Pow2(lg))
      {
        HalvePow2(lg);
        lg := lg - 1;
        assert 0 <= idx + Pow2(lg) < len;
        item := GetValueAtIndex(loc + idx + Pow2(lg));
        Compared(cmp, s, idx + Pow2(lg), value);
        if cmp(item, value) < 0 {
          idx := idx + Pow2(lg);
        }
      }
      HalvePow2(0);
      return idx + 1;
    }

    lemma BoundFound(loc: nat, len: nat, value: u64, cmp: (u64, u64) -> int, i: nat)
      requires Valid() && loc + len <= count && i <= len
      requires LesserUpTo(cmp, Contents()[loc..loc + len], value, i)
      requires NoLesserFrom(cmp, Contents()[loc..loc + len], value, i)
      ensures forall k :: loc <= k < loc + i ==> cmp(Contents()[k], value) < 0
      ensures forall k :: loc + i <= k < loc + len ==> cmp(Contents()[k], value) >= 0
    {
    }

    /** CFZSort: exchanges neighbours until the range is in order. */
    method ZSort(loc: nat, len: nat, cmp: (u64, u64) -> int)
      requires Valid() && loc + len <= count && TotalPreorder(cmp)
      modifies store
      ensures Valid() && SamePlaces(old(Contents()), Contents(), loc, len)
      ensures Sorted(cmp, Contents()[loc..loc + len])
    {
      hide Contents, Valid, SortedFrom, Sorted, TotalPreorder;
      ghost var s := Contents();
      var cnt: nat := len;
      SortedFromEnds(cmp, s, loc, len, cnt);
      while 1 < cnt
        invariant cnt <= len && Valid() && |Contents()| == |s|
        invariant SamePlaces(s, Contents(), loc, len)
        invariant SortedFrom(cmp, Contents(), loc, len, cnt)
      {
        BubbleUp(loc, len, cnt, cmp, s);
        cnt := cnt - 1;
      }
      SortedFromEnds(cmp, Contents(), loc, len, cnt);
    }

    method BubbleUp(loc: nat, len: nat, cnt: nat, cmp: (u64, u64) -> int, ghost s: seq<u64>)
      requires Valid() && loc + len <= count && 1 < cnt <= len && TotalPreorder(cmp)
      requires SamePlaces(s, Contents(), loc, len) && SortedFrom(cmp, Contents(), loc, len, cnt)
      modifies store
      ensures Valid() && SamePlaces(s, Contents(), loc, len) && SortedFrom(cmp, Contents(), loc, len, cnt - 1)
    {
      hide Contents, Valid, SortedFrom, Sorted, TotalPreorder, LargestAt, Exchanged, SamePlaces;
      SortedFromEnds(cmp, Contents(), loc, len, cnt);
      for idx := loc to loc + cnt - 1
        invariant Valid() && |Contents()| == count
        invariant SamePlaces(s, Contents(), loc, len)
        invariant SortedFrom(cmp, Contents(), loc, len, cnt) && LargestAt(cmp, Contents(), loc, idx)
      {
        BubbleStep(cmp, Contents(), loc, len, cnt, idx);
        SamePlacesExchange(s, Contents(), loc, len, idx, idx + 1);
        var a := GetValueAtIndex(idx);
        var b := GetValueAtIndex(idx + 1);
        if cmp(b, a) < 0 {
          ExchangeValuesAtIndices(idx, idx + 1);
        }
      }
      BubbleEnd(cmp, Contents(), loc, len, cnt);
    }
  }

  // ---- Runs ----

  method Perform(a: DequeArray, op: Op)
    requires a.Valid() && InRange(a.Contents(), op) && |a.Contents()| <= MAX_COUNT
    requires |Step(a.cb, a.Contents(), op)| <= MAX_COUNT
    modifies a, a.store
    ensures a.Valid() && (a.store == old(a.store) || a.store == null || fresh(a.store))
    ensures a.Contents() == Step(a.cb, old(a.Contents()), op)
    ensures a.log == old(a.log) + StepLog(a.cb, old(a.Contents()), op)
  {
    hide DequeArray.Contents, StepLog, Retains, Releases, Stored;
    ghost var s, log := a.Contents(), a.log;
    match op
    case Replace(loc, len, values) =>
      StepIsReplace(a.cb, log, s, op, loc, len, values);
      a.ReplaceValues(loc, len, values);
    case Set(idx, value) =>
      a.SetValueAtIndex(idx, value);
    case Insert(idx, value) =>
      a.InsertValueAtIndex(idx, value);
    case Append(value) =>
      a.AppendValue(value);
    case Remove(idx) =>
      a.RemoveValueAtIndex(idx);
    case Exchange(idx, other) =>
      NoLog(a.cb, s, op);
      a.ExchangeValuesAtIndices(idx, other);
    case RemoveAll =>
      a.RemoveAllValues();
  }

  /** Every run of operations on a new array is the same run on a sequence, whatever its store went through. */
  method Run(cb: Callbacks, ops: seq<Op>) returns (a: DequeArray)
    requires LegalRun(cb, [], ops, MAX_COUNT)
    ensures fresh(a) && a.Valid() && a.Contents() == RunOf(cb, [], ops, MAX_COUNT)
    ensures a.log == RunLog(cb, [], ops, MAX_COUNT)
    ensures cb.hasRetain && cb.hasRelease ==> Balanced(a.log, a.Contents()) && NeverNegative(a.log)
  {
    hide DequeArray.Contents, Step, StepLog, Balanced, NeverNegative;
    a := new DequeArray(cb);
    ghost var all := RunLog(cb, [], ops, MAX_COUNT);
    for i := 0 to |ops|
      invariant fresh(a) && (a.store == null || fresh(a.store)) && a.Valid() && a.cb == cb
      invariant LegalRun(cb, a.Contents(), ops[i..], MAX_COUNT)
      invariant RunOf(cb, a.Contents(), ops[i..], MAX_COUNT) == RunOf(cb, [], ops, MAX_COUNT)
      invariant a.log + RunLog(cb, a.Contents(), ops[i..], MAX_COUNT) == all
    {
      assert ops[i..][0] == ops[i] && ops[i..][1..] == ops[i + 1..];
      Perform(a, ops[i]);
    }
    StartBalance();
    if cb.hasRetain && cb.hasRelease {
      RunBalance(cb, [], [], ops, MAX_COUNT);
    }
    assert [] + all == all;
  }
}
