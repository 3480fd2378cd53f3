/** The bit vector (CFBitVector.c) against a sequence of bits. */
module BitVector {
  import opened BitBuckets
  import opened BitRanges

  /** __CFBitVectorRoundUpCapacity */
  function RoundUpCapacity(capacity: nat): (r: nat)
    ensures capacity <= r && r % 64 == 0 && 64 <= r && (r == 64 || r < capacity + 64)
  {
    ((if capacity == 0 then 1 else capacity) + 63) / 64 * 64
  }

  class Bits {
    var buckets: array<bv8>
    var capacity: nat
    var count: nat

    ghost predicate Valid()
      reads `buckets, `capacity, `count
    {
      count <= capacity && buckets.Length == capacity / 8 + 1
    }

    /** The bits of the vector; the store may hold more. */
    ghost function Contents(): (s: seq<bool>)
      reads `buckets, `capacity, `count, buckets
      requires Valid()
      ensures |s| == count
    {
      AllBits(buckets[..])[..count]
    }

    constructor ()
      ensures Valid() && Contents() == [] && fresh(buckets)
    {
      capacity := RoundUpCapacity(0);
      buckets := new bv8[RoundUpCapacity(0) / 8 + 1](_ => 0);
      count := 0;
    }

    // ---- The range traversal ----

    /** A mapper called on a bucket and a mask: the bucket it returns, and the count it adds. */
    method CallMapper(mp: Mapper, bucket: bv8, mask: bv8) returns (newBucket: bv8, more: nat)
      ensures newBucket == NewBucket(mp, bucket)
      ensures more == if mp.Counts? then SetBefore(Counted(bucket, mask, mp.value), 8) else 0
    {
      newBucket := NewBucket(mp, bucket);
      more := 0;
      if mp.Counts? {
        more := CountBits(Counted(bucket, mask, mp.value));
      }
    }

    /** Maps the bits from bottom to top of one bucket. */
    method MapPart(mp: Mapper, k: nat, bottom: Bit, top: Bit) returns (more: nat)
      requires k < buckets.Length && bottom <= top
      modifies buckets
      ensures AllBits(buckets[..]) == MapRange(mp, old(AllBits(buckets[..])), 8 * k + bottom, 8 * k + top + 1)
      ensures more == CountedIn(mp, old(AllBits(buckets[..])), 8 * k + bottom, 8 * k + top + 1)
    {
      hide Mask, NewBucket, Counted, SetBefore, MapRange, CountIn, Blend;
      ghost var b := buckets[..];
      var bucketValMask := Mask(bottom, top);
      var newBucketVal;
      newBucketVal, more := CallMapper(mp, buckets[k], bucketValMask);
      MapBucket(mp, b, k, bottom, top);
      if mp.Counts? {
        CountBucket(b, k, bottom, top, mp.value);
      }
      buckets[k] := Blend(buckets[k], newBucketVal, bucketValMask);
      assert buckets[..] == b[k := Blend(b[k], newBucketVal, bucketValMask)];
    }

    /** Maps a whole bucket. */
    method MapWhole(mp: Mapper, k: nat) returns (more: nat)
      requires k < buckets.Length
      modifies buckets
      ensures AllBits(buckets[..]) == MapRange(mp, old(AllBits(buckets[..])), 8 * k, 8 * k + 8)
      ensures more == CountedIn(mp, old(AllBits(buckets[..])), 8 * k, 8 * k + 8)
    {
      hide NewBucket, Counted, SetBefore, MapRange, CountIn;
      ghost var b := buckets[..];
      var newBucketVal;
      newBucketVal, more := CallMapper(mp, buckets[k], 0xFF);
      MapWholeBucket(mp, b, k);
      if mp.Counts? {
        CountBucket(b, k, 0, 7, mp.value);
        assert Mask(0, 7) == 0xFF;
      }
      buckets[k] := newBucketVal;
      assert buckets[..] == b[k := newBucketVal];
    }

    /** __CFBitVectorInternalMap: up to a bucket boundary, along whole buckets, and down with the last fragment. */
    method InternalMap(loc: nat, len: nat, mp: Mapper) returns (occurs: nat)
      requires loc + len <= 8 * buckets.Length
      modifies buckets
      ensures AllBits(buckets[..]) == MapRange(mp, old(AllBits(buckets[..])), loc, loc + len)
      ensures occurs == CountedIn(mp, old(AllBits(buckets[..])), loc, loc + len)
    {
      hide CountedIn, MapRange, AllBits, BitAt;
      ghost var s := AllBits(buckets[..]);
      MappedNothing(mp, s, loc);
      if len == 0 {
        return 0;
      }
      var bucketIdx: nat, bitOfBucket: Bit := loc / 8, loc % 8;
      var left: nat;
      if bitOfBucket + len < 8 {
        occurs := MapPart(mp, bucketIdx, bitOfBucket, bitOfBucket + len - 1);
        left := 0;
      } else {
        occurs := MapPart(mp, bucketIdx, bitOfBucket, 7);
        left := len - (8 - bitOfBucket);
      }
      bucketIdx := bucketIdx + 1;
      var nBuckets: nat := left / 8;
      ghost var p := loc + len - left;
      left := left - nBuckets * 8;
      while nBuckets > 0
        invariant loc <= p && p + 8 * nBuckets + left == loc + len && left < 8
        invariant nBuckets > 0 || left > 0 ==> p == 8 * bucketIdx
        invariant AllBits(buckets[..]) == MapRange(mp, s, loc, p) && occurs == CountedIn(mp, s, loc, p)
      {
        MappedOn(mp, s, loc, p, p + 8);
        var more := MapWhole(mp, bucketIdx);
        occurs := occurs + more;
        bucketIdx := bucketIdx + 1;
        nBuckets := nBuckets - 1;
        p := p + 8;
      }
      if left != 0 {
        MappedOn(mp, s, loc, p, p + left);
        var more := MapPart(mp, bucketIdx, 0, left - 1);
        occurs := occurs + more;
      }
    }

    // ---- Entry points ----

    /** CFBitVectorGetBitAtIndex */
    method GetBitAtIndex(idx: nat) returns (bit: bool)
      requires Valid() && idx < count
      ensures bit == Contents()[idx]
    {
      ShiftReadsBit(buckets[idx / 8], idx % 8);
      assert Contents()[idx] == BitAt(buckets[..], idx);
      return (buckets[idx / 8] >> (7 - idx % 8)) & 1 == 1;
    }

    /** CFBitVectorGetCountOfBit */
    method GetCountOfBit(loc: nat, len: nat, value: bool) returns (occurs: nat)
      requires Valid() && loc + len <= count
      modifies buckets
      ensures Valid() && Contents() == old(Contents())
      ensures occurs == CountIn(Contents(), loc, loc + len, value) == |Places(Contents(), loc, loc + len, value)|
    {
      hide CountIn, Places;
      CountInIsPlaces(Contents(), loc, loc + len, value);
      ghost var s := AllBits(buckets[..]);
      if len == 0 {
        CountInNothing(Contents(), loc, value);
        return 0;
      }
      occurs := InternalMap(loc, len, Counts(value));
      assert MapRange(Counts(value), s, loc, loc + len) == s;
      CountInPrefix(s, count, loc, loc + len, value);
    }

    /** CFBitVectorSetBits: exactly the bits of the range change. */
    method SetBits(loc: nat, len: nat, value: bool)
      requires Valid() && loc + len <= count
      modifies buckets
      ensures Valid()
      ensures Contents() == old(Contents())[..loc] + seq(len, _ => value) + old(Contents())[loc + len..]
    {
      hide MapRange, AllBits;
      ghost var s := AllBits(buckets[..]);
      var _ := InternalMap(loc, len, if value then Ones else Zeros);
      MapRangePrefix(if value then Ones else Zeros, s, count, loc, loc + len);
      MapToConstant(s[..count], loc, len, value);
    }

    /** CFBitVectorFlipBits */
    method FlipBits(loc: nat, len: nat)
      requires Valid() && loc + len <= count
      modifies buckets
      ensures Valid()
      ensures forall j: nat :: j < count ==>
                                 Contents()[j] == (old(Contents())[j] != (loc <= j < loc + len))
    {
      ghost var s := AllBits(buckets[..]);
      var _ := InternalMap(loc, len, Flips);
      MapRangePrefix(Flips, s, count, loc, loc + len);
    }

    method StoreBucket(k: nat, w: bv8)
      requires k < buckets.Length
      modifies buckets
      ensures buckets[..] == old(buckets[..])[k := w]
    {
      buckets[k] := w;
    }

    /** CFBitVectorSetBitAtIndex */
    method SetBitAtIndex(idx: nat, value: bool)
      requires Valid() && idx < count
      modifies buckets
      ensures Valid() && Contents() == old(Contents())[idx := value]
    {
      hide At, Single;
      var bucketIdx, bitOfBucket: Bit := idx / 8, idx % 8;
      if value {
        SetInBucket(buckets[..], idx);
        StoreBucket(bucketIdx, buckets[bucketIdx] | Single(bitOfBucket));
      } else {
        ClearInBucket(buckets[..], idx);
        StoreBucket(bucketIdx, buckets[bucketIdx] & !Single(bitOfBucket));
      }
    }

    /** CFBitVectorFlipBitAtIndex */
    method FlipBitAtIndex(idx: nat)
      requires Valid() && idx < count
      modifies buckets
      ensures Valid() && Contents() == old(Contents())[idx := !old(Contents())[idx]]
    {
      hide At, Single;
      var bucketIdx, bitOfBucket: Bit := idx / 8, idx % 8;
      FlipInBucket(buckets[..], idx);
      StoreBucket(bucketIdx, buckets[bucketIdx] ^ Single(bitOfBucket));
    }

    /** __CFBitVectorGrow: reallocating keeps the buckets there is room for; the others are arbitrary. */
    method Grow(numNewValues: nat)
      requires Valid() && 0 < numNewValues
      modifies `buckets, `capacity
      ensures Valid() && count + numNewValues <= capacity && fresh(buckets) && Contents() == old(Contents())
      ensures capacity == RoundUpCapacity(count + numNewValues)
    {
      hide RoundUpCapacity, AllBits;
      capacity := RoundUpCapacity(count + numNewValues);
      var bigger := new bv8[capacity / 8 + 1];
      var kept := if buckets.Length < bigger.Length then buckets.Length else bigger.Length;
      forall i | 0 <= i < kept {
        bigger[i] := buckets[i];
      }
      SameBits(bigger[..], buckets[..], count);
      buckets := bigger;
    }

    /** CFBitVectorSetCount: new bits are zero. */
    method SetCount(newCount: nat)
      requires Valid()
      modifies this, buckets
      ensures Valid() && (buckets == old(buckets) || fresh(buckets))
      ensures Contents() == if newCount <= old(count) then old(Contents())[..newCount]
                            else old(Contents()) + seq(newCount - old(count), _ => false)
    {
      ghost var was := Contents();
      var cnt := count;
      if cnt < newCount {
        Grow(newCount - cnt);
        ghost var s := AllBits(buckets[..]);
        var _ := InternalMap(cnt, newCount - cnt, Zeros);
        GrownBits(s, was, newCount);
      }
      count := newCount;
    }

    /** CFBitVectorSetAllBits: the last fragment by the traversal, the whole buckets by memset. */
    method SetAllBits(value: bool)
      requires Valid()
      modifies buckets
      ensures Valid() && forall j: nat :: j < count ==> Contents()[j] == value
    {
      hide At;
      var nBuckets := count / 8;
      var leftover := count - nBuckets * 8;
      if 0 < leftover {
        var _ := InternalMap(nBuckets * 8, leftover, if value then Ones else Zeros);
      }
      ghost var b := buckets[..];
      forall i | 0 <= i < nBuckets {
        buckets[i] := if value then 0xFF else 0;
      }
      forall j: nat | j < count
        ensures AllBits(buckets[..])[j] == value
      {
        ConstantBits(0, j % 8);
        if j / 8 >= nBuckets {
          assert AllBits(buckets[..])[j] == AllBits(b)[j];
        }
      }
    }
  }
}
