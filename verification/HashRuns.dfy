/** Whole runs of hash table operations, and the comparison of two tables. */
module HashRuns {
  import opened Bytes
  import opened HashTables
  import opened HashSlots
  import opened HashIdeal
  import opened HashIndex
  import opened BasicHash

  /** A table grown by adds alone, from no buckets: a fast-growing one is at an even size index. */
  ghost predicate OnlyGrown(t: Table)
    reads t`numBucketsIdx
  {
    t.numBucketsIdx <= LAST && (t.fastGrow ==> t.numBucketsIdx % 2 == 0)
  }

  /** The table cannot take the operation: it adds a class, and the table is full with no size to grow to. That is the
      last size, or the last but one of a table that grows fast. */
  ghost predicate Stuck(t: Table, op: Op)
    requires t.Valid()
    reads t, t.keys, t.values, t.counts
  {
    && AddsClass(t.f, t.Contents(), op)
    && |t.Contents()| == TableCapacity(t.numBucketsIdx)
    && (t.numBucketsIdx == LAST || (t.fastGrow && t.numBucketsIdx == LAST - 1))
  }

  lemma StuckIff(t: Table, op: Op)
    requires t.Valid()
    ensures Stuck(t, op) <==> AddsClass(t.f, t.Contents(), op) && !t.CanAdd()
  {
    hide TableCapacity, AddsClass, Table.CanAdd;
    t.CanAddIff();
    t.ContentsAreCounted();
  }

  /** Whether the next operation would stop the program. */
  method IsStuck(t: Table, op: Op) returns (stuck: bool)
    requires t.Valid() && Legal(t.f, op)
    ensures stuck == Stuck(t, op)
  {
    hide TableCapacity, Stuck, Table.CanAdd;
    StuckIff(t, op);
    if !op.Add? && !op.Set? {
      return false;
    }
    t.ContentsAreCounted();
    var count := t.GetCountOfKey(op.key);
    return count == 0 && !t.CanAdd();
  }

  /** Every run of adds, sets, replaces and removes from an empty table refines the same run on the ideal map, as far as
      the table can take it, and the count of the table is what its successful adds and removes amount to. */
  method Run(f: Keying, fastGrow: bool, ops: seq<Op>) returns (t: Table, count: nat, done: nat)
    requires forall op :: op in ops ==> Legal(f, op)
    ensures fresh(t) && t.f == f && t.fastGrow == fastGrow && t.Valid()
    ensures done <= |ops| && t.Contents() == IdealRun(f, ops[..done])
    ensures count == Changes(f, ops[..done]) == SumOf(IdealRun(f, ops[..done]))
    ensures done < |ops| ==> Stuck(t, ops[done])
    ensures (forall op :: op in ops ==> !op.Remove?) ==> OnlyGrown(t)
  {
    hide TableCapacity, AddsClass, IdealRun, Change, Changes, SumOf, Stuck, Legal, OnlyGrown, Table.CanAdd,
         Table.Shaped, Table.CountsFit, Table.Contents, Consistent;
    t := new Table(f, fastGrow);
    StartsOnlyGrown(t);
    done := 0;
    RunStarts(f, ops);
    while done < |ops|
      invariant done <= |ops|
      invariant fresh(t) && fresh(t.keys) && fresh(t.values) && fresh(t.counts) && t.f == f && t.fastGrow == fastGrow
      invariant t.Valid() && t.Contents() == IdealRun(f, ops[..done])
      invariant (forall op :: op in ops ==> !op.Remove?) ==> OnlyGrown(t)
    {
      RunGoesOn(f, ops, done);
      assert ops[done] in ops;
      var stuck := PerformUnlessStuck(t, ops[done]);
      if stuck {
        break;
      }
      done := done + 1;
    }
    RunTotal(f, ops[..done]);
    count := t.GetCount();
  }

  lemma StartsOnlyGrown(t: Table)
    ensures t.numBucketsIdx == 0 ==> OnlyGrown(t)
  {
  }

  lemma RunStarts(f: Keying, ops: seq<Op>)
    ensures IdealRun(f, ops[..0]) == map[]
  {
  }

  lemma RunGoesOn(f: Keying, ops: seq<Op>, k: nat)
    requires k < |ops|
    ensures IdealRun(f, ops[..k + 1]) == IdealStep(f, IdealRun(f, ops[..k]), ops[k])
  {
    assert ops[..k + 1][..k] == ops[..k];
  }

  method PerformUnlessStuck(t: Table, op: Op) returns (stuck: bool)
    requires t.Valid() && Legal(t.f, op)
    modifies t, t.keys, t.values, t.counts
    ensures t.Valid() && t.Owned() && (stuck ==> Stuck(t, op))
    ensures t.Contents() == if stuck then old(t.Contents()) else IdealStep(t.f, old(t.Contents()), op)
    ensures !op.Remove? && old(OnlyGrown(t)) ==> OnlyGrown(t)
  {
    hide TableCapacity, AddsClass, Stuck, Table.CanAdd, Table.Contents, Table.Shaped, Table.CountsFit, Consistent,
         OnlyGrown;
    stuck := IsStuck(t, op);
    if !stuck {
      StuckIff(t, op);
      Perform(t, op);
    }
  }

  method Perform(t: Table, op: Op)
    requires t.Valid() && Legal(t.f, op) && (AddsClass(t.f, t.Contents(), op) ==> t.CanAdd())
    modifies t, t.keys, t.values, t.counts
    ensures t.Valid() && t.Owned() && t.Contents() == IdealStep(t.f, old(t.Contents()), op)
    ensures !op.Remove? && old(OnlyGrown(t)) ==> OnlyGrown(t)
  {
    hide TableCapacity, Table.Valid, Table.Contents, Table.CanAdd, IdealAdd, IdealSet, IdealReplace;
    match op
    case Add(key, value) =>
      var _ := t.AddValue(key, value);
    case Set(key, value) =>
      t.SetValue(key, value);
    case Replace(key, value) =>
      t.ReplaceValue(key, value);
    case Remove(key) =>
      var _ := t.RemoveValue(key);
  }

  /** So a fast-growing table that is only added to holds as many classes as a table can: it goes by the even sizes to
      the last one, past the size at which it would leave the table of sizes. */
  lemma AddsReachTheLastSize(t: Table, op: Op)
    requires t.Valid() && OnlyGrown(t) && Stuck(t, op)
    ensures |t.Contents()| == TableCapacity(LAST)
  {
    hide TableCapacity;
  }

  /** The block that compares one bucket of t1 with what t2 has for its key. */
  method BucketIsFound(t1: Table, t2: Table, bkt1: Entry) returns (equal: bool)
    requires t1.Valid() && t2.Valid()
    requires t1.f.cls(bkt1.key) in t1.Contents() && t1.Contents()[t1.f.cls(bkt1.key)] == bkt1 && 0 < bkt1.count
    ensures equal == Found(t1.f, t2.f, t1.Contents(), t2.Contents(), t1.f.cls(bkt1.key))
  {
    hide TableSize, TableCapacity, Consistent, Model;
    ghost var c := t2.f.cls(bkt1.key);
    PresentInModel(t2.f, t2.State(), t2.where, c);
    SameLengths(t2.f, t2.State(), t2.where);
    t2.ContentsAreCounted();
    var idx2, count2 := t2.FindBucket(bkt1.key);
    if bkt1.count != count2 {
      return false;
    }
    if t1.f.hasKeys {
      MatchedBucket(t2.f, t2.State(), t2.where, idx2);
      var value2 := Decode(t2.values[idx2]);
      if bkt1.value != value2 && t1.f.val(bkt1.value) != t1.f.val(value2) {
        return false;
      }
    }
    return true;
  }

  /** One turn of the walk over the buckets of t1: whether the bucket is used, and whether t2 has as much for its
      key. */
  method CompareBucket(t1: Table, t2: Table, idx: nat) returns (used: bool, equal: bool)
    requires t1.Valid() && t2.Valid() && idx < t1.keys.Length
    requires FoundPart(t1.f, t2.f, Part(t1.f, t1.State(), t1.where, idx), t1.Contents(), t2.Contents())
    ensures |Part(t1.f, t1.State(), t1.where, idx + 1)|
         == |Part(t1.f, t1.State(), t1.where, idx)| + (if used then 1 else 0)
    ensures if equal
            then FoundPart(t1.f, t2.f, Part(t1.f, t1.State(), t1.where, idx + 1), t1.Contents(), t2.Contents())
            else !AllFound(t1.f, t2.f, t1.Contents(), t2.Contents())
  {
    hide TableSize, TableCapacity, Consistent, Model, Part, AllFound, Found, FoundPart, EntryAt, Live;
    SameLengths(t1.f, t1.State(), t1.where);
    var bkt1 := t1.GetBucket(idx);
    FoundStep(t1.f, t2.f, t1.State(), t1.where, idx, bkt1, t2.Contents());
    if 0 < bkt1.count {
      equal := BucketIsFound(t1, t2, bkt1);
      return true, equal;
    }
    return false, true;
  }

  /** The walk over the buckets of t1, which ends when all used ones have been seen. */
  method EveryBucketIsFound(t1: Table, t2: Table) returns (equal: bool)
    requires t1.Valid() && t2.Valid()
    ensures equal == AllFound(t1.f, t2.f, t1.Contents(), t2.Contents())
  {
    hide TableSize, TableCapacity, Consistent, Model, Part, AllFound, FoundPart;
    ghost var f, g, s, m1, m2 := t1.f, t2.f, t1.State(), t1.Contents(), t2.Contents();
    PartEnds(f, s, t1.where);
    NothingFound(f, g, m1, m2);
    var used, idx := t1.usedBuckets, 0;
    while 0 < used && idx < t1.keys.Length
      invariant idx <= t1.keys.Length
      invariant used == |t1.where| - |Part(f, s, t1.where, idx)|
      invariant FoundPart(f, g, Part(f, s, t1.where, idx), m1, m2)
    {
      var seen;
      seen, equal := CompareBucket(t1, t2, idx);
      if !equal {
        return false;
      }
      if seen {
        used := used - 1;
      }
      idx := idx + 1;
    }
    FoundAll(f, g, s, t1.where, idx, m2);
    return true;
  }

  lemma NothingToFind(t1: Table, t2: Table)
    requires t1.Valid() && t2.Valid() && SumOf(t1.Contents()) == 0
    ensures AllFound(t1.f, t2.f, t1.Contents(), t2.Contents())
  {
    hide TableSize, TableCapacity, Consistent, SumOf, Found, Table.Contents;
    t1.ContentsAreStorable();
    ZeroTotalIsEmpty(t1.f, t1.Contents());
  }

  lemma TablesCompare(t1: Table, t2: Table)
    requires t1.Valid() && t2.Valid() && Agree(t1.f, t2.f)
    ensures ComparesEqual(t1.f, t2.f, t1.Contents(), t2.Contents())
       <==> SameContents(t1.f, t2.f, t1.Contents(), t2.Contents())
  {
    hide TableSize, TableCapacity, Consistent, ComparesEqual, SameContents, Table.Contents;
    t1.ContentsAreStorable();
    t2.ContentsAreStorable();
    ComparisonIsEquality(t1.f, t2.f, t1.Contents(), t2.Contents());
  }

  /** CFBasicHashesAreEqual: whether the totals are equal and every entry of t1 is found in t2, whatever the layouts.
      For tables whose keyings agree that is whether they hold the same. */
  method HashesAreEqual(t1: Table, t2: Table) returns (equal: bool)
    requires t1.Valid() && t2.Valid()
    ensures equal == ComparesEqual(t1.f, t2.f, t1.Contents(), t2.Contents())
    ensures Agree(t1.f, t2.f) ==> equal == SameContents(t1.f, t2.f, t1.Contents(), t2.Contents())
  {
    hide TableSize, TableCapacity, Consistent, SumOf, SameContents, AllFound, Agree, Table.Contents, Table.Shaped,
         Table.CountsFit, Table.State;
    if Agree(t1.f, t2.f) {
      TablesCompare(t1, t2);
    }
    var cnt1 := t1.GetCount();
    var cnt2 := t2.GetCount();
    if cnt1 != cnt2 {
      return false;
    }
    if cnt1 == 0 {
      NothingToFind(t1, t2);
      return true;
    }
    equal := EveryBucketIsFound(t1, t2);
  }

  method WithOne(f: Keying, key: u64, value: u64) returns (t: Table)
    requires Legal(f, Add(key, value))
    ensures fresh(t) && fresh(t.keys) && fresh(t.values) && fresh(t.counts)
    ensures t.f == f && t.Valid() && t.Contents() == One(f, key, value)
  {
    hide TableSize, TableCapacity, Table.Shaped, Table.CountsFit, Table.Contents, Consistent;
    t := new Table(f, false);
    t.CanAddIff();
    EmptyTable();
    CapacityGrows(0, LAST);
    var _ := t.AddValue(key, value);
  }

  method CompareOnes(t1: Table, t2: Table, ghost k: u64, ghost x: u64, ghost l: u64, ghost y: u64)
    returns (equal: bool)
    requires t1.Valid() && t2.Valid() && t1.Contents() == One(t1.f, k, x) && t2.Contents() == One(t2.f, l, y)
    ensures equal <==> t2.f.cls(k) == t2.f.cls(l) && (t1.f.hasKeys ==> t1.f.val(x) == t1.f.val(y))
  {
    hide ComparesEqual, SameContents, Agree, One, Table.Contents;
    ComparesOnes(t1.f, t2.f, k, x, l, y);
    equal := HashesAreEqual(t1, t2);
  }

  /** Two tables of one entry each, compared both ways: the keys are equal as the other table says, the values as the
      own table says. */
  method CompareBothWays(f: Keying, g: Keying, k: u64, x: u64, l: u64, y: u64) returns (there: bool, back: bool)
    requires Legal(f, Add(k, x)) && Legal(g, Add(l, y))
    ensures there <==> g.cls(k) == g.cls(l) && (f.hasKeys ==> f.val(x) == f.val(y))
    ensures back <==> f.cls(k) == f.cls(l) && (g.hasKeys ==> g.val(x) == g.val(y))
  {
    hide TableSize, TableCapacity, One, Legal, Table.Contents, Table.Shaped, Table.CountsFit, Consistent;
    var t1 := WithOne(f, k, x);
    var t2 := WithOne(g, l, y);
    there := CompareOnes(t1, t2, k, x, l, y);
    back := CompareOnes(t2, t1, l, y, k, x);
  }

  // ---- Index maps ----

  /** Every run of insertions and deletions on an index map is the same run on a sequence, as far as the table can
      take it. */
  method RunIndex(f: Keying, fastGrow: bool, ops: seq<IndexOp>) returns (t: Table, done: nat)
    requires f.hasKeys && LegalRun(f, [], ops)
    ensures fresh(t) && t.f == f && t.fastGrow == fastGrow && t.Valid()
    ensures done <= |ops| && LegalRun(f, [], ops[..done]) && IsIndexMap(f, t.Contents(), IndexRun(f, [], ops[..done]))
    ensures done < |ops| ==> ops[done].Insert? && Stuck(t, Set(ops[done].key, ops[done].key))
  {
    hide TableCapacity, IndexStep, IndexRun, LegalRun, IsIndexMap, Stuck, Table.CanAdd, Table.Shaped,
         Table.CountsFit, Table.Contents, Consistent;
    t := new Table(f, fastGrow);
    ghost var s: seq<u64> := [];
    StartIndex(f);
    assert ops[..0] == [];
    done := 0;
    while done < |ops|
      invariant done <= |ops| && LegalRun(f, [], ops[..done]) && s == IndexRun(f, [], ops[..done])
      invariant fresh(t) && fresh(t.keys) && fresh(t.values) && fresh(t.counts) && t.f == f && t.fastGrow == fastGrow
      invariant t.Valid() && IsIndexMap(f, t.Contents(), s)
    {
      var op := ops[done];
      PrefixIsLegal(f, [], ops, done);
      if op.Insert? {
        StuckIff(t, Set(op.key, op.key));
        var stuck := IsStuck(t, Set(op.key, op.key));
        if stuck {
          break;
        }
      }
      PerformIndex(t, op, s);
      s := IndexStep(f, s, op);
      done := done + 1;
    }
  }

  method PerformIndex(t: Table, op: IndexOp, ghost s: seq<u64>)
    requires t.Valid() && t.f.hasKeys && IsIndexMap(t.f, t.Contents(), s)
    requires op.at <= |s| < SUB_ONE && (op.Delete? ==> op.at < |s|)
    requires op.Insert? ==> !IsSentinel(op.key) && |s| + 1 < SUB_ONE
    requires op.Insert? && t.f.cls(op.key) !in t.Contents() ==> t.CanAdd()
    modifies t, t.keys, t.values, t.counts
    ensures t.Valid() && t.Owned() && IsIndexMap(t.f, t.Contents(), IndexStep(t.f, s, op))
  {
    hide TableCapacity, IsIndexMap, RenumberedModel, ReadBackModel;
    ghost var f, m := t.f, t.Contents();
    SizeOfIndex(f, m, s);
    match op
    case Insert(key, at) =>
      forall c | c in m
        ensures !IsSentinel(Shifted(Up(at), m[c].value))
      {
        NumbersAreNoSentinels(f, m, s, Up(at), c);
      }
      RenumbersIff(m, Up(at));
      ListedIffPresent(f, m, s, f.cls(key));
      if f.cls(key) !in m {
        InsertIndex(f, m, s, key, at);
      }
      var _ := t.AddIntValueAndInc(key, at);
    case Delete(at) =>
      forall c | c in m
        ensures !IsSentinel(Shifted(Down(at), m[c].value))
        ensures m[c].value == at <==> c == f.cls(s[at])
      {
        NumbersAreNoSentinels(f, m, s, Down(at), c);
        NumberedOnce(f, m, s, at, c);
      }
      RenumbersIff(m, Down(at));
      NumberedOnce(f, m, s, at, 0);
      DeleteIndex(f, m, s, at);
      ghost var _ := t.RemoveIntValueAndDec(at);
  }
}
