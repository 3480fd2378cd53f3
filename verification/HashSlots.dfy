/** The bucket arrays of the hash as sequences, the probe order, and the invariant that ties them to an ideal map. */
module HashSlots {
  import opened Bytes

  // ---- Words in slots ----

  const EMPTY: u64 := 0
  const DELETED: u64 := 0xFFFF_FFFF_FFFF_FFFF
  const SUB_ZERO: u64 := 0xA7BA_ADB1  // stored for 0
  const SUB_ONE: u64 := 0xA5BA_ADB9   // stored for all ones

  predicate Live(w: u64) {
    w != EMPTY && w != DELETED
  }

  predicate IsSentinel(w: u64) {
    w == SUB_ZERO || w == SUB_ONE
  }

  /** How a key or value is stored, so that it is never mistaken for an empty or deleted slot. */
  function Encode(w: u64): (s: u64)
    ensures Live(s)
  {
    if w == 0 then SUB_ZERO else if w == DELETED then SUB_ONE else w
  }

  function Decode(s: u64): u64 {
    if s == SUB_ZERO then 0 else if s == SUB_ONE then DELETED else s
  }

  /** A stored word reads back as itself exactly when it is not one of the two sentinels, which is what the entry
      points demand. */
  lemma EncodeRoundTripsIff(w: u64)
    ensures Decode(Encode(w)) == w <==> !IsSentinel(w)
  {
  }

  /** 0 and all ones are stored as two words of their own, every other word as it is. */
  lemma StoredWords(w: u64)
    ensures Encode(0) == 0xA7BA_ADB1 && Encode(TWO_64 - 1) == 0xA5BA_ADB9
    ensures 0 < w < TWO_64 - 1 ==> Encode(w) == w
    ensures Live(w) <==> 0 < w < TWO_64 - 1
  {
  }

  // ---- Keys ----

  /** The callbacks and the layout. Two keys are equal when cls puts them in the same class, two values when val does,
      and the hash is one of key classes. Sets have no key array, and only bags have counts. */
  datatype Keying = Keying(cls: u64 -> u64, val: u64 -> u64, hash: u64 -> u64, hasKeys: bool, hasCounts: bool)

  /** The first bucket probed for a class, among n. */
  function First(f: Keying, c: u64, n: nat): (h: nat)
    requires n > 0
    ensures h < n
  {
    f.hash(c) % n
  }

  /** Linear probing: the bucket probed after j others. */
  function Probe(h: nat, j: nat, n: nat): (p: nat)
    requires h < n && j < n
    ensures p < n
  {
    if h + j < n then h + j else h + j - n
  }

  /** Bucket p is among the first j probed from h. */
  predicate Visited(h: nat, j: nat, n: nat, p: nat) {
    if h + j <= n then h <= p < h + j else h <= p || p < h + j - n
  }

  /** How many buckets are probed before i. */
  function Distance(h: nat, i: nat, n: nat): (j: nat)
    requires h < n && i < n
    ensures j < n && Probe(h, j, n) == i
  {
    if h <= i then i - h else i + n - h
  }

  // ---- Buckets ----

  /** The three arrays. Without a key array the keys are the values themselves; without counts a bucket counts 1. */
  datatype Slots = Slots(keys: seq<u64>, values: seq<u64>, counts: seq<nat>)

  datatype Entry = Entry(key: u64, value: u64, count: nat)

  function KeyClass(f: Keying, s: Slots, i: nat): u64
    requires i < |s.keys|
  {
    f.cls(Decode(s.keys[i]))
  }

  function EntryAt(f: Keying, s: Slots, i: nat): Entry
    requires i < |s.keys| == |s.values| == |s.counts|
  {
    Entry(Decode(s.keys[i]), Decode(s.values[i]), if f.hasCounts then s.counts[i] else 1)
  }

  /** No empty bucket among those probed from h before i. */
  ghost predicate Path(keys: seq<u64>, h: nat, i: nat)
    requires h < |keys| && i < |keys|
  {
    forall p: nat :: p < |keys| && Visited(h, Distance(h, i, |keys|), |keys|, p) ==> keys[p] != EMPTY
  }

  /** Bucket i is live, and its class is located there. */
  ghost predicate Located(f: Keying, s: Slots, where: map<u64, nat>, i: nat)
    requires i < |s.keys|
  {
    KeyClass(f, s, i) in where && where[KeyClass(f, s, i)] == i
  }

  /** Class c is located at a live bucket of that class, reachable by probing. */
  ghost predicate Reachable(f: Keying, s: Slots, where: map<u64, nat>, c: u64)
    requires c in where
  {
    && where[c] < |s.keys| && Live(s.keys[where[c]]) && KeyClass(f, s, where[c]) == c
    && Path(s.keys, First(f, c, |s.keys|), where[c])
  }

  /** Keys, values and counts agree on which buckets are live, empty and deleted. */
  ghost predicate Matched(f: Keying, s: Slots, i: nat)
    requires i < |s.keys| == |s.values| == |s.counts|
  {
    && (s.keys[i] == EMPTY <==> s.values[i] == EMPTY)
    && (s.keys[i] == DELETED <==> s.values[i] == DELETED)
    && (!f.hasKeys ==> s.keys[i] == s.values[i])
    && (f.hasCounts ==> (s.counts[i] > 0 <==> Live(s.keys[i])))
  }

  /** The bucket arrays represent the classes of `where`, each in one bucket. */
  ghost predicate Consistent(f: Keying, s: Slots, where: map<u64, nat>) {
    && |s.keys| == |s.values| == |s.counts|
    && (forall i: nat {:trigger Matched(f, s, i)} :: i < |s.keys| ==> Matched(f, s, i))
    && (forall i: nat {:trigger Located(f, s, where, i)} :: i < |s.keys| && Live(s.keys[i]) ==> Located(f, s, where, i))
    && (forall c {:trigger Reachable(f, s, where, c)} :: c in where ==> Reachable(f, s, where, c))
  }

  /** The ideal contents: one entry a class. */
  ghost function Model(f: Keying, s: Slots, where: map<u64, nat>): map<u64, Entry>
    requires Consistent(f, s, where)
  {
    map c | c in where :: (assert Reachable(f, s, where, c); EntryAt(f, s, where[c]))
  }

  // ---- Counting buckets ----

  /** When every bucket is live there are as many classes as buckets. */
  lemma FullMeansMany(f: Keying, s: Slots, where: map<u64, nat>)
    requires Consistent(f, s, where)
    requires forall i: nat :: i < |s.keys| ==> Live(s.keys[i])
    ensures |where| >= |s.keys|
  {
    forall i | i in Below(|s.keys|)
      ensures i in where.Values
    {
      assert Located(f, s, where, i);
    }
    SubsetIsSmaller(Below(|s.keys|), where.Values);
  }

  // ---- Probing ----

  /** The bucket a class may be added at: not live, and no empty bucket is probed before it. */
  ghost predicate FreeFor(f: Keying, s: Slots, c: u64, i: nat) {
    i < |s.keys| && !Live(s.keys[i]) && Path(s.keys, First(f, c, |s.keys|), i)
  }

  /** A present class can be reached by probing. */
  lemma PresentIsReachable(f: Keying, s: Slots, where: map<u64, nat>, c: u64)
    requires Consistent(f, s, where)
    ensures c in where ==> Reachable(f, s, where, c)
  {
  }

  lemma SameLengths(f: Keying, s: Slots, where: map<u64, nat>)
    requires Consistent(f, s, where)
    ensures |s.keys| == |s.values| == |s.counts|
  {
  }

  /** The first j buckets probed for class c are not empty, and none of them holds c. */
  ghost predicate Searched(f: Keying, s: Slots, c: u64, j: nat)
    requires |s.keys| > 0
  {
    var n := |s.keys|;
    forall p: nat :: p < n && Visited(First(f, c, n), j, n, p) ==>
                       s.keys[p] != EMPTY && (Live(s.keys[p]) ==> KeyClass(f, s, p) != c)
  }

  /** None of the first j buckets probed for class c is a tombstone. */
  ghost predicate NoTombstone(f: Keying, s: Slots, c: u64, j: nat)
    requires |s.keys| > 0
  {
    var n := |s.keys|;
    forall p: nat :: p < n && Visited(First(f, c, n), j, n, p) ==> s.keys[p] != DELETED
  }

  lemma SearchedNothing(f: Keying, s: Slots, c: u64)
    requires |s.keys| > 0
    ensures Searched(f, s, c, 0) && NoTombstone(f, s, c, 0)
  {
  }

  lemma SearchOn(f: Keying, s: Slots, c: u64, j: nat)
    requires j < |s.keys| && Searched(f, s, c, j)
    requires var p := Probe(First(f, c, |s.keys|), j, |s.keys|);
             s.keys[p] != EMPTY && (Live(s.keys[p]) ==> KeyClass(f, s, p) != c)
    ensures Searched(f, s, c, j + 1)
    ensures NoTombstone(f, s, c, j) && s.keys[Probe(First(f, c, |s.keys|), j, |s.keys|)] != DELETED ==>
              NoTombstone(f, s, c, j + 1)
  {
  }

  /** A searched stretch is a path to the bucket after it. */
  lemma SearchedIsPath(f: Keying, s: Slots, c: u64, j: nat)
    requires j < |s.keys| && Searched(f, s, c, j)
    ensures Path(s.keys, First(f, c, |s.keys|), Probe(First(f, c, |s.keys|), j, |s.keys|))
  {
  }

  /** An empty bucket ends the search: a class that was not met before it is nowhere. */
  lemma EmptyEndsSearch(f: Keying, s: Slots, where: map<u64, nat>, c: u64, j: nat)
    requires Consistent(f, s, where) && j < |s.keys| && Searched(f, s, c, j)
    requires s.keys[Probe(First(f, c, |s.keys|), j, |s.keys|)] == EMPTY
    ensures c !in where
  {
    PresentIsReachable(f, s, where, c);
  }

  /** A search through all buckets misses nothing; if it met no tombstone, every bucket is live. */
  lemma FullSearch(f: Keying, s: Slots, where: map<u64, nat>, c: u64)
    requires Consistent(f, s, where)
    requires |s.keys| > 0 ==> Searched(f, s, c, |s.keys|)
    ensures c !in where
    ensures |s.keys| > 0 && NoTombstone(f, s, c, |s.keys|) ==> |where| >= |s.keys|
  {
    PresentIsReachable(f, s, where, c);
    if |s.keys| > 0 && NoTombstone(f, s, c, |s.keys|) {
      FullMeansMany(f, s, where);
    }
  }

  /** A live bucket is where its class is located. */
  lemma FoundAt(f: Keying, s: Slots, where: map<u64, nat>, i: nat)
    requires Consistent(f, s, where) && i < |s.keys| && Live(s.keys[i])
    ensures var c := KeyClass(f, s, i);
            c in where && where[c] == i && Model(f, s, where)[c] == EntryAt(f, s, i) && EntryAt(f, s, i).count > 0
  {
    assert Located(f, s, where, i);
    assert Matched(f, s, i);
  }

  /** The bucket probed after j others is j places on from the hash, around the end. */
  lemma ProbeIsModular(f: Keying, c: u64, j: nat, n: nat)
    requires j < n
    ensures Probe(First(f, c, n), j, n) == (f.hash(c) + j) % n
  {
    var hash: int := f.hash(c);
    var q, h := hash / n, hash % n;
    var wraps := if h + j < n then 0 else 1;
    ModIs(hash + j, q + wraps, h + j - wraps * n, n);
  }

  /** Bucket i is the first that is not live, going on from the hash of c. */
  ghost predicate FirstFree(f: Keying, s: Slots, c: u64, i: nat) {
    var n := |s.keys|;
    exists j: nat :: j < n && i == (f.hash(c) + j) % n && !Live(s.keys[i]) && AllLive(f, s, c, j)
  }

  ghost predicate AllLive(f: Keying, s: Slots, c: u64, j: nat) {
    var n := |s.keys|;
    j <= n && forall k: nat {:trigger Probed(f, c, k, n)} :: k < j ==> Live(s.keys[Probed(f, c, k, n)])
  }

  function Probed(f: Keying, c: u64, k: nat, n: nat): (p: nat)
    requires n > 0
    ensures p < n
  {
    (f.hash(c) + k) % n
  }

  /** A search that has met no tombstone and stands at a bucket that is not live has found the first free one. */
  lemma FoundFree(f: Keying, s: Slots, c: u64, j: nat)
    requires j < |s.keys| && Searched(f, s, c, j) && NoTombstone(f, s, c, j)
    requires !Live(s.keys[Probe(First(f, c, |s.keys|), j, |s.keys|)])
    ensures FirstFree(f, s, c, Probe(First(f, c, |s.keys|), j, |s.keys|))
  {
    hide First;
    var n := |s.keys|;
    ProbeIsModular(f, c, j, n);
    forall k: nat | k < j
      ensures Live(s.keys[Probed(f, c, k, n)])
    {
      ProbeIsModular(f, c, k, n);
      assert Visited(First(f, c, n), j, n, Probe(First(f, c, n), k, n));
    }
    assert AllLive(f, s, c, j);
  }

  // ---- Updates ----

  function Put(s: Slots, i: nat, key: u64, value: u64, count: nat): Slots
    requires i < |s.keys| == |s.values| == |s.counts|
  {
    Slots(s.keys[i := key], s.values[i := value], s.counts[i := count])
  }

  lemma PathKept(old_: seq<u64>, new_: seq<u64>, h: nat, i: nat)
    requires |old_| == |new_| && h < |old_| && i < |old_| && Path(old_, h, i)
    requires forall p: nat :: p < |old_| && old_[p] != EMPTY ==> new_[p] != EMPTY
    ensures Path(new_, h, i)
  {
  }

  lemma AddIsConsistent(f: Keying, s: Slots, where: map<u64, nat>, i: nat, key: u64, value: u64, count: nat)
    requires Consistent(f, s, where)
    requires !IsSentinel(key) && !IsSentinel(value) && (!f.hasKeys ==> key == value)
    requires f.cls(key) !in where && FreeFor(f, s, f.cls(key), i)
    requires f.hasCounts ==> count > 0
    ensures Consistent(f, Put(s, i, Encode(key), Encode(value), count), where[f.cls(key) := i])
    ensures forall c {:trigger where[c]} :: c in where ==> where[c] != i
  {
    hide Path, First, Model, EntryAt;
    var s', where' := Put(s, i, Encode(key), Encode(value), count), where[f.cls(key) := i];
    forall j: nat | j < |s'.keys|
      ensures Matched(f, s', j)
    {
      assert Matched(f, s, j);
    }
    forall j: nat | j < |s'.keys| && Live(s'.keys[j])
      ensures Located(f, s', where', j)
    {
      if j != i {
        assert Located(f, s, where, j);
      }
    }
    forall c | c in where'
      ensures Reachable(f, s', where', c)
      ensures c in where ==> where[c] != i
    {
      if c in where {
        assert Reachable(f, s, where, c);
        PathKept(s.keys, s'.keys, First(f, c, |s.keys|), where[c]);
      } else {
        PathKept(s.keys, s'.keys, First(f, c, |s.keys|), i);
      }
    }
  }

  /** Adding an absent class at a free bucket. */
  lemma AddKeeps(f: Keying, s: Slots, where: map<u64, nat>,
                 i: nat, key: u64, value: u64, count: nat)
    requires Consistent(f, s, where)
    requires !IsSentinel(key) && !IsSentinel(value) && (!f.hasKeys ==> key == value)
    requires f.cls(key) !in where && FreeFor(f, s, f.cls(key), i)
    requires f.hasCounts ==> count > 0
    ensures var s' := Put(s, i, Encode(key), Encode(value), count);
            var where' := where[f.cls(key) := i];
            && Consistent(f, s', where')
            && Model(f, s', where')
               == Model(f, s, where)[f.cls(key) := Entry(key, value, if f.hasCounts then count else 1)]
  {
    hide Path, First, Consistent, Matched, Located;
    AddIsConsistent(f, s, where, i, key, value, count);
    forall c | c in where
      ensures where[c] < |s.keys|
    {
      PresentIsReachable(f, s, where, c);
    }
    SameLengths(f, s, where);
  }

  /** Replacing key, value and count of a live bucket by ones of the same class. */
  lemma ReplaceKeeps(f: Keying, s: Slots, where: map<u64, nat>,
                     c: u64, key: u64, value: u64, count: nat)
    requires Consistent(f, s, where) && c in where
    requires !IsSentinel(key) && !IsSentinel(value) && (!f.hasKeys ==> key == value) && f.cls(key) == c
    requires f.hasCounts ==> count > 0
    ensures where[c] < |s.keys|
    ensures var s' := Put(s, where[c], Encode(key), Encode(value), count);
            && Consistent(f, s', where)
            && Model(f, s', where)
               == Model(f, s, where)[c := Entry(key, value, if f.hasCounts then count else 1)]
  {
    hide Path, First;
    assert Reachable(f, s, where, c);
    var i := where[c];
    var s' := Put(s, i, Encode(key), Encode(value), count);
    forall j: nat | j < |s'.keys|
      ensures Matched(f, s', j)
    {
      assert Matched(f, s, j);
    }
    forall j: nat | j < |s'.keys| && Live(s'.keys[j])
      ensures Located(f, s', where, j)
    {
      assert Located(f, s, where, j);
    }
    forall d | d in where
      ensures Reachable(f, s', where, d)
      ensures d != c ==> where[d] != i
    {
      assert Reachable(f, s, where, d);
      PathKept(s.keys, s'.keys, First(f, d, |s.keys|), where[d]);
    }
  }

  /** Changing the count of a live bucket. */
  lemma RecountKeeps(f: Keying, s: Slots, where: map<u64, nat>, c: u64, count: nat)
    requires Consistent(f, s, where) && c in where
    requires f.hasCounts ==> count > 0
    ensures c in Model(f, s, where) && where[c] < |s.keys| == |s.values| == |s.counts|
    ensures var s' := s.(counts := s.counts[where[c] := count]);
            && Consistent(f, s', where)
            && Model(f, s', where)
               == Model(f, s, where)[c := Model(f, s, where)[c].(count := if f.hasCounts then count else 1)]
  {
    hide Consistent, Model, Reachable;
    SameLengths(f, s, where);
    PresentInModel(f, s, where, c);
    var i := where[c];
    MatchedBucket(f, s, where, i);
    DecodeIsNoSentinel(s.keys[i]);
    DecodeIsNoSentinel(s.values[i]);
    ReplaceKeeps(f, s, where, c, Decode(s.keys[i]), Decode(s.values[i]), count);
    assert Put(s, i, s.keys[i], s.values[i], count) == s.(counts := s.counts[i := count]);
  }

  /** Deleting leaves a tombstone, so that other classes stay reachable. */
  lemma RemoveKeeps(f: Keying, s: Slots, where: map<u64, nat>, c: u64, count: nat)
    requires Consistent(f, s, where) && c in where
    requires f.hasCounts ==> count == 0
    ensures where[c] < |s.keys|
    ensures var s' := Put(s, where[c], DELETED, DELETED, count);
            && Consistent(f, s', where - {c})
            && Model(f, s', where - {c}) == Model(f, s, where) - {c}
  {
    hide Path, First;
    assert Reachable(f, s, where, c);
    var i := where[c];
    var s', where' := Put(s, i, DELETED, DELETED, count), where - {c};
    forall j: nat | j < |s'.keys|
      ensures Matched(f, s', j)
    {
      assert Matched(f, s, j);
    }
    forall j: nat | j < |s'.keys| && Live(s'.keys[j])
      ensures Located(f, s', where', j)
    {
      assert Located(f, s, where, j);
    }
    forall d | d in where'
      ensures Reachable(f, s', where', d)
      ensures where[d] != i
    {
      assert Reachable(f, s, where, d);
      PathKept(s.keys, s'.keys, First(f, d, |s.keys|), where[d]);
    }
  }

  /** Fresh arrays hold nothing. */
  lemma ClearIsConsistent(f: Keying, s: Slots)
    requires |s.keys| == |s.values| == |s.counts|
    requires forall i: nat :: i < |s.keys| ==> s.keys[i] == EMPTY && s.values[i] == EMPTY && s.counts[i] == 0
    ensures Consistent(f, s, map[])
    ensures Model(f, s, map[]) == map[]
  {
  }

  lemma TombstonesAfter(ks: seq<u64>, i: nat, w: u64)
    requires i < |ks|
    ensures multiset(ks[i := w])[DELETED]
         == multiset(ks)[DELETED] - (if ks[i] == DELETED then 1 else 0) + (if w == DELETED then 1 else 0)
    ensures ks[i] == DELETED ==> multiset(ks)[DELETED] > 0
  {
  }

  // ---- Rehashing ----

  lemma DecodeIsNoSentinel(w: u64)
    requires Live(w)
    ensures !IsSentinel(Decode(w)) && Encode(Decode(w)) == w
  {
  }

  /** The entries of the first i old buckets, and no others, are in the new arrays, which have no tombstones. */
  ghost predicate Moved(f: Keying, old_: Slots, oldWhere: map<u64, nat>, s: Slots, where: map<u64, nat>, i: nat) {
    && Consistent(f, old_, oldWhere) && Consistent(f, s, where)
    && (forall p: nat :: p < |s.keys| ==> s.keys[p] != DELETED)
    && (forall c {:trigger Carried(f, old_, oldWhere, s, where, i, c)} ::
          c in where ==> Carried(f, old_, oldWhere, s, where, i, c))
    && (forall c :: c in oldWhere && oldWhere[c] < i ==> c in where)
  }

  ghost predicate Carried(f: Keying, old_: Slots, oldWhere: map<u64, nat>, s: Slots, where: map<u64, nat>,
                          i: nat, c: u64)
    requires Consistent(f, old_, oldWhere) && Consistent(f, s, where) && c in where
  {
    c in oldWhere && oldWhere[c] < i && Model(f, s, where)[c] == Model(f, old_, oldWhere)[c]
  }

  lemma CarriedClass(f: Keying, old_: Slots, oldWhere: map<u64, nat>, s: Slots, where: map<u64, nat>, i: nat, c: u64)
    requires Moved(f, old_, oldWhere, s, where, i)
    ensures c in where ==> Carried(f, old_, oldWhere, s, where, i, c)
  {
  }

  lemma NothingMoved(f: Keying, old_: Slots, oldWhere: map<u64, nat>, s: Slots)
    requires Consistent(f, old_, oldWhere)
    requires |s.keys| == |s.values| == |s.counts|
    requires forall i: nat :: i < |s.keys| ==> s.keys[i] == EMPTY && s.values[i] == EMPTY && s.counts[i] == 0
    ensures Moved(f, old_, oldWhere, s, map[], 0)
  {
  }

  /** A bucket that is not live holds no class. */
  lemma SkipBucket(f: Keying, old_: Slots, oldWhere: map<u64, nat>, s: Slots, where: map<u64, nat>, i: nat)
    requires Moved(f, old_, oldWhere, s, where, i) && i < |old_.keys| && !Live(old_.keys[i])
    ensures Moved(f, old_, oldWhere, s, where, i + 1)
  {
    forall c | c in where
      ensures Carried(f, old_, oldWhere, s, where, i + 1, c)
    {
      assert Carried(f, old_, oldWhere, s, where, i, c);
    }
    forall c | c in oldWhere && oldWhere[c] < i + 1
      ensures c in where
    {
      PresentIsReachable(f, old_, oldWhere, c);
    }
  }

  /** A live bucket's class is not in the new arrays yet, and there is room for it. */
  lemma BucketIsNew(f: Keying, old_: Slots, oldWhere: map<u64, nat>, s: Slots, where: map<u64, nat>, i: nat)
    requires Moved(f, old_, oldWhere, s, where, i) && i < |old_.keys| && Live(old_.keys[i])
    ensures KeyClass(f, old_, i) !in where && |where| < |oldWhere|
  {
    var c := KeyClass(f, old_, i);
    FoundAt(f, old_, oldWhere, i);
    CarriedClass(f, old_, oldWhere, s, where, i, c);
    forall d | d in where.Keys
      ensures d in oldWhere.Keys - {c}
    {
      assert Carried(f, old_, oldWhere, s, where, i, d);
    }
    SubsetIsSmaller(where.Keys, oldWhere.Keys - {c});
    assert |oldWhere.Keys - {c}| == |oldWhere.Keys| - 1;
  }

  lemma MoveBucket(f: Keying, old_: Slots, oldWhere: map<u64, nat>, s: Slots, where: map<u64, nat>, i: nat, j: nat)
    requires Moved(f, old_, oldWhere, s, where, i) && i < |old_.keys| && Live(old_.keys[i])
    requires FreeFor(f, s, KeyClass(f, old_, i), j)
    ensures var s' := Put(s, j, old_.keys[i], old_.values[i], old_.counts[i]);
            Moved(f, old_, oldWhere, s', where[KeyClass(f, old_, i) := j], i + 1)
  {
    hide Consistent, Model;
    SameLengths(f, s, where);
    var c := KeyClass(f, old_, i);
    MatchedBucket(f, old_, oldWhere, i);
    FoundAt(f, old_, oldWhere, i);
    BucketIsNew(f, old_, oldWhere, s, where, i);
    DecodeIsNoSentinel(old_.keys[i]);
    DecodeIsNoSentinel(old_.values[i]);
    AddKeeps(f, s, where, j, Decode(old_.keys[i]), Decode(old_.values[i]), old_.counts[i]);
    var s', where' := Put(s, j, old_.keys[i], old_.values[i], old_.counts[i]), where[c := j];
    forall d | d in where'
      ensures Carried(f, old_, oldWhere, s', where', i + 1, d)
    {
      if d in where {
        assert Carried(f, old_, oldWhere, s, where, i, d);
        PresentInModel(f, s, where, d);
      }
    }
    forall d | d in oldWhere && oldWhere[d] < i + 1
      ensures d in where'
    {
      if oldWhere[d] == i {
        PresentIsReachable(f, old_, oldWhere, d);
      }
    }
  }

  lemma PresentInModel(f: Keying, s: Slots, where: map<u64, nat>, c: u64)
    requires Consistent(f, s, where)
    ensures c in where <==> c in Model(f, s, where)
    ensures c in where ==> where[c] < |s.keys| && Live(s.keys[where[c]]) && KeyClass(f, s, where[c]) == c
                           && Model(f, s, where)[c] == EntryAt(f, s, where[c])
  {
    PresentIsReachable(f, s, where, c);
  }

  lemma KeysOfModel(f: Keying, s: Slots, where: map<u64, nat>)
    requires Consistent(f, s, where)
    ensures Model(f, s, where).Keys == where.Keys
  {
  }

  lemma MatchedBucket(f: Keying, s: Slots, where: map<u64, nat>, i: nat)
    requires Consistent(f, s, where) && i < |s.keys|
    ensures |s.keys| == |s.values| == |s.counts|
    ensures Matched(f, s, i)
  {
  }

  lemma AllMoved(f: Keying, old_: Slots, oldWhere: map<u64, nat>, s: Slots, where: map<u64, nat>)
    requires Moved(f, old_, oldWhere, s, where, |old_.keys|)
    ensures Model(f, s, where) == Model(f, old_, oldWhere) && |where| == |oldWhere|
  {
    forall c
      ensures c in oldWhere <==> c in where
    {
      PresentIsReachable(f, old_, oldWhere, c);
      if c in where {
        assert Carried(f, old_, oldWhere, s, where, |old_.keys|, c);
      }
    }
    assert where.Keys == oldWhere.Keys;
    forall c | c in where
      ensures Model(f, s, where)[c] == Model(f, old_, oldWhere)[c]
    {
      assert Carried(f, old_, oldWhere, s, where, |old_.keys|, c);
    }
    assert |where| == |where.Keys| == |oldWhere.Keys| == |oldWhere|;
  }
}
