/** The ideal map a hash table refines: what each operation means, without buckets. */
module HashIdeal {
  import opened Bytes
  import opened HashSlots

  type Ideal = map<u64, Entry>

  /** Adding a present key counts it once more in a bag, up to the largest count, and changes nothing elsewhere. */
  function IdealAdd(f: Keying, m: Ideal, key: u64, value: u64): Ideal {
    var c := f.cls(key);
    if c !in m then m[c := Entry(key, value, 1)]
    else if f.hasCounts && m[c].count < LONG_MAX then m[c := m[c].(count := m[c].count + 1)]
    else m
  }

  function IdealReplace(f: Keying, m: Ideal, key: u64, value: u64): Ideal {
    var c := f.cls(key);
    if c in m then m[c := Entry(key, value, m[c].count)] else m
  }

  function IdealSet(f: Keying, m: Ideal, key: u64, value: u64): Ideal {
    var c := f.cls(key);
    if c in m then IdealReplace(f, m, key, value) else m[c := Entry(key, value, 1)]
  }

  /** Removing counts down, and drops the entry with its last count. A count that reached the largest stays there. */
  function IdealRemove(f: Keying, m: Ideal, key: u64): Ideal {
    var c := f.cls(key);
    if c !in m then m
    else if m[c].count <= 1 then m - {c}
    else if m[c].count < LONG_MAX then m[c := m[c].(count := m[c].count - 1)]
    else m
  }

  // ---- Runs ----

  datatype Op = Add(key: u64, value: u64) | Set(key: u64, value: u64) | Replace(key: u64, value: u64) | Remove(key: u64)

  /** What the entry points demand: no sentinels, and in a table without keys the key is the value. */
  predicate Legal(f: Keying, op: Op) {
    op.Remove? || (!IsSentinel(op.key) && !IsSentinel(op.value) && (!f.hasKeys ==> op.key == op.value))
  }

  /** A removal of a sentinel does nothing, whatever the key callbacks make of it. */
  function IdealStep(f: Keying, m: Ideal, op: Op): Ideal {
    match op
    case Add(key, value) => IdealAdd(f, m, key, value)
    case Set(key, value) => IdealSet(f, m, key, value)
    case Replace(key, value) => IdealReplace(f, m, key, value)
    case Remove(key) => if IsSentinel(key) then m else IdealRemove(f, m, key)
  }

  function IdealRun(f: Keying, ops: seq<Op>): Ideal {
    if ops == [] then map[]
    else IdealStep(f, IdealRun(f, ops[..|ops| - 1]), ops[|ops| - 1])
  }

  /** Every entry counts at least 1, exactly 1 without counts, and at most the largest count. */
  ghost predicate Counted(f: Keying, m: Ideal) {
    forall c :: c in m ==> 1 <= m[c].count <= LONG_MAX && (!f.hasCounts ==> m[c].count == 1)
  }

  /** All entries but that of class c are as they were. */
  ghost predicate OthersKept(m: Ideal, m': Ideal, c: u64) {
    && (forall d :: d in m && d != c ==> d in m' && m'[d] == m[d])
    && (forall d :: d in m' && d != c ==> d in m)
  }

  /** An absent class gets key and value and counts 1; in a bag a present one keeps its key and value and counts once
      more, up to the largest count; anywhere else nothing changes. */
  lemma AddMeans(f: Keying, m: Ideal, key: u64, value: u64)
    requires Counted(f, m)
    ensures var c, m' := f.cls(key), IdealStep(f, m, Add(key, value));
            && OthersKept(m, m', c) && c in m'
            && (c !in m ==> m'[c] == Entry(key, value, 1))
            && (c in m && !f.hasCounts ==> m' == m)
            && (c in m && f.hasCounts ==>
                  m'[c] == Entry(m[c].key, m[c].value, if m[c].count < LONG_MAX then m[c].count + 1 else LONG_MAX))
  {
  }

  /** Afterwards the class holds exactly this key and value, with the count it had, or 1. */
  lemma SetMeans(f: Keying, m: Ideal, key: u64, value: u64)
    ensures var c, m' := f.cls(key), IdealStep(f, m, Set(key, value));
            OthersKept(m, m', c) && c in m' && m'[c] == Entry(key, value, if c in m then m[c].count else 1)
  {
  }

  /** A present class holds this key and value afterwards, with the count it had; an absent one stays absent. */
  lemma ReplaceMeans(f: Keying, m: Ideal, key: u64, value: u64)
    ensures var c, m' := f.cls(key), IdealStep(f, m, Replace(key, value));
            && OthersKept(m, m', c) && (c in m' <==> c in m)
            && (c in m ==> m'[c] == Entry(key, value, m[c].count))
  {
  }

  /** A class that counts 1 goes; one that counts more keeps its key and value and counts once less, but at the largest
      count it stays; a sentinel removes nothing. */
  lemma RemoveMeans(f: Keying, m: Ideal, key: u64)
    requires Counted(f, m)
    ensures var c, m' := f.cls(key), IdealStep(f, m, Remove(key));
            && OthersKept(m, m', c)
            && (IsSentinel(key) || c !in m ==> m' == m)
            && (!IsSentinel(key) && c in m ==>
                  && (c in m' <==> 1 < m[c].count)
                  && (1 < m[c].count < LONG_MAX ==> m'[c] == Entry(m[c].key, m[c].value, m[c].count - 1))
                  && (m[c].count == LONG_MAX ==> m' == m))
  {
  }

  /** The operation brings a class that is not there. */
  predicate AddsClass(f: Keying, m: Ideal, op: Op) {
    (op.Add? || op.Set?) && f.cls(op.key) !in m
  }

  // ---- Totals ----

  /** The sum of the counts of all entries. */
  ghost function SumOf(m: Ideal): nat
    decreases |m|
  {
    if m == map[] then 0
    else
      var c :| c in m;
      m[c].count + SumOf(m - {c})
  }

  /** Any entry may be taken out first. */
  lemma {:induction false} SumWithout(m: Ideal, c: u64)
    requires c in m
    ensures SumOf(m) == m[c].count + SumOf(m - {c})
    decreases |m|
  {
    var d :| d in m && SumOf(m) == m[d].count + SumOf(m - {d});
    if c != d {
      SumWithout(m - {d}, c);
      assert m - {d} - {c} == m - {c} - {d};
      SumWithout(m - {c}, d);
    }
  }

  lemma SumWith(m: Ideal, c: u64, e: Entry)
    ensures SumOf(m[c := e]) == SumOf(m - {c}) + e.count
    ensures c !in m ==> SumOf(m[c := e]) == SumOf(m) + e.count
    ensures c in m ==> SumOf(m[c := e]) == SumOf(m) - m[c].count + e.count
  {
    SumWithout(m[c := e], c);
    assert m[c := e] - {c} == m - {c};
    if c in m {
      SumWithout(m, c);
    } else {
      assert m - {c} == m;
    }
  }

  lemma {:induction false} SumOfOnes(m: Ideal)
    requires forall c :: c in m ==> m[c].count == 1
    ensures SumOf(m) == |m|
    decreases |m|
  {
    if m != map[] {
      var c :| c in m;
      SumWithout(m, c);
      SumOfOnes(m - {c});
    }
  }

  /** How one operation changes the total: what a caller counting successful adds and removes would add up. */
  function Change(f: Keying, m: Ideal, op: Op): int {
    var c := f.cls(op.key);
    match op
    case Add(_, _) => if c !in m || (f.hasCounts && m[c].count < LONG_MAX) then 1 else 0
    case Set(_, _) => if c !in m then 1 else 0
    case Replace(_, _) => 0
    case Remove(key) => if !IsSentinel(key) && c in m && m[c].count < LONG_MAX then -1 else 0
  }

  function Changes(f: Keying, ops: seq<Op>): int {
    if ops == [] then 0
    else
      var before := ops[..|ops| - 1];
      Changes(f, before) + Change(f, IdealRun(f, before), ops[|ops| - 1])
  }

  /** An operation touches the entry of its own key only. */
  lemma StepTouchesOne(f: Keying, m: Ideal, op: Op)
    ensures var c, m' := f.cls(op.key), IdealStep(f, m, op);
            m' == if c in m' then m[c := m'[c]] else m - {c}
  {
  }

  lemma StepCounts(f: Keying, m: Ideal, op: Op)
    requires Counted(f, m)
    ensures var c, m' := f.cls(op.key), IdealStep(f, m, op);
            && (if c in m' then m'[c].count else 0) == (if c in m then m[c].count else 0) + Change(f, m, op)
            && (c in m' ==> 1 <= m'[c].count <= LONG_MAX && (!f.hasCounts ==> m'[c].count == 1))
  {
  }

  lemma StepKeepsCounted(f: Keying, m: Ideal, op: Op)
    requires Counted(f, m)
    ensures Counted(f, IdealStep(f, m, op))
  {
  }

  lemma StepSize(f: Keying, m: Ideal, op: Op)
    ensures |IdealStep(f, m, op)| <= |m| + 1
  {
  }

  lemma StepChangesTotal(f: Keying, m: Ideal, op: Op)
    requires Counted(f, m)
    ensures SumOf(IdealStep(f, m, op)) == SumOf(m) + Change(f, m, op)
  {
    hide IdealStep, Change, SumOf, Counted;
    var c := f.cls(op.key);
    var m' := IdealStep(f, m, op);
    StepTouchesOne(f, m, op);
    StepCounts(f, m, op);
    if c in m' {
      SumWith(m, c, m'[c]);
    } else if c in m {
      SumWithout(m, c);
    } else {
      assert m - {c} == m;
    }
  }

  /** Over any run from an empty table, the total is the adds that succeeded less the removes that succeeded. */
  lemma {:induction false} RunTotal(f: Keying, ops: seq<Op>)
    ensures Counted(f, IdealRun(f, ops))
    ensures SumOf(IdealRun(f, ops)) == Changes(f, ops)
    ensures |IdealRun(f, ops)| <= |ops|
  {
    if ops != [] {
      RunTotal(f, ops[..|ops| - 1]);
      var before, op := IdealRun(f, ops[..|ops| - 1]), ops[|ops| - 1];
      StepKeepsCounted(f, before, op);
      StepSize(f, before, op);
      StepChangesTotal(f, before, op);
    }
  }

  // ---- Walking the buckets ----

  /** The entries of the first i buckets. */
  ghost function Part(f: Keying, s: Slots, where: map<u64, nat>, i: nat): Ideal
    requires Consistent(f, s, where)
  {
    map c | c in where && where[c] < i :: Model(f, s, where)[c]
  }

  lemma PartNext(f: Keying, s: Slots, where: map<u64, nat>, i: nat)
    requires Consistent(f, s, where) && i < |s.keys| == |s.values| == |s.counts|
    ensures Live(s.keys[i]) ==>
              && KeyClass(f, s, i) !in Part(f, s, where, i)
              && Part(f, s, where, i + 1) == Part(f, s, where, i)[KeyClass(f, s, i) := EntryAt(f, s, i)]
              && KeyClass(f, s, i) in Model(f, s, where)
              && Model(f, s, where)[KeyClass(f, s, i)] == EntryAt(f, s, i)
    ensures !Live(s.keys[i]) ==> Part(f, s, where, i + 1) == Part(f, s, where, i)
    ensures !Live(s.keys[i]) && f.hasCounts ==> s.counts[i] == 0
    ensures |Part(f, s, where, i + 1)| == |Part(f, s, where, i)| + (if Live(s.keys[i]) then 1 else 0)
  {
    hide Consistent, Model, Reachable;
    MatchedBucket(f, s, where, i);
    forall c | c in where
      ensures where[c] == i ==> Live(s.keys[i]) && c == KeyClass(f, s, i)
    {
      PresentInModel(f, s, where, c);
    }
    if Live(s.keys[i]) {
      FoundAt(f, s, where, i);
      PresentInModel(f, s, where, KeyClass(f, s, i));
    }
  }

  lemma PartEnds(f: Keying, s: Slots, where: map<u64, nat>)
    requires Consistent(f, s, where)
    ensures Part(f, s, where, 0) == map[] && Part(f, s, where, |s.keys|) == Model(f, s, where)
  {
    hide Consistent, Model, Reachable;
    KeysOfModel(f, s, where);
    forall c | c in where
      ensures where[c] < |s.keys|
    {
      PresentInModel(f, s, where, c);
    }
  }

  /** A part with as many classes as there are is everything. */
  lemma PartIsAll(f: Keying, s: Slots, where: map<u64, nat>, i: nat, c: u64)
    requires Consistent(f, s, where) && |Part(f, s, where, i)| == |where|
    ensures c in Model(f, s, where) ==> c in Part(f, s, where, i)
  {
    hide Consistent, Model, Reachable;
    KeysOfModel(f, s, where);
    var part := Part(f, s, where, i).Keys;
    if c in where && c !in part {
      assert |part + {c}| == |part| + 1;
      SubsetIsSmaller(part + {c}, where.Keys);
    }
  }

  function LiveCount(ws: seq<u64>): nat {
    if ws == [] then 0 else LiveCount(ws[..|ws| - 1]) + (if Live(ws[|ws| - 1]) then 1 else 0)
  }

  /** There is one live bucket for each class. */
  lemma {:induction false} LiveBucketsAreClasses(f: Keying, s: Slots, where: map<u64, nat>, i: nat)
    requires Consistent(f, s, where) && i <= |s.keys|
    ensures LiveCount(s.keys[..i]) == |Part(f, s, where, i)|
    ensures i == |s.keys| ==> LiveCount(s.keys) == |where|
  {
    hide Consistent, Model, Part;
    PartEnds(f, s, where);
    KeysOfModel(f, s, where);
    SameLengths(f, s, where);
    if i > 0 {
      LiveBucketsAreClasses(f, s, where, i - 1);
      PartNext(f, s, where, i - 1);
      assert s.keys[..i][..i - 1] == s.keys[..i - 1];
    }
    assert s.keys[..|s.keys|] == s.keys;
    assert |Model(f, s, where).Keys| == |where.Keys|;
  }

  // ---- Equality ----

  /** An entry a table can hold for class c. */
  predicate Holdable(f: Keying, c: u64, e: Entry) {
    && f.cls(e.key) == c && !IsSentinel(e.key) && !IsSentinel(e.value) && (!f.hasKeys ==> e.key == e.value)
    && 1 <= e.count <= LONG_MAX && (!f.hasCounts ==> e.count == 1)
  }

  /** Contents a table can have. */
  ghost predicate Storable(f: Keying, m: Ideal) {
    forall c {:trigger m[c]} :: c in m ==> Holdable(f, c, m[c])
  }

  lemma ZeroTotalIsEmpty(f: Keying, m: Ideal)
    requires Storable(f, m)
    ensures SumOf(m) == 0 ==> m == map[]
  {
    if m != map[] {
      var c :| c in m;
      SumWithout(m, c);
      assert Holdable(f, c, m[c]);
    }
  }

  /** What a comparison asks of class c of m: as many of an equal key in w, which has its own keying g, and an equal
      value if m is of a kind with keys. Keys are equal as w says, values as m says. */
  ghost predicate Found(f: Keying, g: Keying, m: Ideal, w: Ideal, c: u64)
    requires c in m
  {
    var d := g.cls(m[c].key);
    d in w && m[c].count == w[d].count && (f.hasKeys ==> f.val(m[c].value) == f.val(w[d].value))
  }

  ghost predicate AllFound(f: Keying, g: Keying, m: Ideal, w: Ideal) {
    forall c {:trigger Found(f, g, m, w, c)} :: c in m ==> Found(f, g, m, w, c)
  }

  /** What comparing m with w comes to. */
  ghost predicate ComparesEqual(f: Keying, g: Keying, m: Ideal, w: Ideal) {
    SumOf(m) == SumOf(w) && AllFound(f, g, m, w)
  }

  /** Each entry of either is found in the other. */
  ghost predicate SameContents(f: Keying, g: Keying, m: Ideal, w: Ideal) {
    AllFound(f, g, m, w) && AllFound(g, f, w, m)
  }

  predicate KeysAlike(f: Keying, g: Keying, k: u64, l: u64) {
    f.cls(k) == f.cls(l) <==> g.cls(k) == g.cls(l)
  }

  predicate ValuesAlike(f: Keying, g: Keying, x: u64, y: u64) {
    (f.hasKeys ==> f.val(x) == f.val(y)) <==> (g.hasKeys ==> g.val(x) == g.val(y))
  }

  /** Two keyings that agree on which keys are equal and on which values pass for equal. Hashes, counts and the names
      of the classes do not matter. */
  ghost predicate Agree(f: Keying, g: Keying) {
    && (forall k: u64, l: u64 {:trigger KeysAlike(f, g, k, l)} ::
          !IsSentinel(k) && !IsSentinel(l) ==> KeysAlike(f, g, k, l))
    && (forall x: u64, y: u64 {:trigger ValuesAlike(f, g, x, y)} ::
          !IsSentinel(x) && !IsSentinel(y) ==> ValuesAlike(f, g, x, y))
  }

  lemma AgreeIsMutual(f: Keying, g: Keying)
    requires Agree(f, g)
    ensures Agree(g, f)
  {
    forall k: u64, l: u64 | !IsSentinel(k) && !IsSentinel(l)
      ensures KeysAlike(g, f, k, l) && ValuesAlike(g, f, k, l)
    {
      assert KeysAlike(f, g, k, l) && ValuesAlike(f, g, k, l);
    }
  }

  /** The classes of w that the keys of m are in. */
  ghost function Image(g: Keying, m: Ideal): set<u64> {
    set c | c in m :: g.cls(m[c].key)
  }

  /** Under keyings that agree, different classes of m are found in different classes of w. */
  lemma FoundApart(f: Keying, g: Keying, m: Ideal, c: u64, e: u64)
    requires Agree(f, g) && Storable(f, m) && c in m && e in m
    ensures g.cls(m[c].key) == g.cls(m[e].key) <==> c == e
  {
    assert Holdable(f, c, m[c]) && Holdable(f, e, m[e]);
    assert KeysAlike(f, g, m[c].key, m[e].key);
  }

  lemma FoundElsewhere(f: Keying, g: Keying, m: Ideal, w: Ideal, c: u64)
    requires Agree(f, g) && Storable(f, m) && c in m && AllFound(f, g, m, w)
    ensures var d := g.cls(m[c].key);
            && Storable(f, m - {c}) && AllFound(f, g, m - {c}, w - {d})
            && Image(g, m) == Image(g, m - {c}) + {d} && d !in Image(g, m - {c})
  {
    var d := g.cls(m[c].key);
    forall e | e in m - {c}
      ensures Found(f, g, m - {c}, w - {d}, e) && g.cls(m[e].key) != d
    {
      assert Found(f, g, m, w, e);
      FoundApart(f, g, m, c, e);
    }
  }

  lemma WithoutBoth(w: Ideal, d: u64, others: set<u64>)
    ensures w - {d} - others == w - (others + {d})
  {
  }

  /** If every entry of m is found in w, the rest of w is what its total exceeds that of m by. */
  lemma {:induction false} MatchedTotals(f: Keying, g: Keying, m: Ideal, w: Ideal)
    requires Agree(f, g) && Storable(f, m) && AllFound(f, g, m, w)
    ensures SumOf(w) == SumOf(m) + SumOf(w - Image(g, m))
    decreases |m|
  {
    if m == map[] {
      assert w - Image(g, m) == w;
    } else {
      hide Agree, Storable, AllFound, Image, SumOf;
      var c :| c in m;
      var d := g.cls(m[c].key);
      assert Found(f, g, m, w, c);
      FoundElsewhere(f, g, m, w, c);
      MatchedTotals(f, g, m - {c}, w - {d});
      SumWithout(m, c);
      SumWithout(w, d);
      WithoutBoth(w, d, Image(g, m - {c}));
    }
  }

  /** One-sided matching and equal totals are enough: an entry of w that is not matched would count for something. */
  lemma MatchedAndEqualTotals(f: Keying, g: Keying, m: Ideal, w: Ideal)
    requires Agree(f, g) && Storable(f, m) && Storable(g, w) && ComparesEqual(f, g, m, w)
    ensures SameContents(f, g, m, w)
  {
    MatchedTotals(f, g, m, w);
    forall d | d in w
      ensures Found(g, f, w, m, d)
    {
      assert Holdable(g, d, w[d]);
      if d !in Image(g, m) {
        SumWithout(w - Image(g, m), d);
        assert false;
      }
      var c :| c in m && g.cls(m[c].key) == d;
      FoundBack(f, g, m, w, c);
    }
  }

  /** What is found is also found from the other side. */
  lemma FoundBack(f: Keying, g: Keying, m: Ideal, w: Ideal, c: u64)
    requires Agree(f, g) && Storable(f, m) && Storable(g, w) && AllFound(f, g, m, w) && c in m
    ensures g.cls(m[c].key) in w && Found(g, f, w, m, g.cls(m[c].key))
  {
    var d := g.cls(m[c].key);
    assert Found(f, g, m, w, c);
    assert Holdable(f, c, m[c]) && Holdable(g, d, w[d]);
    assert KeysAlike(f, g, w[d].key, m[c].key) && ValuesAlike(f, g, m[c].value, w[d].value);
  }

  /** Between tables whose keyings agree, comparing the totals and the entries of one side is equality. */
  lemma ComparisonIsEquality(f: Keying, g: Keying, m: Ideal, w: Ideal)
    requires Agree(f, g) && Storable(f, m) && Storable(g, w)
    ensures ComparesEqual(f, g, m, w) <==> SameContents(f, g, m, w)
  {
    hide SumOf;
    if ComparesEqual(f, g, m, w) {
      MatchedAndEqualTotals(f, g, m, w);
    }
    if SameContents(f, g, m, w) {
      AgreeIsMutual(f, g);
      MatchedTotals(f, g, m, w);
      MatchedTotals(g, f, w, m);
    }
  }

  /** Where keys are classed alike, contents are the same when they have the same classes with the same entries. */
  lemma SameContentsIffSameEntries(f: Keying, g: Keying, m: Ideal, w: Ideal)
    requires Agree(f, g) && Storable(f, m) && Storable(g, w)
    requires forall k: u64 :: !IsSentinel(k) ==> f.cls(k) == g.cls(k)
    ensures SameContents(f, g, m, w) <==> m.Keys == w.Keys && forall c :: c in m ==>
              m[c].count == w[c].count && (f.hasKeys ==> f.val(m[c].value) == f.val(w[c].value))
  {
    forall c | c in m
      ensures g.cls(m[c].key) == c
    {
      assert Holdable(f, c, m[c]);
    }
    forall c | c in w
      ensures f.cls(w[c].key) == c
    {
      assert Holdable(g, c, w[c]);
    }
    if SameContents(f, g, m, w) {
      assert forall c :: c in m ==> Found(f, g, m, w, c);
      assert forall c :: c in w ==> Found(g, f, w, m, c);
    }
    if m.Keys == w.Keys && AllFound(f, g, m, w) {
      forall c | c in w
        ensures Found(g, f, w, m, c)
      {
        FoundBack(f, g, m, w, c);
      }
    }
  }

  /** The contents of a table with one entry. */
  ghost function One(f: Keying, key: u64, value: u64): Ideal {
    map[f.cls(key) := Entry(key, value, 1)]
  }

  /** A comparison of one entry with one entry is of the keys as the second table says and the values as the first. */
  lemma ComparesOnes(f: Keying, g: Keying, k: u64, x: u64, l: u64, y: u64)
    ensures ComparesEqual(f, g, One(f, k, x), One(g, l, y))
       <==> g.cls(k) == g.cls(l) && (f.hasKeys ==> f.val(x) == f.val(y))
  {
    var m, w := One(f, k, x), One(g, l, y);
    SumOfOnes(m);
    SumOfOnes(w);
    assert m.Keys == {f.cls(k)} && w.Keys == {g.cls(l)};
    assert Found(f, g, m, w, f.cls(k)) <==> g.cls(k) == g.cls(l) && (f.hasKeys ==> f.val(x) == f.val(y));
  }

  ghost predicate Symmetric(f: Keying, g: Keying, m: Ideal, w: Ideal) {
    ComparesEqual(f, g, m, w) <==> ComparesEqual(g, f, w, m)
  }

  /** Of keyings that tell the keys k and l apart differently: a table with l and one with k compare equal one way. */
  lemma KeysTellApart(f: Keying, g: Keying, k: u64, l: u64) returns (m: Ideal, w: Ideal)
    requires !IsSentinel(k) && !IsSentinel(l) && f.cls(k) == f.cls(l) && g.cls(k) != g.cls(l)
    ensures Storable(f, m) && Storable(g, w) && !ComparesEqual(f, g, m, w) && ComparesEqual(g, f, w, m)
  {
    var v := if g.hasKeys then l else k;
    m, w := One(f, l, l), One(g, k, v);
    ComparesOnes(f, g, l, l, k, v);
    ComparesOnes(g, f, k, v, l, l);
  }

  /** Of keyings that tell the values x and y apart differently: two tables with one key and these values. */
  lemma ValuesTellApart(f: Keying, g: Keying, x: u64, y: u64) returns (m: Ideal, w: Ideal)
    requires !IsSentinel(x) && !IsSentinel(y) && !ValuesAlike(f, g, x, y)
    ensures Storable(f, m) && Storable(g, w) && !Symmetric(f, g, m, w)
  {
    var k := if g.hasKeys then x else y;
    m, w := One(f, k, x), One(g, k, y);
    ComparesOnes(f, g, k, x, k, y);
    ComparesOnes(g, f, k, y, k, x);
  }

  /** Comparing is symmetric, on all contents that two tables can have, exactly when their keyings agree. */
  lemma ComparisonIsSymmetricIff(f: Keying, g: Keying)
    ensures Agree(f, g)
       <==> forall m, w {:trigger Symmetric(f, g, m, w)} ::
              Storable(f, m) && Storable(g, w) ==> Symmetric(f, g, m, w)
  {
    hide ComparesEqual, Storable;
    if Agree(f, g) {
      AgreeIsMutual(f, g);
      forall m, w | Storable(f, m) && Storable(g, w)
        ensures Symmetric(f, g, m, w)
      {
        ComparisonIsEquality(f, g, m, w);
        ComparisonIsEquality(g, f, w, m);
      }
    } else if k: u64, l: u64 :| !IsSentinel(k) && !IsSentinel(l) && !KeysAlike(f, g, k, l) {
      if f.cls(k) == f.cls(l) {
        var m, w := KeysTellApart(f, g, k, l);
        assert !Symmetric(f, g, m, w);
      } else {
        var w, m := KeysTellApart(g, f, k, l);
        assert !Symmetric(f, g, m, w);
      }
    } else {
      var x: u64, y: u64 :| !IsSentinel(x) && !IsSentinel(y) && !ValuesAlike(f, g, x, y);
      var m, w := ValuesTellApart(f, g, x, y);
    }
  }

  /** The entries of a part of m are all found in w. */
  ghost predicate FoundPart(f: Keying, g: Keying, part: Ideal, m: Ideal, w: Ideal) {
    forall c {:trigger c in part} :: c in part ==> c in m && Found(f, g, m, w, c)
  }

  lemma NothingFound(f: Keying, g: Keying, m: Ideal, w: Ideal)
    ensures FoundPart(f, g, map[], m, w)
  {
  }

  /** What the comparison of one bucket finds out. */
  lemma FoundOne(f: Keying, g: Keying, part: Ideal, e: Entry, m: Ideal, w: Ideal)
    requires FoundPart(f, g, part, m, w)
    requires f.cls(e.key) in m && m[f.cls(e.key)] == e
    ensures Found(f, g, m, w, f.cls(e.key)) ==>
              FoundPart(f, g, part[f.cls(e.key) := e], m, w)
    ensures !Found(f, g, m, w, f.cls(e.key)) ==> !AllFound(f, g, m, w)
  {
  }

  lemma FoundStep(f: Keying, g: Keying, s: Slots, where: map<u64, nat>, i: nat, e: Entry, w: Ideal)
    requires Consistent(f, s, where) && i < |s.keys| == |s.values| == |s.counts|
    requires e == if Live(s.keys[i]) then EntryAt(f, s, i) else Entry(0, 0, 0)
    requires Live(s.keys[i]) ==> 0 < e.count
    requires FoundPart(f, g, Part(f, s, where, i), Model(f, s, where), w)
    ensures |Part(f, s, where, i + 1)| == |Part(f, s, where, i)| + (if 0 < e.count then 1 else 0)
    ensures var m, c := Model(f, s, where), f.cls(e.key);
            if 0 < e.count then
              && c in m && m[c] == e
              && (Found(f, g, m, w, c) ==> FoundPart(f, g, Part(f, s, where, i + 1), m, w))
              && (!Found(f, g, m, w, c) ==> !AllFound(f, g, m, w))
            else FoundPart(f, g, Part(f, s, where, i + 1), m, w)
  {
    hide Consistent, Model, Part, Found, AllFound, FoundPart;
    PartNext(f, s, where, i);
    if Live(s.keys[i]) {
      FoundOne(f, g, Part(f, s, where, i), e, Model(f, s, where), w);
    }
  }

  lemma FoundAll(f: Keying, g: Keying, s: Slots, where: map<u64, nat>, i: nat, w: Ideal)
    requires Consistent(f, s, where)
    requires |Part(f, s, where, i)| == |where| || i == |s.keys|
    requires FoundPart(f, g, Part(f, s, where, i), Model(f, s, where), w)
    ensures AllFound(f, g, Model(f, s, where), w)
  {
    hide Consistent, Model, Part;
    var m := Model(f, s, where);
    PartEnds(f, s, where);
    forall c | c in m
      ensures Found(f, g, m, w, c)
    {
      if i != |s.keys| {
        PartIsAll(f, s, where, i, c);
      }
    }
  }
}
