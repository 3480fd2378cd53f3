/** Index maps (CFBasicHash.c, lines 1413-1465): a table whose values number its keys stands for a sequence. */
module HashIndex {
  import opened Bytes
  import opened HashSlots
  import opened HashIdeal

  // ---- Renumbering the values in place ----

  datatype Shift = Up(v: u64) | Down(v: u64)

  /** What an insertion or a deletion at v leaves in place of w. The source's word wraps around when it goes up. */
  function Shifted(g: Shift, w: u64): u64 {
    match g
    case Up(v) => if v <= w then (w + 1) % TWO_64 else w
    case Down(v) => if v < w then w - 1 else w
  }

  ghost function RenumberedWord(w: u64, g: Shift): u64 {
    if Live(w) then Encode(Shifted(g, Decode(w))) else w
  }

  /** The first i buckets renumbered by g. */
  ghost function Renumbered(s: Slots, i: nat, g: Shift): (r: Slots)
    ensures |r.values| == |s.values| && r.keys == s.keys && r.counts == s.counts
  {
    var values := seq<u64>(|s.values|, p requires 0 <= p < |s.values| =>
                             if p < i then RenumberedWord(s.values[p], g) else s.values[p]);
    s.(values := values)
  }

  ghost function RenumberedModel(m: Ideal, g: Shift): Ideal {
    map c | c in m :: m[c].(value := Shifted(g, m[c].value))
  }

  /** What a table holds after renumbering: a sentinel is stored as it is and reads back as the word it stands for. */
  ghost function ReadBackModel(m: Ideal, g: Shift): Ideal {
    map c | c in m :: m[c].(value := Decode(Encode(Shifted(g, m[c].value))))
  }

  /** An entry keeps its key and count; a value below v stays, and one from v on goes up by one, unless that is a
      sentinel or wraps around. */
  predicate WentUp(e: Entry, e': Entry, v: u64) {
    && e'.key == e.key && e'.count == e.count
    && (e.value < v ==> e'.value == e.value)
    && (v <= e.value < TWO_64 - 1 && !IsSentinel(e.value + 1) ==> e'.value == e.value + 1)
  }

  /** A value up to v stays, and one above goes down by one, unless that is a sentinel. */
  predicate WentDown(e: Entry, e': Entry, v: u64) {
    && e'.key == e.key && e'.count == e.count
    && (e.value <= v ==> e'.value == e.value)
    && (v < e.value && !IsSentinel(e.value - 1) ==> e'.value == e.value - 1)
  }

  ghost predicate MakesRoom(m: Ideal, m': Ideal, v: u64) {
    forall c {:trigger m[c]} :: c in m ==> c in m' && WentUp(m[c], m'[c], v)
  }

  ghost predicate ClosesGap(m: Ideal, m': Ideal, v: u64, gone: u64) {
    gone !in m' && forall c {:trigger m[c]} :: c in m && c != gone ==> c in m' && WentDown(m[c], m'[c], v)
  }

  lemma EntryShifts(e: Entry, v: u64)
    requires !IsSentinel(e.value)
    ensures WentUp(e, e.(value := Decode(Encode(Shifted(Up(v), e.value)))), v)
    ensures WentDown(e, e.(value := Decode(Encode(Shifted(Down(v), e.value)))), v)
  {
    EncodeRoundTripsIff(Shifted(Up(v), e.value));
    EncodeRoundTripsIff(Shifted(Down(v), e.value));
  }

  lemma AddShifts(f: Keying, m: Ideal, v: u64, c: u64, e: Entry)
    requires Storable(f, m) && c !in m
    ensures MakesRoom(m, ReadBackModel(m, Up(v))[c := e], v)
    ensures ReadBackModel(m, Up(v))[c := e].Keys == m.Keys + {c}
  {
    hide WentUp, Decode, Encode, Shifted;
    forall d | d in m
      ensures WentUp(m[d], ReadBackModel(m, Up(v))[c := e][d], v)
    {
      assert Holdable(f, d, m[d]);
      EntryShifts(m[d], v);
    }
  }

  lemma RemoveShifts(f: Keying, m: Ideal, v: u64, gone: u64)
    requires Storable(f, m)
    ensures ClosesGap(m, ReadBackModel(m, Down(v)) - {gone}, v, gone)
    ensures (ReadBackModel(m, Down(v)) - {gone}).Keys == m.Keys - {gone}
  {
    hide WentDown, Decode, Encode, Shifted;
    forall d | d in m
      ensures WentDown(m[d], ReadBackModel(m, Down(v))[d], v)
    {
      assert Holdable(f, d, m[d]);
      EntryShifts(m[d], v);
    }
  }

  /** The values are shifted as they should exactly when none of them becomes a sentinel. */
  lemma RenumbersIff(m: Ideal, g: Shift)
    ensures ReadBackModel(m, g) == RenumberedModel(m, g)
       <==> forall c :: c in m ==> !IsSentinel(Shifted(g, m[c].value))
  {
    forall c | c in m
      ensures ReadBackModel(m, g)[c] == RenumberedModel(m, g)[c] <==> !IsSentinel(Shifted(g, m[c].value))
    {
      EncodeRoundTripsIff(Shifted(g, m[c].value));
    }
  }

  /** A value just below a sentinel: making room at 0 turns it into 0. */
  lemma SentinelReadsAsZero(m: Ideal, c: u64, key: u64)
    requires m == map[c := Entry(key, SUB_ZERO - 1, 1)]
    ensures ReadBackModel(m, Up(0)) == map[c := Entry(key, 0, 1)]
    ensures RenumberedModel(m, Up(0)) == map[c := Entry(key, SUB_ZERO, 1)]
  {
  }

  ghost predicate HasValue(m: Ideal, v: u64) {
    exists c :: c in m && m[c].value == v
  }

  /** No class in the first i buckets has value v. */
  ghost predicate NotAmong(m: Ideal, where: map<u64, nat>, i: nat, v: u64) {
    forall c {:trigger where[c]} :: c in where && where[c] < i && c in m ==> m[c].value != v
  }

  lemma AmongNext(f: Keying, s: Slots, where: map<u64, nat>, i: nat, v: u64)
    requires Consistent(f, s, where) && i < |s.keys| == |s.values| && NotAmong(Model(f, s, where), where, i, v)
    ensures (Live(s.values[i]) ==> Decode(s.values[i]) != v) ==> NotAmong(Model(f, s, where), where, i + 1, v)
  {
    hide Consistent, Model, Reachable;
    MatchedBucket(f, s, where, i);
    forall c | c in where && where[c] == i
      ensures Live(s.values[i]) && c in Model(f, s, where) && Model(f, s, where)[c].value == Decode(s.values[i])
    {
      PresentInModel(f, s, where, c);
    }
  }

  lemma AmongAll(f: Keying, s: Slots, where: map<u64, nat>, v: u64)
    requires Consistent(f, s, where) && HasValue(Model(f, s, where), v)
    ensures !NotAmong(Model(f, s, where), where, |s.keys|, v)
  {
    hide Consistent, Model, Reachable;
    var c :| c in Model(f, s, where) && Model(f, s, where)[c].value == v;
    PresentInModel(f, s, where, c);
  }

  lemma RenumberNone(s: Slots, g: Shift)
    ensures Renumbered(s, 0, g) == s
  {
  }

  lemma RenumberBucket(s: Slots, i: nat, g: Shift)
    requires i < |s.values|
    ensures Renumbered(s, i, g).values[i] == s.values[i]
    ensures Renumbered(s, i + 1, g).values
         == Renumbered(s, i, g).values[i := RenumberedWord(s.values[i], g)]
  {
  }

  /** Only values that change are stored: any other word already is what renumbering makes of it. */
  lemma UnchangedWord(w: u64, g: Shift)
    requires Live(w) && Shifted(g, Decode(w)) == Decode(w)
    ensures RenumberedWord(w, g) == w
  {
  }

  lemma FreeForSameKeys(f: Keying, s: Slots, s': Slots, c: u64, i: nat)
    requires s.keys == s'.keys && FreeFor(f, s, c, i)
    ensures FreeFor(f, s', c, i)
  {
  }

  lemma RenumberIsConsistent(f: Keying, s: Slots, where: map<u64, nat>, g: Shift)
    requires Consistent(f, s, where) && f.hasKeys
    ensures Consistent(f, Renumbered(s, |s.keys|, g), where)
  {
    hide Path, First, Model;
    var s' := Renumbered(s, |s.keys|, g);
    forall j: nat | j < |s'.keys|
      ensures Matched(f, s', j)
    {
      assert Matched(f, s, j);
    }
    forall j: nat | j < |s'.keys| && Live(s'.keys[j])
      ensures Located(f, s', where, j)
    {
      assert Located(f, s, where, j);
    }
    forall c | c in where
      ensures Reachable(f, s', where, c)
    {
      assert Reachable(f, s, where, c);
    }
  }

  lemma RenumberedEntry(f: Keying, s: Slots, g: Shift, i: nat)
    requires i < |s.keys| == |s.values| == |s.counts| && Live(s.values[i])
    ensures var e := EntryAt(f, s, i);
            EntryAt(f, Renumbered(s, |s.keys|, g), i) == e.(value := Decode(Encode(Shifted(g, e.value))))
  {
  }

  lemma ReadBackAt(m: Ideal, g: Shift, c: u64)
    ensures ReadBackModel(m, g).Keys == m.Keys
    ensures c in m ==> ReadBackModel(m, g)[c] == m[c].(value := Decode(Encode(Shifted(g, m[c].value))))
  {
  }

  lemma RenumberKeeps(f: Keying, s: Slots, where: map<u64, nat>, g: Shift)
    requires Consistent(f, s, where) && f.hasKeys
    ensures var s' := Renumbered(s, |s.keys|, g);
            Consistent(f, s', where) && Model(f, s', where) == ReadBackModel(Model(f, s, where), g)
  {
    RenumberIsConsistent(f, s, where, g);
    hide Consistent, Reachable, Model, Renumbered, EntryAt, Encode, Decode, Shifted, KeyClass, ReadBackModel;
    var s' := Renumbered(s, |s.keys|, g);
    var m := Model(f, s, where);
    KeysOfModel(f, s, where);
    KeysOfModel(f, s', where);
    ReadBackAt(m, g, 0);
    forall c | c in where
      ensures Model(f, s', where)[c] == ReadBackModel(m, g)[c]
    {
      PresentInModel(f, s, where, c);
      PresentInModel(f, s', where, c);
      MatchedBucket(f, s, where, where[c]);
      RenumberedEntry(f, s, g, where[c]);
      ReadBackAt(m, g, c);
    }
  }

  // ---- Sequences ----

  /** Entry i of the sequence is numbered i, and every class of the map is in the sequence. */
  ghost predicate IsIndexMap(f: Keying, m: Ideal, s: seq<u64>) {
    && (forall i: nat {:trigger Numbered(f, m, s, i)} :: i < |s| ==> Numbered(f, m, s, i))
    && (forall c {:trigger Listed(f, m, s, c)} :: c in m ==> Listed(f, m, s, c))
  }

  ghost predicate Numbered(f: Keying, m: Ideal, s: seq<u64>, i: nat)
    requires i < |s|
  {
    i < TWO_64 && f.cls(s[i]) in m && m[f.cls(s[i])] == Entry(s[i], i, 1)
  }

  ghost predicate Listed(f: Keying, m: Ideal, s: seq<u64>, c: u64)
    requires c in m
  {
    m[c].value < |s| && f.cls(s[m[c].value]) == c
  }

  /** Adding an absent class at v inserts its key at position v. */
  lemma InsertIndex(f: Keying, m: Ideal, s: seq<u64>, key: u64, v: u64)
    requires IsIndexMap(f, m, s) && f.cls(key) !in m && v <= |s| && |s| + 1 < TWO_64
    ensures IsIndexMap(f, RenumberedModel(m, Up(v))[f.cls(key) := Entry(key, v, 1)], s[..v] + [key] + s[v..])
  {
    var c := f.cls(key);
    var m' := RenumberedModel(m, Up(v))[c := Entry(key, v, 1)];
    var s' := s[..v] + [key] + s[v..];
    forall i: nat | i < |s'|
      ensures Numbered(f, m', s', i)
    {
      if i < v {
        assert Numbered(f, m, s, i);
      } else if i > v {
        assert s'[i] == s[i - 1];
        assert Numbered(f, m, s, i - 1);
      }
    }
    forall d | d in m'
      ensures Listed(f, m', s', d)
    {
      if d != c {
        assert Listed(f, m, s, d);
        assert s'[Shifted(Up(v), m[d].value)] == s[m[d].value];
      }
    }
  }

  /** Removing the class numbered v deletes position v. */
  lemma DeleteIndex(f: Keying, m: Ideal, s: seq<u64>, v: u64)
    requires IsIndexMap(f, m, s) && v < |s|
    ensures IsIndexMap(f, RenumberedModel(m, Down(v)) - {f.cls(s[v])}, s[..v] + s[v + 1..])
  {
    var c := f.cls(s[v]);
    var m' := RenumberedModel(m, Down(v)) - {c};
    var s' := s[..v] + s[v + 1..];
    assert Numbered(f, m, s, v);
    forall i: nat | i < |s'|
      ensures Numbered(f, m', s', i)
    {
      var was := if i < v then i else i + 1;
      assert s'[i] == s[was];
      assert Numbered(f, m, s, was);
    }
    forall d | d in m'
      ensures Listed(f, m', s', d)
    {
      assert Listed(f, m, s, d);
      var was := m[d].value;
      assert s'[Shifted(Down(v), was)] == s[was];
    }
  }

  /** Position v of the sequence is the only class numbered v. */
  lemma NumberedOnce(f: Keying, m: Ideal, s: seq<u64>, v: u64, c: u64)
    requires IsIndexMap(f, m, s) && v < |s|
    ensures f.cls(s[v]) in m && m[f.cls(s[v])] == Entry(s[v], v, 1)
    ensures c in m ==> m[c].value < |s| && (m[c].value == v <==> c == f.cls(s[v]))
  {
    assert Numbered(f, m, s, v);
    if c in m {
      assert Listed(f, m, s, c);
    }
  }

  // ---- Runs ----

  datatype IndexOp = Insert(key: u64, at: u64) | Delete(at: u64)

  predicate IsListed(f: Keying, s: seq<u64>, c: u64) {
    exists k :: k in s && f.cls(k) == c
  }

  /** What each operation does to the sequence: a key equal to one already there is not inserted. */
  function IndexStep(f: Keying, s: seq<u64>, op: IndexOp): seq<u64>
    requires op.at <= |s| && (op.Delete? ==> op.at < |s|)
  {
    match op
    case Insert(key, at) => if IsListed(f, s, f.cls(key)) then s else s[..at] + [key] + s[at..]
    case Delete(at) => s[..at] + s[at + 1..]
  }

  /** Every position an operation names is in the sequence it is applied to, and positions stay below the sentinels. */
  predicate LegalRun(f: Keying, s: seq<u64>, ops: seq<IndexOp>)
    decreases |ops|
  {
    ops == [] || (LegalStep(s, ops[0]) && LegalRun(f, IndexStep(f, s, ops[0]), ops[1..]))
  }

  predicate LegalStep(s: seq<u64>, op: IndexOp) {
    && op.at <= |s| < SUB_ONE
    && (op.Insert? ==> !IsSentinel(op.key) && |s| + 1 < SUB_ONE)
    && (op.Delete? ==> op.at < |s|)
  }

  function IndexRun(f: Keying, s: seq<u64>, ops: seq<IndexOp>): seq<u64>
    requires LegalRun(f, s, ops)
    decreases |ops|
  {
    if ops == [] then s else IndexRun(f, IndexStep(f, s, ops[0]), ops[1..])
  }

  /** A legal run is legal as far as any of its operations, and goes on with that. */
  lemma {:induction false} PrefixIsLegal(f: Keying, s: seq<u64>, ops: seq<IndexOp>, k: nat)
    requires LegalRun(f, s, ops) && k < |ops|
    ensures LegalRun(f, s, ops[..k]) && LegalStep(IndexRun(f, s, ops[..k]), ops[k])
    ensures LegalRun(f, s, ops[..k + 1])
    ensures IndexRun(f, s, ops[..k + 1]) == IndexStep(f, IndexRun(f, s, ops[..k]), ops[k])
    decreases k
  {
    hide IndexStep;
    var s' := IndexStep(f, s, ops[0]);
    assert ops[..k + 1][1..] == ops[1..][..k];
    if k == 0 {
      assert ops[..1][1..] == [] && ops[..0] == [];
    } else {
      PrefixIsLegal(f, s', ops[1..], k - 1);
      assert ops[..k][1..] == ops[1..][..k - 1] && ops[1..][k - 1] == ops[k];
    }
  }

  lemma ListedIffPresent(f: Keying, m: Ideal, s: seq<u64>, c: u64)
    requires IsIndexMap(f, m, s)
    ensures IsListed(f, s, c) <==> c in m
  {
    if k :| k in s && f.cls(k) == c {
      var i :| 0 <= i < |s| && s[i] == k;
      assert Numbered(f, m, s, i);
    }
    if c in m {
      assert Listed(f, m, s, c);
      assert s[m[c].value] in s;
    }
  }

  /** Numbers below the sentinels stay below them. */
  lemma NumbersAreNoSentinels(f: Keying, m: Ideal, s: seq<u64>, g: Shift, c: u64)
    requires IsIndexMap(f, m, s) && |s| < SUB_ONE
    ensures c in m ==> !IsSentinel(Shifted(g, m[c].value))
  {
    if c in m {
      assert Listed(f, m, s, c);
    }
  }

  lemma StartIndex(f: Keying)
    ensures IsIndexMap(f, map[], []) && LegalRun(f, [], []) && IndexRun(f, [], []) == []
  {
  }

  lemma OnlyListed(f: Keying, m: Ideal, s: seq<u64>, c: u64)
    requires IsIndexMap(f, m, s)
    ensures c in m ==> |s| > 0
  {
    if c in m {
      assert Listed(f, m, s, c);
    }
  }

  /** An index map has as many classes as its sequence has entries. */
  lemma {:induction false} SizeOfIndex(f: Keying, m: Ideal, s: seq<u64>)
    requires IsIndexMap(f, m, s)
    ensures |m| == |s|
    decreases |s|
  {
    if s == [] {
      forall c
        ensures c !in m
      {
        OnlyListed(f, m, s, c);
      }
      assert m == map[];
    } else {
      var v := |s| - 1;
      assert Numbered(f, m, s, v);
      var m' := m - {f.cls(s[v])};
      forall i: nat | i < v
        ensures Numbered(f, m', s[..v], i)
      {
        assert Numbered(f, m, s, i);
      }
      forall c | c in m'
        ensures Listed(f, m', s[..v], c)
      {
        assert Listed(f, m, s, c);
      }
      SizeOfIndex(f, m', s[..v]);
      assert |m'| == |m| - 1;
    }
  }
}
