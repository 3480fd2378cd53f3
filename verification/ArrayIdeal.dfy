/** What the mutable array's operations mean for a sequence, and for the reference counts of its values. */
module ArrayIdeal {
  import opened Bytes
  import opened Ordering

  /** The retain and release callbacks. Without a retain callback values are stored as they are. */
  datatype Callbacks = Callbacks(hasRetain: bool, retain: u64 -> u64, hasRelease: bool)

  /** A call of a callback, with the stored value. */
  datatype Event = Retain(value: u64) | Release(value: u64)

  /** What is stored for new values. */
  function Stored(cb: Callbacks, values: seq<u64>): (r: seq<u64>)
    ensures |r| == |values|
  {
    if cb.hasRetain then seq<u64>(|values|, i requires 0 <= i < |values| => cb.retain(values[i])) else values
  }

  lemma StoredNext(cb: Callbacks, values: seq<u64>, i: nat)
    requires i < |values| && cb.hasRetain
    ensures Stored(cb, values[..i + 1]) == Stored(cb, values[..i]) + [cb.retain(values[i])]
  {
  }

  function Retains(cb: Callbacks, stored: seq<u64>): (log: seq<Event>) {
    if cb.hasRetain then seq<Event>(|stored|, i requires 0 <= i < |stored| => Retain(stored[i])) else []
  }

  function Releases(cb: Callbacks, stored: seq<u64>): (log: seq<Event>) {
    if cb.hasRelease then seq<Event>(|stored|, i requires 0 <= i < |stored| => Release(stored[i])) else []
  }

  lemma ReleasesNothing(cb: Callbacks)
    ensures Releases(cb, []) == []
  {
  }

  lemma ReleasesNext(cb: Callbacks, b: seq<u64>, at: nat, i: nat)
    requires at + i < |b|
    ensures Releases(cb, b[at..at + i + 1])
         == Releases(cb, b[at..at + i]) + (if cb.hasRelease then [Release(b[at + i])] else [])
  {
  }

  /** The sequence an array stands for after a replacement. */
  function Spliced(s: seq<u64>, loc: nat, len: nat, new_: seq<u64>): seq<u64>
    requires loc + len <= |s|
  {
    s[..loc] + new_ + s[loc + len..]
  }

  // ---- Runs ----

  datatype Op =
    | Replace(loc: nat, len: nat, values: seq<u64>)
    | Set(idx: nat, value: u64)
    | Insert(idx: nat, value: u64)
    | Append(value: u64)
    | Remove(idx: nat)
    | Exchange(idx: nat, other: nat)
    | RemoveAll

  /** The range checks every entry point asserts. */
  predicate InRange(s: seq<u64>, op: Op) {
    match op
    case Replace(loc, len, _) => loc + len <= |s|
    case Set(idx, _) => idx <= |s|
    case Insert(idx, _) => idx <= |s|
    case Append(_) => true
    case Remove(idx) => idx < |s|
    case Exchange(idx, other) => idx < |s| && other < |s|
    case RemoveAll => true
  }

  /** Every operation but the exchange is a replacement: this is the range and the new values. */
  function AsReplace(s: seq<u64>, op: Op): (r: (nat, nat, seq<u64>))
    requires InRange(s, op)
    ensures r.0 + r.1 <= |s|
  {
    match op
    case Replace(loc, len, values) => (loc, len, values)
    case Set(idx, value) => (idx, if idx == |s| then 0 else 1, [value])
    case Insert(idx, value) => (idx, 0, [value])
    case Append(value) => (|s|, 0, [value])
    case Remove(idx) => (idx, 1, [])
    case Exchange(_, _) => (0, 0, [])
    case RemoveAll => (0, |s|, [])
  }

  function Step(cb: Callbacks, s: seq<u64>, op: Op): seq<u64>
    requires InRange(s, op)
  {
    if op.Exchange? then Exchanged(s, op.idx, op.other)
    else
      var (loc, len, values) := AsReplace(s, op);
      Spliced(s, loc, len, Stored(cb, values))
  }

  /** The callbacks an operation calls: new values are retained before old ones are released. */
  function StepLog(cb: Callbacks, s: seq<u64>, op: Op): seq<Event>
    requires InRange(s, op)
  {
    var (loc, len, values) := AsReplace(s, op);
    Retains(cb, Stored(cb, values)) + Releases(cb, s[loc..loc + len])
  }

  lemma StepIsReplace(cb: Callbacks, log: seq<Event>, s: seq<u64>, op: Op, loc: nat, len: nat, values: seq<u64>)
    requires InRange(s, op) && !op.Exchange? && AsReplace(s, op) == (loc, len, values)
    ensures loc + len <= |s| && Step(cb, s, op) == Spliced(s, loc, len, Stored(cb, values))
    ensures log + StepLog(cb, s, op) == log + Retains(cb, Stored(cb, values)) + Releases(cb, s[loc..loc + len])
  {
  }

  /** What is stored for one new value. */
  function Kept(cb: Callbacks, value: u64): u64 {
    if cb.hasRetain then cb.retain(value) else value
  }

  /** The call for one new value, if there is a retain callback. */
  function RetainOne(cb: Callbacks, value: u64): seq<Event> {
    if cb.hasRetain then [Retain(cb.retain(value))] else []
  }

  function ReleaseOne(cb: Callbacks, stored: u64): seq<Event> {
    if cb.hasRelease then [Release(stored)] else []
  }

  lemma NothingStored(cb: Callbacks)
    ensures Stored(cb, []) == [] && Retains(cb, []) == [] && Releases(cb, []) == []
  {
  }

  lemma OneStored(cb: Callbacks, value: u64)
    ensures Stored(cb, [value]) == [Kept(cb, value)] && Retains(cb, [Kept(cb, value)]) == RetainOne(cb, value)
  {
  }

  lemma OneReleased(cb: Callbacks, s: seq<u64>, idx: nat)
    requires idx < |s|
    ensures s[idx..idx + 1] == [s[idx]] && Releases(cb, [s[idx]]) == ReleaseOne(cb, s[idx])
  {
  }

  /** An insertion puts the value at its index, everything from there on one place further; it is retained. */
  lemma InsertMeans(cb: Callbacks, s: seq<u64>, idx: nat, value: u64)
    requires idx <= |s|
    ensures Step(cb, s, Insert(idx, value)) == s[..idx] + [Kept(cb, value)] + s[idx..]
    ensures StepLog(cb, s, Insert(idx, value)) == RetainOne(cb, value)
  {
    hide Stored, Retains, Releases, Kept, RetainOne;
    NothingStored(cb);
    OneStored(cb, value);
    assert s[idx..idx + 0] == [];
  }

  lemma AppendMeans(cb: Callbacks, s: seq<u64>, value: u64)
    ensures Step(cb, s, Append(value)) == s + [Kept(cb, value)]
    ensures StepLog(cb, s, Append(value)) == RetainOne(cb, value)
  {
    hide Stored, Retains, Releases, Kept, RetainOne;
    NothingStored(cb);
    OneStored(cb, value);
    assert s[..|s|] == s && s[|s|..|s| + 0] == [] == s[|s| + 0..];
  }

  /** A removal takes out the value at its index, which is released. */
  lemma RemoveMeans(cb: Callbacks, s: seq<u64>, idx: nat)
    requires idx < |s|
    ensures Step(cb, s, Remove(idx)) == s[..idx] + s[idx + 1..]
    ensures StepLog(cb, s, Remove(idx)) == ReleaseOne(cb, s[idx])
  {
    hide Stored, Retains, Releases, ReleaseOne;
    NothingStored(cb);
    OneReleased(cb, s, idx);
    assert s[..idx] + [] == s[..idx];
  }

  /** Setting puts the value in place of another, and is an append at the end. */
  lemma SetMeans(cb: Callbacks, s: seq<u64>, idx: nat, value: u64)
    requires idx <= |s|
    ensures Step(cb, s, Set(idx, value)) == if idx == |s| then s + [Kept(cb, value)] else s[idx := Kept(cb, value)]
    ensures StepLog(cb, s, Set(idx, value))
         == RetainOne(cb, value) + if idx == |s| then [] else ReleaseOne(cb, s[idx])
  {
    hide Stored, Retains, Releases, Kept, RetainOne, ReleaseOne;
    NothingStored(cb);
    OneStored(cb, value);
    if idx < |s| {
      OneReleased(cb, s, idx);
      assert s[..idx] + [Kept(cb, value)] + s[idx + 1..] == s[idx := Kept(cb, value)];
    } else {
      assert s[..idx] == s && s[idx..idx + 0] == [] == s[idx + 0..];
    }
  }

  lemma ExchangeMeans(cb: Callbacks, s: seq<u64>, idx: nat, other: nat)
    requires idx < |s| && other < |s|
    ensures Step(cb, s, Exchange(idx, other)) == s[idx := s[other]][other := s[idx]]
    ensures StepLog(cb, s, Exchange(idx, other)) == []
  {
  }

  /** Place by place: what was before the range, the new values, and what was after the range. */
  ghost predicate IsReplaced(cb: Callbacks, s: seq<u64>, r: seq<u64>, loc: nat, len: nat, values: seq<u64>) {
    && loc + len <= |s| && |r| == |s| - len + |values|
    && (forall i: nat :: i < loc ==> r[i] == s[i])
    && (forall i: nat {:trigger values[i]} :: i < |values| ==> r[loc + i] == Kept(cb, values[i]))
    && (forall i: nat :: loc + len <= i < |s| ==> r[i - len + |values|] == s[i])
  }

  /** The new values are retained in order, then the old ones released in order. */
  ghost predicate CallsAre(cb: Callbacks, calls: seq<Event>, values: seq<u64>, gone: seq<u64>) {
    var n := if cb.hasRetain then |values| else 0;
    && |calls| == n + (if cb.hasRelease then |gone| else 0)
    && (forall i: nat {:trigger values[i]} :: i < n ==> calls[i] == Retain(cb.retain(values[i])))
    && (forall i: nat {:trigger gone[i]} :: i < |calls| - n ==> calls[n + i] == Release(gone[i]))
  }

  lemma ReplaceMeans(cb: Callbacks, s: seq<u64>, loc: nat, len: nat, values: seq<u64>)
    requires loc + len <= |s|
    ensures IsReplaced(cb, s, Spliced(s, loc, len, Stored(cb, values)), loc, len, values)
    ensures CallsAre(cb, Retains(cb, Stored(cb, values)) + Releases(cb, s[loc..loc + len]), values, s[loc..loc + len])
  {
    hide Retains, Releases, CallsAre;
    CallsOfReplace(cb, values, s[loc..loc + len]);
  }

  lemma CallsOfReplace(cb: Callbacks, values: seq<u64>, gone: seq<u64>)
    ensures CallsAre(cb, Retains(cb, Stored(cb, values)) + Releases(cb, gone), values, gone)
  {
  }

  lemma SplicedMeans(cb: Callbacks, log0: seq<Event>, log: seq<Event>,
                     s: seq<u64>, loc: nat, len: nat, values: seq<u64>)
    requires loc + len <= |s|
    requires log == log0 + Retains(cb, Stored(cb, values)) + Releases(cb, s[loc..loc + len])
    ensures IsReplaced(cb, s, Spliced(s, loc, len, Stored(cb, values)), loc, len, values)
    ensures log0 <= log && CallsAre(cb, log[|log0|..], values, s[loc..loc + len])
  {
    hide Retains, Releases, Stored, Spliced, IsReplaced, CallsAre;
    ReplaceMeans(cb, s, loc, len, values);
    assert log[|log0|..] == Retains(cb, Stored(cb, values)) + Releases(cb, s[loc..loc + len]);
  }

  /** All values go, released in order. */
  lemma RemoveAllMeans(cb: Callbacks, s: seq<u64>)
    ensures Step(cb, s, RemoveAll) == [] && CallsAre(cb, StepLog(cb, s, RemoveAll), [], s)
  {
    assert s[0..|s|] == s;
  }

  lemma SetIsReplace(cb: Callbacks, s: seq<u64>, idx: nat, value: u64)
    requires idx < |s|
    ensures var v := if cb.hasRetain then cb.retain(value) else value;
            && Step(cb, s, Set(idx, value)) == s[idx := v]
            && StepLog(cb, s, Set(idx, value))
               == (if cb.hasRetain then [Retain(v)] else []) + (if cb.hasRelease then [Release(s[idx])] else [])
  {
    SetMeans(cb, s, idx, value);
  }

  lemma AppendNothing(cb: Callbacks, s: seq<u64>, o: seq<u64>, loc: nat)
    requires loc <= |o|
    ensures s == s + Stored(cb, o[loc..loc]) && Retains(cb, Stored(cb, o[loc..loc])) == []
  {
    hide Stored, Retains;
    NothingStored(cb);
    assert o[loc..loc] == [];
  }

  lemma AppendNext(cb: Callbacks, s: seq<u64>, o: seq<u64>, loc: nat, idx: nat)
    requires loc <= idx < |o|
    ensures var before := s + Stored(cb, o[loc..idx]);
            && Step(cb, before, Append(o[idx])) == s + Stored(cb, o[loc..idx + 1])
            && Retains(cb, Stored(cb, o[loc..idx])) + StepLog(cb, before, Append(o[idx]))
               == Retains(cb, Stored(cb, o[loc..idx + 1]))
  {
    hide Step, StepLog, Stored, Retains, Kept, RetainOne;
    var xs := o[loc..idx];
    assert o[loc..idx + 1] == xs + [o[idx]];
    OneMoreStored(cb, xs, o[idx]);
    AppendMeans(cb, s + Stored(cb, xs), o[idx]);
    assert s + Stored(cb, xs) + [Kept(cb, o[idx])] == s + (Stored(cb, xs) + [Kept(cb, o[idx])]);
  }

  lemma OneMoreStored(cb: Callbacks, xs: seq<u64>, x: u64)
    ensures Stored(cb, xs + [x]) == Stored(cb, xs) + [Kept(cb, x)]
    ensures Retains(cb, Stored(cb, xs + [x])) == Retains(cb, Stored(cb, xs)) + RetainOne(cb, x)
  {
  }

  lemma RemoveAllIsEmpty(cb: Callbacks, s: seq<u64>)
    ensures Step(cb, s, RemoveAll) == []
    ensures StepLog(cb, s, RemoveAll) == Releases(cb, s[0..|s|])
  {
    hide Releases, Stored, Retains;
    NothingStored(cb);
  }

  // ---- Reference counts ----

  /** Retains less releases of one value. */
  function Net(log: seq<Event>, v: u64): int {
    if log == [] then 0
    else
      Net(log[..|log| - 1], v)
      + (match log[|log| - 1]
         case Retain(w) => if w == v then 1 else 0
         case Release(w) => if w == v then -1 else 0)
  }

  lemma {:induction false} NetOfConcat(a: seq<Event>, b: seq<Event>, v: u64)
    ensures Net(a + b, v) == Net(a, v) + Net(b, v)
    decreases |b|
  {
    if b == [] {
      assert a + b == a;
    } else {
      assert (a + b)[..|a + b| - 1] == a + b[..|b| - 1];
      NetOfConcat(a, b[..|b| - 1], v);
    }
  }

  lemma {:induction false} NetOfRetains(cb: Callbacks, s: seq<u64>, v: u64)
    requires cb.hasRetain
    ensures Net(Retains(cb, s), v) == multiset(s)[v]
    decreases |s|
  {
    if s == [] {
      assert Retains(cb, s) == [];
    } else {
      var before := s[..|s| - 1];
      NetOfRetains(cb, before, v);
      assert Retains(cb, s)[..|s| - 1] == Retains(cb, before);
      assert s == before + [s[|s| - 1]];
    }
  }

  lemma {:induction false} NetOfReleases(cb: Callbacks, s: seq<u64>, v: u64)
    requires cb.hasRelease
    ensures Net(Releases(cb, s), v) == -(multiset(s)[v] as int)
    decreases |s|
  {
    if s == [] {
      assert Releases(cb, s) == [];
    } else {
      var before := s[..|s| - 1];
      NetOfReleases(cb, before, v);
      assert Releases(cb, s)[..|s| - 1] == Releases(cb, before);
      assert s == before + [s[|s| - 1]];
    }
  }

  /** Each value is retained, on balance, once for each of its places in the array. */
  ghost predicate Balanced(log: seq<Event>, s: seq<u64>) {
    forall v :: Net(log, v) == multiset(s)[v]
  }

  /** At no moment from length n of the log on has v been retained fewer than least times on balance. */
  ghost predicate NeverBelow(log: seq<Event>, n: nat, v: u64, least: int) {
    forall k: nat {:trigger log[..k]} :: n <= k <= |log| ==> Net(log[..k], v) >= least
  }

  lemma SplicedCounts(s: seq<u64>, loc: nat, len: nat, new_: seq<u64>, v: u64)
    requires loc + len <= |s|
    ensures multiset(Spliced(s, loc, len, new_))[v] + multiset(s[loc..loc + len])[v]
         == multiset(s)[v] + multiset(new_)[v]
  {
    assert s == s[..loc] + s[loc..loc + len] + s[loc + len..];
  }

  lemma SpliceNet(cb: Callbacks, log: seq<Event>, s: seq<u64>, loc: nat, len: nat, new_: seq<u64>, v: u64)
    requires cb.hasRetain && cb.hasRelease && loc + len <= |s| && Net(log, v) == multiset(s)[v]
    ensures Net(log + (Retains(cb, new_) + Releases(cb, s[loc..loc + len])), v)
         == multiset(Spliced(s, loc, len, new_))[v]
  {
    hide Retains, Releases, Net, Spliced;
    var gone := s[loc..loc + len];
    NetOfConcat(log, Retains(cb, new_) + Releases(cb, gone), v);
    NetOfConcat(Retains(cb, new_), Releases(cb, gone), v);
    NetOfRetains(cb, new_, v);
    NetOfReleases(cb, gone, v);
    SplicedCounts(s, loc, len, new_, v);
  }

  /** With both callbacks, every operation leaves each value retained once for each of its places. */
  lemma StepBalance(cb: Callbacks, log: seq<Event>, s: seq<u64>, op: Op)
    requires cb.hasRetain && cb.hasRelease && Balanced(log, s) && InRange(s, op)
    ensures Balanced(log + StepLog(cb, s, op), Step(cb, s, op))
  {
    hide Retains, Releases, Net, Spliced, Exchanged, Stored, AsReplace;
    var (loc, len, values) := AsReplace(s, op);
    forall v
      ensures Net(log + StepLog(cb, s, op), v) == multiset(Step(cb, s, op))[v]
    {
      if op.Exchange? {
        ExchangedCounts(s, op.idx, op.other);
        NoLog(cb, s, op);
        assert log + StepLog(cb, s, op) == log;
      } else {
        SpliceNet(cb, log, s, loc, len, Stored(cb, values), v);
      }
    }
  }

  /** An exchange calls no callback. */
  lemma NoLog(cb: Callbacks, s: seq<u64>, op: Op)
    requires InRange(s, op) && op.Exchange?
    ensures StepLog(cb, s, op) == []
  {
  }

  /** Releases only go down, so on the way there the balance never was below where it ends. */
  lemma {:induction false} ReleasesGoDown(cb: Callbacks, log: seq<Event>, s: seq<u64>, v: u64, k: nat)
    requires |log| <= k <= |log + Releases(cb, s)|
    ensures Net((log + Releases(cb, s))[..k], v) >= Net(log + Releases(cb, s), v)
    decreases |log + Releases(cb, s)| - k
  {
    var all := log + Releases(cb, s);
    if k < |all| {
      ReleasesGoDown(cb, log, s, v, k + 1);
      assert all[..k + 1][..k] == all[..k];
      assert all[k].Release?;
    } else {
      assert all[..k] == all;
    }
  }

  /** Retains only go up. */
  lemma {:induction false} RetainsGoUp(cb: Callbacks, log: seq<Event>, s: seq<u64>, v: u64, k: nat)
    requires |log| <= k <= |log + Retains(cb, s)|
    ensures Net((log + Retains(cb, s))[..k], v) >= Net(log, v)
    decreases k
  {
    var all := log + Retains(cb, s);
    if |log| < k {
      RetainsGoUp(cb, log, s, v, k - 1);
      assert all[..k][..k - 1] == all[..k - 1];
      assert all[k - 1].Retain?;
    } else {
      assert all[..k] == log;
    }
  }

  /** A value that is both replaced and put back is never released to below what it keeps: during an operation the
      balance of a value stays at or above the smaller of its balances before and after. */
  lemma StepNeverDips(cb: Callbacks, log: seq<Event>, s: seq<u64>, op: Op, v: u64)
    requires InRange(s, op)
    ensures var after := log + StepLog(cb, s, op);
            NeverBelow(after, |log|, v, if Net(log, v) < Net(after, v) then Net(log, v) else Net(after, v))
  {
    hide Retains, Releases, Net, Stored;
    var (loc, len, values) := AsReplace(s, op);
    var new_, gone := Stored(cb, values), s[loc..loc + len];
    var mid := log + Retains(cb, new_);
    var after := log + StepLog(cb, s, op);
    assert after == mid + Releases(cb, gone);
    forall k: nat | |log| <= k <= |after|
      ensures Net(after[..k], v) >= Net(log, v) || Net(after[..k], v) >= Net(after, v)
    {
      if k <= |mid| {
        assert after[..k] == mid[..k];
        RetainsGoUp(cb, log, new_, v, k);
      } else {
        ReleasesGoDown(cb, mid, gone, v, k);
      }
    }
  }

  /** Every operation names places that exist, and the array stays within max items. */
  predicate LegalRun(cb: Callbacks, s: seq<u64>, ops: seq<Op>, max: nat)
    decreases |ops|
  {
    |s| <= max &&
    (ops == [] || (InRange(s, ops[0]) && LegalRun(cb, Step(cb, s, ops[0]), ops[1..], max)))
  }

  function RunOf(cb: Callbacks, s: seq<u64>, ops: seq<Op>, max: nat): seq<u64>
    requires LegalRun(cb, s, ops, max)
    decreases |ops|
  {
    if ops == [] then s else RunOf(cb, Step(cb, s, ops[0]), ops[1..], max)
  }

  function RunLog(cb: Callbacks, s: seq<u64>, ops: seq<Op>, max: nat): seq<Event>
    requires LegalRun(cb, s, ops, max)
    decreases |ops|
  {
    if ops == [] then []
    else StepLog(cb, s, ops[0]) + RunLog(cb, Step(cb, s, ops[0]), ops[1..], max)
  }

  /** No value has ever been released more often than retained. */
  ghost predicate NeverNegative(log: seq<Event>) {
    forall v {:trigger NeverBelow(log, 0, v, 0)} :: NeverBelow(log, 0, v, 0)
  }

  lemma StepNeverNegative(cb: Callbacks, log: seq<Event>, s: seq<u64>, op: Op)
    requires cb.hasRetain && cb.hasRelease && Balanced(log, s) && NeverNegative(log) && InRange(s, op)
    ensures NeverNegative(log + StepLog(cb, s, op))
  {
    hide StepLog, Step, Net;
    var after := log + StepLog(cb, s, op);
    StepBalance(cb, log, s, op);
    forall v
      ensures NeverBelow(after, 0, v, 0)
    {
      assert NeverBelow(log, 0, v, 0);
      StepNeverDips(cb, log, s, op, v);
      forall k: nat | k <= |after|
        ensures Net(after[..k], v) >= 0
      {
        if k <= |log| {
          assert after[..k] == log[..k];
        }
      }
    }
  }

  /** With both callbacks, over any run on an empty array each value is retained on balance once for each of its
      places, and at no moment has it been released more often than retained. */
  lemma {:induction false} RunBalance(cb: Callbacks, log: seq<Event>, s: seq<u64>, ops: seq<Op>, max: nat)
    requires cb.hasRetain && cb.hasRelease && Balanced(log, s) && NeverNegative(log) && LegalRun(cb, s, ops, max)
    ensures Balanced(log + RunLog(cb, s, ops, max), RunOf(cb, s, ops, max))
    ensures NeverNegative(log + RunLog(cb, s, ops, max))
    decreases |ops|
  {
    hide Balanced, NeverNegative, Step, StepLog;
    if ops == [] {
      assert log + RunLog(cb, s, ops, max) == log;
    } else {
      StepBalance(cb, log, s, ops[0]);
      StepNeverNegative(cb, log, s, ops[0]);
      RunBalance(cb, log + StepLog(cb, s, ops[0]), Step(cb, s, ops[0]), ops[1..], max);
      var rest := RunLog(cb, Step(cb, s, ops[0]), ops[1..], max);
      assert log + (StepLog(cb, s, ops[0]) + rest) == log + StepLog(cb, s, ops[0]) + rest;
    }
  }

  lemma StartBalance()
    ensures Balanced([], []) && NeverNegative([])
  {
  }

  // ---- Sorting by exchanges ----

  /** t is s but for a permutation of the range. */
  ghost predicate SamePlaces(s: seq<u64>, t: seq<u64>, loc: nat, len: nat) {
    && |s| == |t| && loc + len <= |s| && s[..loc] == t[..loc] && s[loc + len..] == t[loc + len..]
    && multiset(s[loc..loc + len]) == multiset(t[loc..loc + len])
  }

  lemma SamePlacesExchange(s: seq<u64>, t: seq<u64>, loc: nat, len: nat, i: nat, j: nat)
    requires SamePlaces(s, t, loc, len) && loc <= i < loc + len && loc <= j < loc + len
    ensures SamePlaces(s, Exchanged(t, i, j), loc, len)
  {
    assert Exchanged(t, i, j)[loc..loc + len] == Exchanged(t[loc..loc + len], i - loc, j - loc);
    ExchangedCounts(t[loc..loc + len], i - loc, j - loc);
  }

  /** From place cnt of the range on, nothing is less than what comes before it in the range. */
  ghost predicate SortedFrom(cmp: (u64, u64) -> int, t: seq<u64>, loc: nat, len: nat, cnt: nat) {
    loc + len <= |t| && forall k: nat, i: nat :: loc <= k <= i && loc + cnt <= i < loc + len ==> cmp(t[k], t[i]) <= 0
  }

  /** Nothing in the range before place i is greater than what is there. */
  ghost predicate LargestAt(cmp: (u64, u64) -> int, t: seq<u64>, loc: nat, i: nat) {
    i < |t| && forall k: nat :: loc <= k <= i ==> cmp(t[k], t[i]) <= 0
  }

  lemma SortedFromEnds(cmp: (u64, u64) -> int, t: seq<u64>, loc: nat, len: nat, cnt: nat)
    requires TotalPreorder(cmp) && loc + len <= |t|
    ensures SortedFrom(cmp, t, loc, len, len)
    ensures cnt <= 1 && SortedFrom(cmp, t, loc, len, cnt) ==> Sorted(cmp, t[loc..loc + len])
    ensures loc < |t| ==> LargestAt(cmp, t, loc, loc)
  {
  }

  lemma BubbleStep(cmp: (u64, u64) -> int, t: seq<u64>, loc: nat, len: nat, cnt: nat, i: nat)
    requires TotalPreorder(cmp) && SortedFrom(cmp, t, loc, len, cnt) && LargestAt(cmp, t, loc, i)
    requires loc <= i && i + 1 < loc + cnt <= loc + len
    ensures var t' := if cmp(t[i + 1], t[i]) < 0 then Exchanged(t, i, i + 1) else t;
            SortedFrom(cmp, t', loc, len, cnt) && LargestAt(cmp, t', loc, i + 1)
  {
    hide TotalPreorder;
    var t' := Exchanged(t, i, i + 1);
    forall k: nat, j: nat | loc <= k <= j && loc + cnt <= j < loc + len
      ensures cmp(t'[k], t'[j]) <= 0
    {
      var was := if k == i then i + 1 else if k == i + 1 then i else k;
      assert t'[k] == t[was] && t'[j] == t[j];
    }
    if cmp(t[i + 1], t[i]) >= 0 {
      forall k: nat | loc <= k <= i + 1
        ensures cmp(t[k], t[i + 1]) <= 0
      {
        Chained(cmp, t[if k <= i then k else i + 1], t[i], t[i + 1]);
      }
    }
  }

  /** Nothing is after itself, and the order is total and transitive. */
  lemma Chained(cmp: (u64, u64) -> int, x: u64, y: u64, z: u64)
    requires TotalPreorder(cmp)
    ensures cmp(z, z) <= 0
    ensures cmp(x, y) <= 0 && cmp(z, y) >= 0 ==> cmp(x, z) <= 0
  {
  }

  lemma BubbleEnd(cmp: (u64, u64) -> int, t: seq<u64>, loc: nat, len: nat, cnt: nat)
    requires SortedFrom(cmp, t, loc, len, cnt) && 0 < cnt <= len && LargestAt(cmp, t, loc, loc + cnt - 1)
    ensures SortedFrom(cmp, t, loc, len, cnt - 1)
  {
  }
}
