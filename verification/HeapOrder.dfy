/** The order of a binary heap's buckets as a sequence, and what one step of a sift does to it. */
module HeapOrder {
  import opened Bytes
  import opened Ordering

  function Parent(i: nat): nat
    requires i > 0
  {
    (i - 1) / 2
  }

  /** Item i is not before its parent. */
  ghost predicate InPlace(cmp: (u64, u64) -> int, s: seq<u64>, i: nat)
    requires 0 < i < |s|
  {
    cmp(s[Parent(i)], s[i]) <= 0
  }

  ghost predicate IsHeap(cmp: (u64, u64) -> int, s: seq<u64>) {
    forall i: nat {:trigger InPlace(cmp, s, i)} :: 0 < i < |s| ==> InPlace(cmp, s, i)
  }

  /** In a heap no item is after either of the two below it, at twice its place and one or two on. */
  lemma HeapIff(cmp: (u64, u64) -> int, s: seq<u64>)
    ensures IsHeap(cmp, s) <==> forall i: nat {:trigger AboveBoth(cmp, s, i)} :: i < |s| ==> AboveBoth(cmp, s, i)
  {
    if IsHeap(cmp, s) {
      forall i: nat | i < |s|
        ensures AboveBoth(cmp, s, i)
      {
        assert 2 * i + 1 < |s| ==> InPlace(cmp, s, 2 * i + 1);
        assert 2 * i + 2 < |s| ==> InPlace(cmp, s, 2 * i + 2);
      }
    }
    if forall i: nat {:trigger AboveBoth(cmp, s, i)} :: i < |s| ==> AboveBoth(cmp, s, i) {
      forall i: nat | 0 < i < |s|
        ensures InPlace(cmp, s, i)
      {
        assert AboveBoth(cmp, s, (i - 1) / 2);
      }
    }
  }

  predicate AboveBoth(cmp: (u64, u64) -> int, s: seq<u64>, i: nat)
    requires i < |s|
  {
    && (2 * i + 1 < |s| ==> cmp(s[i], s[2 * i + 1]) <= 0)
    && (2 * i + 2 < |s| ==> cmp(s[i], s[2 * i + 2]) <= 0)
  }

  /** A heap but for the item at `hole`, which may be too small for its place; what is below the hole is not before
      what is above it. */
  ghost predicate RisesFrom(cmp: (u64, u64) -> int, s: seq<u64>, hole: nat) {
    && hole < |s|
    && (forall i: nat {:trigger InPlace(cmp, s, i)} :: 0 < i < |s| && i != hole ==> InPlace(cmp, s, i))
    && (forall i: nat {:trigger Parent(i)} :: 0 < i < |s| && Parent(i) == hole && hole > 0 ==>
                                                cmp(s[Parent(hole)], s[i]) <= 0)
  }

  /** A heap but for the item at `hole`, which may be too large for its place. */
  ghost predicate SinksFrom(cmp: (u64, u64) -> int, s: seq<u64>, hole: nat) {
    && hole < |s|
    && (forall i: nat {:trigger InPlace(cmp, s, i)} :: 0 < i < |s| && Parent(i) != hole ==> InPlace(cmp, s, i))
    && (forall i: nat {:trigger Parent(i)} :: 0 < i < |s| && Parent(i) == hole && hole > 0 ==>
                                                cmp(s[Parent(hole)], s[i]) <= 0)
  }

  /** Moving an item into a hole and leaving another one is an exchange with the value that is to fill it. */
  lemma HoleMoves(b: seq<u64>, value: u64, hole: nat, from: nat)
    requires hole < |b| && from < |b| && hole != from
    ensures Exchanged(b[hole := value], hole, from) == b[hole := b[from]][from := value]
  {
  }

  /** The first item of a heap is not after any other. */
  lemma {:induction false} MinimumFirst(cmp: (u64, u64) -> int, s: seq<u64>, i: nat)
    requires TotalPreorder(cmp) && IsHeap(cmp, s) && i < |s|
    ensures cmp(s[0], s[i]) <= 0
    decreases i
  {
    if i > 0 {
      MinimumFirst(cmp, s, Parent(i));
      assert InPlace(cmp, s, i);
      assert cmp(s[0], s[Parent(i)]) <= 0 && cmp(s[Parent(i)], s[i]) <= 0;
    }
  }

  /** A new item at the end may have to rise. */
  lemma AppendRises(cmp: (u64, u64) -> int, s: seq<u64>, v: u64)
    requires IsHeap(cmp, s)
    ensures RisesFrom(cmp, s + [v], |s|)
  {
    var t := s + [v];
    forall i: nat | 0 < i < |t| && i != |s|
      ensures InPlace(cmp, t, i)
    {
      assert InPlace(cmp, s, i);
    }
  }

  lemma Settled(cmp: (u64, u64) -> int, s: seq<u64>, hole: nat)
    requires RisesFrom(cmp, s, hole) && (hole == 0 || cmp(s[Parent(hole)], s[hole]) <= 0)
    ensures IsHeap(cmp, s)
  {
  }

  /** Changing places with a greater parent moves the trouble up. */
  lemma Rise(cmp: (u64, u64) -> int, s: seq<u64>, hole: nat)
    requires TotalPreorder(cmp) && RisesFrom(cmp, s, hole) && hole > 0 && cmp(s[Parent(hole)], s[hole]) > 0
    ensures RisesFrom(cmp, Exchanged(s, hole, Parent(hole)), Parent(hole))
  {
    var p := Parent(hole);
    var t := Exchanged(s, hole, p);
    assert cmp(s[hole], s[p]) < 0;
    forall i: nat | 0 < i < |t| && i != p
      ensures InPlace(cmp, t, i)
    {
      if i == hole {
        assert t[Parent(i)] == s[hole] && t[i] == s[p];
      } else if Parent(i) == hole {
        assert t[Parent(i)] == s[p] && t[i] == s[i];
      } else if Parent(i) == p {
        assert InPlace(cmp, s, i);
        assert t[Parent(i)] == s[hole] && t[i] == s[i];
        assert cmp(s[p], s[i]) <= 0;
      } else {
        assert InPlace(cmp, s, i);
      }
    }
    if p > 0 {
      assert InPlace(cmp, s, p);
      var g := Parent(p);
      assert cmp(s[g], s[p]) <= 0;
      forall i: nat | 0 < i < |t| && Parent(i) == p
        ensures cmp(t[g], t[i]) <= 0
      {
        if i != hole {
          assert InPlace(cmp, s, i);
          assert cmp(s[p], s[i]) <= 0;
        }
      }
    }
  }

  /** Taking the first item out and the last one in its stead leaves one that may have to sink. */
  lemma RootSinks(cmp: (u64, u64) -> int, s: seq<u64>)
    requires IsHeap(cmp, s) && |s| > 1
    ensures SinksFrom(cmp, s[..|s| - 1][0 := s[|s| - 1]], 0)
    ensures multiset(s[..|s| - 1][0 := s[|s| - 1]]) == multiset(s) - multiset{s[0]}
  {
    var n := |s| - 1;
    var t := s[..n][0 := s[n]];
    forall i: nat | 0 < i < |t| && Parent(i) != 0
      ensures InPlace(cmp, t, i)
    {
      assert InPlace(cmp, s, i);
    }
    assert s == s[..n] + [s[n]];
    assert s[..n] == [s[0]] + s[1..n];
    assert t == [s[n]] + s[1..n];
  }

  /** When neither child is before it, the item is in its place. */
  lemma Sunk(cmp: (u64, u64) -> int, s: seq<u64>, hole: nat)
    requires SinksFrom(cmp, s, hole)
    requires 2 * hole + 1 < |s| ==> cmp(s[hole], s[2 * hole + 1]) <= 0
    requires 2 * hole + 2 < |s| ==> cmp(s[hole], s[2 * hole + 2]) <= 0
    ensures IsHeap(cmp, s)
  {
  }

  /** Changing places with the lesser child moves the trouble down. */
  lemma Sink(cmp: (u64, u64) -> int, s: seq<u64>, hole: nat, c: nat)
    requires TotalPreorder(cmp) && SinksFrom(cmp, s, hole)
    requires 0 < c < |s| && Parent(c) == hole && cmp(s[c], s[hole]) <= 0
    requires forall i: nat {:trigger Parent(i)} :: 0 < i < |s| && Parent(i) == hole ==> cmp(s[c], s[i]) <= 0
    ensures SinksFrom(cmp, Exchanged(s, hole, c), c)
  {
    var t := Exchanged(s, hole, c);
    forall i: nat | 0 < i < |t| && Parent(i) != c
      ensures InPlace(cmp, t, i)
    {
      if i == hole {
        assert cmp(s[Parent(hole)], s[c]) <= 0;
      } else if Parent(i) == hole {
        assert t[Parent(i)] == s[c];
      } else {
        assert InPlace(cmp, s, i);
      }
    }
    forall i: nat | 0 < i < |t| && Parent(i) == c
      ensures cmp(t[Parent(c)], t[i]) <= 0
    {
      assert InPlace(cmp, s, i);
    }
  }

  /** The child the sift picks is not after the other one, and when the item is before it the item is in its place. */
  lemma LesserChild(cmp: (u64, u64) -> int, s: seq<u64>, hole: nat, c: nat)
    requires TotalPreorder(cmp) && hole < |s| && c < |s|
    requires c == 2 * hole + 1 || (c == 2 * hole + 2 && cmp(s[c - 1], s[c]) > 0)
    requires c == 2 * hole + 1 && c + 1 < |s| ==> cmp(s[c], s[c + 1]) <= 0
    ensures Parent(c) == hole
    ensures forall i: nat {:trigger Parent(i)} :: 0 < i < |s| && Parent(i) == hole ==> cmp(s[c], s[i]) <= 0
    ensures cmp(s[c], s[hole]) > 0 ==>
              && cmp(s[hole], s[2 * hole + 1]) <= 0
              && (2 * hole + 2 < |s| ==> cmp(s[hole], s[2 * hole + 2]) <= 0)
  {
  }

  lemma OneLeft(cmp: (u64, u64) -> int, s: seq<u64>)
    requires |s| == 1
    ensures multiset(s) - multiset{s[0]} == multiset([]) && IsHeap(cmp, [])
  {
  }

  lemma NoneRises(cmp: (u64, u64) -> int, s: seq<u64>, i: nat)
    requires IsHeap(cmp, s) && i < |s|
    ensures i > 0 ==> cmp(s[..i][Parent(i)], s[i]) <= 0
    ensures s[..i + 1] == s[..i] + [s[i]]
  {
    if i > 0 {
      assert InPlace(cmp, s, i);
    }
  }

  // ---- Sorted extraction ----

  /** Items taken out so far are in order, and none is after one still there. */
  ghost predicate Taken(cmp: (u64, u64) -> int, out: seq<u64>, left: seq<u64>) {
    Sorted(cmp, out) && forall x, y :: x in out && y in left ==> cmp(x, y) <= 0
  }

  lemma NothingTaken(cmp: (u64, u64) -> int, left: seq<u64>)
    ensures Taken(cmp, [], left)
  {
  }

  lemma TakenIsSorted(cmp: (u64, u64) -> int, out: seq<u64>, left: seq<u64>)
    requires Taken(cmp, out, left)
    ensures Sorted(cmp, out)
  {
  }

  /** Taking out the minimum keeps that so. */
  lemma TakeNext(cmp: (u64, u64) -> int, out: seq<u64>, left: seq<u64>, left': seq<u64>)
    requires TotalPreorder(cmp) && IsHeap(cmp, left) && left != [] && Taken(cmp, out, left)
    requires multiset(left') == multiset(left) - multiset{left[0]}
    ensures Taken(cmp, out + [left[0]], left')
    ensures multiset(out + [left[0]]) + multiset(left') == multiset(out) + multiset(left)
  {
    hide IsHeap;
    var v := left[0];
    var out' := out + [v];
    assert left == [v] + left[1..];
    assert v in left;
    forall y | y in left'
      ensures y in left
    {
      assert y in multiset(left');
    }
    forall y | y in left
      ensures cmp(v, y) <= 0
    {
      var i :| 0 <= i < |left| && left[i] == y;
      MinimumFirst(cmp, left, i);
    }
    AppendSorted(cmp, out, v);
    assert multiset(left') + multiset{v} == multiset(left);
  }

  lemma AppendSorted(cmp: (u64, u64) -> int, s: seq<u64>, v: u64)
    requires TotalPreorder(cmp) && Sorted(cmp, s) && forall x :: x in s ==> cmp(x, v) <= 0
    ensures Sorted(cmp, s + [v])
  {
  }
}
