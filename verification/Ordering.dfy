/** Comparator functions and what being in order means for them. */
module Ordering {
  import opened Bytes

  /** Two items have changed places. */
  function Exchanged(s: seq<u64>, i: nat, j: nat): seq<u64>
    requires i < |s| && j < |s|
  {
    s[i := s[j]][j := s[i]]
  }

  lemma ExchangedCounts(s: seq<u64>, i: nat, j: nat)
    requires i < |s| && j < |s|
    ensures multiset(Exchanged(s, i, j)) == multiset(s)
  {
  }

  /** The comparator orders values totally, though it may call different ones equal. */
  ghost predicate TotalPreorder(cmp: (u64, u64) -> int) {
    && (forall x, y :: cmp(x, y) < 0 <==> cmp(y, x) > 0)
    && (forall x, y, z :: cmp(x, y) <= 0 && cmp(y, z) <= 0 ==> cmp(x, z) <= 0)
  }

  ghost predicate Sorted(cmp: (u64, u64) -> int, s: seq<u64>) {
    forall i: nat, j: nat :: i <= j < |s| ==> cmp(s[i], s[j]) <= 0
  }

  lemma Reversed(cmp: (u64, u64) -> int, x: u64, y: u64)
    requires TotalPreorder(cmp)
    ensures cmp(x, y) < 0 <==> cmp(y, x) > 0
  {
  }

  ghost predicate LesserUpTo(cmp: (u64, u64) -> int, s: seq<u64>, v: u64, i: int) {
    forall k: nat :: k < i && k < |s| ==> cmp(s[k], v) < 0
  }

  ghost predicate NoLesserFrom(cmp: (u64, u64) -> int, s: seq<u64>, v: u64, i: int) {
    forall k: nat :: i <= k < |s| ==> cmp(s[k], v) >= 0
  }

  lemma BoundEdges(cmp: (u64, u64) -> int, s: seq<u64>, v: u64)
    ensures LesserUpTo(cmp, s, v, 0) && NoLesserFrom(cmp, s, v, |s|)
  {
  }

  lemma LesserUpToFewer(cmp: (u64, u64) -> int, s: seq<u64>, v: u64, i: int, j: int)
    requires LesserUpTo(cmp, s, v, i) && j <= i
    ensures LesserUpTo(cmp, s, v, j)
  {
  }

  /** One comparison tells about everything on one side of it. */
  lemma Compared(cmp: (u64, u64) -> int, s: seq<u64>, i: nat, v: u64)
    requires TotalPreorder(cmp) && Sorted(cmp, s) && i < |s|
    ensures cmp(s[i], v) < 0 ==> LesserUpTo(cmp, s, v, i + 1)
    ensures cmp(s[i], v) >= 0 ==> NoLesserFrom(cmp, s, v, i)
  {
  }
}
