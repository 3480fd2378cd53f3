/** The moves of the array's deque store (CFArray.c, lines 775-859), on sequences. */
module DequeMoves {
  import opened Bytes

  // ---- Moves ----

  /** memmove from one store to another: n cells from s to d. */
  function Copy(dst: seq<u64>, d: int, src: seq<u64>, s: int, n: int): (r: seq<u64>)
    requires 0 <= d <= d + n <= |dst| && 0 <= s <= s + n <= |src|
    ensures |r| == |dst|
  {
    dst[..d] + src[s..s + n] + dst[d + n..]
  }

  /** memmove within a store: the n cells from s, as they were, to d. */
  function Move(b: seq<u64>, d: int, s: int, n: int): (r: seq<u64>)
    requires 0 <= d <= d + n <= |b| && 0 <= s <= s + n <= |b|
    ensures |r| == |b|
    ensures forall p :: 0 <= p < |b| ==> r[p] == if d <= p < d + n then b[p - d + s] else b[p]
  {
    b[..d] + b[s..s + n] + b[d + n..]
  }

  /** memset to zero. */
  function Clear(b: seq<u64>, d: int, n: int): (r: seq<u64>)
    requires 0 <= d <= d + n <= |b|
    ensures |r| == |b|
    ensures forall p :: 0 <= p < |b| ==> r[p] == if d <= p < d + n then 0 else b[p]
  {
    b[..d] + seq<u64>(n, _ => 0) + b[d + n..]
  }

  /** Items a stand from l on, then a gap, then items c. */
  predicate Placed(b: seq<u64>, l: int, a: seq<u64>, gap: nat, c: seq<u64>) {
    && 0 <= l && l + |a| + gap + |c| <= |b|
    && b[l..l + |a|] == a && b[l + |a| + gap..l + |a| + gap + |c|] == c
  }

  /** Cells that were in use from l on for n, and no longer are from l' on for n', hold no stale item. */
  predicate Cleared(b: seq<u64>, l: int, n: int, l': int, n': int) {
    forall p :: 0 <= p < |b| && l <= p < l + n && !(l' <= p < l' + n') ==> b[p] == 0
  }

  /** Clearing n cells, when there are any. */
  function ClearSome(b: seq<u64>, d: int, n: int): seq<u64>
    requires 0 <= d && d + n <= |b|
  {
    if n > 0 then Clear(b, d, n) else b
  }

  lemma ClearNothing(b: seq<u64>, d: nat)
    requires d <= |b|
    ensures ClearSome(b, d, 0) == b
  {
  }

  lemma ClearNext(b: seq<u64>, d: nat, n: nat)
    requires d + n < |b|
    ensures |ClearSome(b, d, n)| == |b| && ClearSome(b, d, n)[d + n] == b[d + n]
    ensures ClearSome(b, d, n)[d + n := 0] == ClearSome(b, d, n + 1)
  {
  }

  /** Clearing cells on either side of the items leaves them in place. */
  lemma ClearOutside(b: seq<u64>, l: int, a: seq<u64>, gap: nat, c: seq<u64>, d: int, n: int)
    requires Placed(b, l, a, gap, c) && 0 <= d && d + n <= |b|
    requires d + n <= l || l + |a| + gap + |c| <= d
    ensures Placed(ClearSome(b, d, n), l, a, gap, c)
  {
  }

  lemma ClearedAfter(b: seq<u64>, l: int, n: int, l': int, n': int, d: int, k: int)
    requires 0 <= d && d + k <= |b|
    requires forall p {:trigger b[p]} :: l <= p < l + n && !(l' <= p < l' + n') ==> d <= p < d + k
    ensures Cleared(ClearSome(b, d, k), l, n, l', n')
  {
  }

  /** Moving the right part opens or closes the gap. */
  lemma MoveRightPart(b: seq<u64>, l: nat, a: seq<u64>, old_: nat, c: seq<u64>, new_: nat)
    requires Placed(b, l, a, old_, c) && l + |a| + new_ + |c| <= |b|
    ensures var b' := ClearSome(Move(b, l + |a| + new_, l + |a| + old_, |c|), l + |a| + new_ + |c|, old_ - new_);
            Placed(b', l, a, new_, c) && Cleared(b', l, |a| + old_ + |c|, l, |a| + new_ + |c|)
  {
  }

  /** Moving the left part opens or closes the gap. */
  lemma MoveLeftPart(b: seq<u64>, l: nat, a: seq<u64>, old_: nat, c: seq<u64>, new_: nat)
    requires Placed(b, l, a, old_, c) && 0 <= l + old_ - new_
    ensures l + |a| + old_ + |c| <= |b|
    ensures var l' := l + old_ - new_;
            var b' := ClearSome(Move(b, l', l, |a|), l, l' - l);
            Placed(b', l', a, new_, c) && Cleared(b', l, |a| + old_ + |c|, l', |a| + new_ + |c|)
  {
    hide ClearSome, Cleared;
    var l' := l + old_ - new_;
    var b' := Move(b, l', l, |a|);
    assert b'[l'..l' + |a|] == a;
    assert b'[l' + |a| + new_..l' + |a| + new_ + |c|] == c;
    ClearOutside(b', l', a, new_, c, l, l' - l);
    ClearedAfter(b', l, |a| + old_ + |c|, l', |a| + new_ + |c|, l, l' - l);
  }

  /** Re-centring to the left moves a first, and does not reach c. */
  lemma MoveBothLeft(b: seq<u64>, l: nat, a: seq<u64>, old_: nat, c: seq<u64>, l': nat, new_: nat)
    requires Placed(b, l, a, old_, c) && l' < l && l' + |a| + new_ + |c| <= |b| && old_ <= new_
    ensures l + |a| + old_ + |c| <= |b|
    ensures var c0, c0' := l + |a| + old_, l' + |a| + new_;
            var b' := ClearSome(Move(Move(b, l', l, |a|), c0', c0, |c|), c0' + |c|, c0 - c0');
            && Placed(b', l', a, new_, c)
            && Cleared(b', l, |a| + old_ + |c|, l', |a| + new_ + |c|)
  {
    hide ClearSome, Cleared;
    var c0, c0' := l + |a| + old_, l' + |a| + new_;
    var b1 := Move(b, l', l, |a|);
    assert b1[l'..l' + |a|] == a;
    assert b1[c0..c0 + |c|] == c;
    var b2 := Move(b1, c0', c0, |c|);
    assert b2[l'..l' + |a|] == a;
    ClearOutside(b2, l', a, new_, c, c0' + |c|, c0 - c0');
    ClearedAfter(b2, l, |a| + old_ + |c|, l', |a| + new_ + |c|, c0' + |c|, c0 - c0');
  }

  /** Re-centring to the right moves c first, and does not reach a. */
  lemma MoveBothRight(b: seq<u64>, l: nat, a: seq<u64>, old_: nat, c: seq<u64>, l': nat, new_: nat)
    requires Placed(b, l, a, old_, c) && l <= l' && l' + |a| + new_ + |c| <= |b| && old_ <= new_
    ensures l + |a| + old_ + |c| <= |b|
    ensures var c0, c0' := l + |a| + old_, l' + |a| + new_;
            var b' := ClearSome(Move(Move(b, c0', c0, |c|), l', l, |a|), l, l' - l);
            && Placed(b', l', a, new_, c)
            && Cleared(b', l, |a| + old_ + |c|, l', |a| + new_ + |c|)
  {
    hide ClearSome, Cleared;
    var c0, c0' := l + |a| + old_, l' + |a| + new_;
    var b1 := Move(b, c0', c0, |c|);
    assert b1[l..l + |a|] == a;
    assert b1[c0'..c0' + |c|] == c;
    var b2 := Move(b1, l', l, |a|);
    assert b2[l'..l' + |a|] == a;
    assert b2[c0'..c0' + |c|] == c;
    ClearOutside(b2, l', a, new_, c, l, l' - l);
    ClearedAfter(b2, l, |a| + old_ + |c|, l', |a| + new_ + |c|, l, l' - l);
  }

  /** Moving both parts to another store. */
  lemma MoveAcross(b: seq<u64>, l: nat, a: seq<u64>, old_: nat, c: seq<u64>, fresh_: seq<u64>, l': nat, new_: nat)
    requires Placed(b, l, a, old_, c) && l' + |a| + new_ + |c| <= |fresh_|
    ensures l + |a| + old_ + |c| <= |b|
    ensures var c0, c0' := l + |a| + old_, l' + |a| + new_;
            Placed(Copy(Copy(fresh_, l', b, l, |a|), c0', b, c0, |c|), l', a, new_, c)
  {
    var c0, c0' := l + |a| + old_, l' + |a| + new_;
    var b1 := Copy(fresh_, l', b, l, |a|);
    assert b1[l'..l' + |a|] == a;
    var b2 := Copy(b1, c0', b, c0, |c|);
    assert b2[l'..l' + |a|] == a;
    assert b2[c0'..c0' + |c|] == c;
  }

  lemma ClearMiddle(b: seq<u64>, l: nat, loc: nat, len: nat, n: nat)
    requires loc + len <= n && l + n <= |b|
    ensures |ClearSome(b, l + loc, len)| == |b|
    ensures ClearSome(b, l + loc, len)[l..l + n][..loc] == b[l..l + n][..loc]
    ensures ClearSome(b, l + loc, len)[l..l + n][loc + len..] == b[l..l + n][loc + len..]
  {
  }

  lemma NothingPlaced(b: seq<u64>, l: nat, gap: nat)
    requires l + gap <= |b|
    ensures Placed(b, l, [], gap, [])
  {
  }

  /** Filling the gap joins everything. */
  lemma FillGap(b: seq<u64>, l: nat, a: seq<u64>, c: seq<u64>, items: seq<u64>)
    requires Placed(b, l, a, |items|, c)
    ensures var r := b[..l + |a|] + items + b[l + |a| + |items|..];
            r[l..l + |a| + |items| + |c|] == a + items + c
  {
  }
}
