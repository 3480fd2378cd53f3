/** Numbers in base one billion (CFBigNumber.h), as digit sequences, least significant first. */
module BigNumDigits {
  import opened Bytes

  const LIMIT := 1_000_000_000
  const DIGITS := 5

  function Pow(i: nat): (p: nat)
    ensures p > 0
  {
    if i == 0 then 1 else LIMIT * Pow(i - 1)
  }

  /** What the digits amount to. */
  function Magnitude(ds: seq<u32>): nat {
    if ds == [] then 0 else ds[0] + LIMIT * Magnitude(ds[1..])
  }

  /** Every digit is below one billion. */
  predicate Canonical(ds: seq<u32>) {
    forall i :: 0 <= i < |ds| ==> ds[i] < LIMIT
  }

  predicate AllZero(ds: seq<u32>) {
    forall i :: 0 <= i < |ds| ==> ds[i] == 0
  }

  lemma {:induction false} MagnitudeAppend(ds: seq<u32>, d: u32)
    ensures Magnitude(ds + [d]) == Magnitude(ds) + d * Pow(|ds|)
    decreases |ds|
  {
    if ds == [] {
      assert [d][1..] == [];
      assert Magnitude([d]) == d + LIMIT * Magnitude([]);
    } else {
      assert (ds + [d])[1..] == ds[1..] + [d];
      MagnitudeAppend(ds[1..], d);
      assert LIMIT * (Magnitude(ds[1..]) + d * Pow(|ds| - 1)) == LIMIT * Magnitude(ds[1..]) + d * Pow(|ds|);
    }
  }

  /** The first n digits. */
  lemma MagnitudeNext(ds: seq<u32>, n: nat)
    requires n < |ds|
    ensures Magnitude(ds[..n + 1]) == Magnitude(ds[..n]) + ds[n] * Pow(n)
  {
    assert ds[..n + 1] == ds[..n] + [ds[n]];
    MagnitudeAppend(ds[..n], ds[n]);
  }

  lemma {:induction false} CanonicalBelow(ds: seq<u32>)
    requires Canonical(ds)
    ensures Magnitude(ds) < Pow(|ds|)
    decreases |ds|
  {
    if ds != [] {
      CanonicalBelow(ds[1..]);
      assert LIMIT * (Magnitude(ds[1..]) + 1) <= LIMIT * Pow(|ds| - 1);
    }
  }

  lemma {:induction false} ZeroIff(ds: seq<u32>)
    ensures Magnitude(ds) == 0 <==> AllZero(ds)
  {
    if ds != [] {
      ZeroIff(ds[1..]);
      assert forall i :: 0 <= i < |ds| - 1 ==> ds[1..][i] == ds[i + 1];
      if AllZero(ds[1..]) && ds[0] == 0 {
        forall i | 0 <= i < |ds|
          ensures ds[i] == 0
        {
          if i > 0 {
            assert ds[1..][i - 1] == ds[i];
          }
        }
      }
    }
  }

  // ---- Comparison, digit by digit from the most significant ----

  predicate Before(a: seq<u32>, b: seq<u32>)
    requires |a| == |b|
    decreases |a|
  {
    if a == [] then false
    else
      var i := |a| - 1;
      a[i] < b[i] || (a[i] == b[i] && Before(a[..i], b[..i]))
  }

  /** The most significant difference decides, whatever the digits are. */
  lemma {:induction false} DifferenceDecides(a: seq<u32>, b: seq<u32>, i: nat)
    requires |a| == |b| && i < |a| && a[i] != b[i] && a[i + 1..] == b[i + 1..]
    ensures Before(a, b) == (a[i] < b[i])
    decreases |a|
  {
    var last := |a| - 1;
    if i < last {
      assert a[i + 1..][last - i - 1] == b[i + 1..][last - i - 1];
      assert a[..last][i + 1..] == a[i + 1..][..last - i - 1] && b[..last][i + 1..] == b[i + 1..][..last - i - 1];
      DifferenceDecides(a[..last], b[..last], i);
    }
  }

  lemma {:induction false} NotBeforeItself(a: seq<u32>)
    ensures !Before(a, a)
    decreases |a|
  {
    if a != [] {
      NotBeforeItself(a[..|a| - 1]);
    }
  }

  /** Two different numbers come one before the other. */
  lemma {:induction false} OneIsBefore(a: seq<u32>, b: seq<u32>)
    requires |a| == |b|
    ensures Before(a, b) <==> a != b && !Before(b, a)
    decreases |a|
  {
    if a != [] {
      var i := |a| - 1;
      OneIsBefore(a[..i], b[..i]);
      assert a == a[..i] + [a[i]] && b == b[..i] + [b[i]];
    }
  }

  /** Canonical digits compare as the numbers do. */
  lemma {:induction false} BeforeIffLess(a: seq<u32>, b: seq<u32>)
    requires |a| == |b| && Canonical(a) && Canonical(b)
    ensures Before(a, b) <==> Magnitude(a) < Magnitude(b)
    decreases |a|
  {
    if a != [] {
      var i := |a| - 1;
      BeforeIffLess(a[..i], b[..i]);
      CanonicalBelow(a[..i]);
      CanonicalBelow(b[..i]);
      MagnitudeNext(a, i);
      MagnitudeNext(b, i);
      assert a[..i + 1] == a && b[..i + 1] == b;
      TopDigitDecides(Magnitude(a[..i]), Magnitude(b[..i]), a[i], b[i], Pow(i));
    }
  }

  lemma TopDigitDecides(low1: nat, low2: nat, x: nat, y: nat, p: nat)
    requires low1 < p && low2 < p
    ensures low1 + x * p < low2 + y * p <==> x < y || (x == y && low1 < low2)
  {
    if x < y {
      assert (x + 1) * p <= y * p;
    } else if y < x {
      assert (y + 1) * p <= x * p;
    }
  }

  // ---- Sums ----

  /** The carry into column i. A column that is exactly one billion is not carried. */
  function CarryInto(a: seq<u32>, b: seq<u32>, i: nat): (c: nat)
    requires |a| == |b| && i <= |a|
    ensures c <= 1
    decreases i, 0
  {
    if i > 0 && Column(a, b, i - 1) > LIMIT then 1 else 0
  }

  /** The sum of column i, in a 32-bit word. */
  function Column(a: seq<u32>, b: seq<u32>, i: nat): (column: u32)
    requires |a| == |b| && i < |a|
    decreases i, 1
  {
    (a[i] + b[i] + CarryInto(a, b, i)) % TWO_32
  }

  predicate SumWraps(a: seq<u32>, b: seq<u32>, i: nat)
    requires |a| == |b| && i < |a|
  {
    a[i] + b[i] + CarryInto(a, b, i) >= TWO_32
  }

  /** Column i leaves a digit below one billion: it is not one billion exactly, and less than two. */
  predicate SumIsDigit(a: seq<u32>, b: seq<u32>, i: nat)
    requires |a| == |b| && i < |a|
  {
    Column(a, b, i) != LIMIT && Column(a, b, i) < 2 * LIMIT
  }

  /** The digits the same-sign addition leaves. */
  function SumDigits(a: seq<u32>, b: seq<u32>, n: nat): (s: seq<u32>)
    requires |a| == |b| && n <= |a|
    ensures |s| == n
  {
    if n == 0 then []
    else
      var column := Column(a, b, n - 1);
      SumDigits(a, b, n - 1) + [if column > LIMIT then column - LIMIT else column]
  }

  /** What the columns that do not fit their word lose. */
  ghost function SumLost(a: seq<u32>, b: seq<u32>, n: nat): nat
    requires |a| == |b| && n <= |a|
  {
    if n == 0 then 0 else SumLost(a, b, n - 1) + (if SumWraps(a, b, n - 1) then TWO_32 * Pow(n - 1) else 0)
  }

  lemma {:induction false} SumLosesIff(a: seq<u32>, b: seq<u32>, n: nat)
    requires |a| == |b| && n <= |a|
    ensures SumLost(a, b, n) == 0 <==> forall i: nat :: i < n ==> !SumWraps(a, b, i)
  {
    if n > 0 {
      SumLosesIff(a, b, n - 1);
    }
  }

  lemma CanonicalSumsFit(a: seq<u32>, b: seq<u32>, n: nat)
    requires |a| == |b| && n <= |a| && Canonical(a) && Canonical(b)
    ensures SumLost(a, b, n) == 0
    ensures forall i: nat :: i < n ==> Column(a, b, i) == a[i] + b[i] + CarryInto(a, b, i) < 2 * LIMIT
  {
    hide CarryInto;
    SumLosesIff(a, b, n);
  }

  /** Adding conserves the magnitude, with the last carry and what the columns lose. */
  lemma {:induction false} SumConserves(a: seq<u32>, b: seq<u32>, n: nat)
    requires |a| == |b| && n <= |a|
    ensures Magnitude(SumDigits(a, b, n)) + CarryInto(a, b, n) * Pow(n) + SumLost(a, b, n)
         == Magnitude(a[..n]) + Magnitude(b[..n])
  {
    hide Magnitude;
    assert Magnitude([]) == 0 by { NoDigits(); }
    if n > 0 {
      var i := n - 1;
      SumConserves(a, b, i);
      MagnitudeNext(a, i);
      MagnitudeNext(b, i);
      var column: int := Column(a, b, i);
      var digit: int := if column > LIMIT then column - LIMIT else column;
      var lost: int := if SumWraps(a, b, i) then 1 else 0;
      MagnitudeAppend(SumDigits(a, b, i), digit);
      AddStep(Magnitude(SumDigits(a, b, i)), Magnitude(a[..i]), Magnitude(b[..i]),
              CarryInto(a, b, i), CarryInto(a, b, n), a[i], b[i], digit, SumLost(a, b, i), lost, Pow(i));
    }
  }

  lemma NoDigits()
    ensures Magnitude([]) == 0
  {
  }

  /** One column of an addition. */
  lemma AddStep(m: int, ma: int, mb: int, carry: int, carry': int, x: int, y: int, digit: int, lost: int, wrap: int,
                p: int)
    requires m + carry * p + lost == ma + mb
    requires digit + carry' * LIMIT + wrap * TWO_32 == x + y + carry
    ensures m + digit * p + carry' * (LIMIT * p) + (lost + wrap * (TWO_32 * p)) == ma + x * p + (mb + y * p)
  {
    assert (digit + carry' * LIMIT + wrap * TWO_32) * p == (x + y + carry) * p;
  }

  /** One column of a subtraction. */
  lemma SubStep(m: int, mb: int, ms: int, borrow: int, borrow': int, x: int, y: int, digit: int, gained: int,
                wrap: int, p: int)
    requires m + ms == mb + borrow * p + gained
    requires digit - borrow' * LIMIT - wrap * TWO_32 == x - y - borrow
    ensures m + digit * p + (ms + y * p) == mb + x * p + borrow' * (LIMIT * p) + (gained + wrap * (TWO_32 * p))
  {
    assert (digit - borrow' * LIMIT - wrap * TWO_32) * p == (x - y - borrow) * p;
  }

  /** The sum has canonical digits exactly when every column leaves one. */
  lemma {:induction false} SumIsCanonicalIff(a: seq<u32>, b: seq<u32>, n: nat)
    requires |a| == |b| && n <= |a|
    ensures Canonical(SumDigits(a, b, n)) <==> forall i: nat :: i < n ==> SumIsDigit(a, b, i)
  {
    hide Column;
    if n > 0 {
      SumIsCanonicalIff(a, b, n - 1);
      var s := SumDigits(a, b, n - 1);
      var d := SumDigits(a, b, n)[n - 1];
      assert forall i :: 0 <= i < n - 1 ==> SumDigits(a, b, n)[i] == s[i];
      assert d < LIMIT <==> SumIsDigit(a, b, n - 1);
      if Canonical(SumDigits(a, b, n)) {
        assert Canonical(s);
      }
    }
  }

  /** A sum of canonical numbers is all zeros only when there is nothing to add. */
  lemma {:induction false} SumIsZeroIff(a: seq<u32>, b: seq<u32>, n: nat)
    requires |a| == |b| && n <= |a| && Canonical(a) && Canonical(b)
    ensures AllZero(SumDigits(a, b, n)) <==> AllZero(a[..n]) && AllZero(b[..n])
    ensures AllZero(SumDigits(a, b, n)) ==> CarryInto(a, b, n) == 0
  {
    if n > 0 {
      SumIsZeroIff(a, b, n - 1);
      CanonicalSumsFit(a, b, n);
      var s := SumDigits(a, b, n);
      assert forall i :: 0 <= i < n - 1 ==> s[i] == SumDigits(a, b, n - 1)[i];
      assert forall i :: 0 <= i < n - 1 ==> a[..n][i] == a[..n - 1][i] && b[..n][i] == b[..n - 1][i];
      assert a[..n][n - 1] == a[n - 1] && b[..n][n - 1] == b[n - 1];
      if AllZero(s) {
        var before := SumDigits(a, b, n - 1);
        assert forall i :: 0 <= i < n - 1 ==> before[i] == s[i];
        assert s[n - 1] == 0;
      }
      if AllZero(a[..n]) && AllZero(b[..n]) {
        assert AllZero(a[..n - 1]) && AllZero(b[..n - 1]);
      }
    }
  }

  // ---- Differences ----

  function BorrowInto(big: seq<u32>, small: seq<u32>, i: nat): (c: nat)
    requires |big| == |small| && i <= |big|
    ensures c <= 1
  {
    if i > 0 && big[i - 1] - small[i - 1] - BorrowInto(big, small, i - 1) < 0 then 1 else 0
  }

  /** The difference in column i. */
  function Difference(big: seq<u32>, small: seq<u32>, i: nat): int
    requires |big| == |small| && i < |big|
  {
    big[i] - small[i] - BorrowInto(big, small, i)
  }

  /** A difference so far below zero that one billion more does not make it positive wraps around when stored. */
  predicate DifferenceWraps(big: seq<u32>, small: seq<u32>, i: nat)
    requires |big| == |small| && i < |big|
  {
    Difference(big, small, i) < -LIMIT
  }

  /** Column i leaves a digit below one billion. */
  predicate DifferenceIsDigit(big: seq<u32>, small: seq<u32>, i: nat)
    requires |big| == |small| && i < |big|
  {
    -LIMIT <= Difference(big, small, i) < LIMIT
  }

  /** The digits the subtraction of magnitudes leaves. */
  function DiffDigits(big: seq<u32>, small: seq<u32>, n: nat): (s: seq<u32>)
    requires |big| == |small| && n <= |big|
    ensures |s| == n
  {
    if n == 0 then []
    else
      var result: int := Difference(big, small, n - 1);
      DiffDigits(big, small, n - 1) + [if result < 0 then (result + LIMIT) % TWO_32 else result]
  }

  /** What the columns that wrap around put in. */
  ghost function DiffGained(big: seq<u32>, small: seq<u32>, n: nat): nat
    requires |big| == |small| && n <= |big|
  {
    if n == 0 then 0
    else DiffGained(big, small, n - 1) + (if DifferenceWraps(big, small, n - 1) then TWO_32 * Pow(n - 1) else 0)
  }

  lemma {:induction false} DiffGainsIff(big: seq<u32>, small: seq<u32>, n: nat)
    requires |big| == |small| && n <= |big|
    ensures DiffGained(big, small, n) == 0 <==> forall i: nat :: i < n ==> !DifferenceWraps(big, small, i)
  {
    if n > 0 {
      DiffGainsIff(big, small, n - 1);
    }
  }

  lemma {:induction false} CanonicalDifferencesFit(big: seq<u32>, small: seq<u32>, n: nat)
    requires |big| == |small| && n <= |big| && Canonical(big) && Canonical(small)
    ensures DiffGained(big, small, n) == 0 && Canonical(DiffDigits(big, small, n))
    ensures forall i: nat :: i < n ==> DifferenceIsDigit(big, small, i)
  {
    hide BorrowInto;
    if n > 0 {
      CanonicalDifferencesFit(big, small, n - 1);
    }
  }

  /** The difference has canonical digits exactly when every column leaves one. */
  lemma {:induction false} DiffIsCanonicalIff(big: seq<u32>, small: seq<u32>, n: nat)
    requires |big| == |small| && n <= |big|
    ensures Canonical(DiffDigits(big, small, n)) <==> forall i: nat :: i < n ==> DifferenceIsDigit(big, small, i)
  {
    hide BorrowInto;
    if n > 0 {
      DiffIsCanonicalIff(big, small, n - 1);
      var s := DiffDigits(big, small, n - 1);
      var d := DiffDigits(big, small, n)[n - 1];
      assert forall i :: 0 <= i < n - 1 ==> DiffDigits(big, small, n)[i] == s[i];
      assert d < LIMIT <==> DifferenceIsDigit(big, small, n - 1);
      if Canonical(DiffDigits(big, small, n)) {
        assert Canonical(s);
      }
    }
  }

  lemma {:induction false} DiffConserves(big: seq<u32>, small: seq<u32>, n: nat)
    requires |big| == |small| && n <= |big|
    ensures Magnitude(DiffDigits(big, small, n)) + Magnitude(small[..n])
         == Magnitude(big[..n]) + BorrowInto(big, small, n) * Pow(n) + DiffGained(big, small, n)
  {
    hide Magnitude;
    assert Magnitude([]) == 0 by { NoDigits(); }
    if n > 0 {
      var i := n - 1;
      DiffConserves(big, small, i);
      MagnitudeNext(big, i);
      MagnitudeNext(small, i);
      var result: int := Difference(big, small, i);
      var digit: int := if result < 0 then (result + LIMIT) % TWO_32 else result;
      var wrap: int := if DifferenceWraps(big, small, i) then 1 else 0;
      MagnitudeAppend(DiffDigits(big, small, i), digit);
      SubStep(Magnitude(DiffDigits(big, small, i)), Magnitude(big[..i]), Magnitude(small[..i]),
              BorrowInto(big, small, i), BorrowInto(big, small, n), big[i], small[i], digit,
              DiffGained(big, small, i), wrap, Pow(i));
    }
  }

  /** Taking what is not before from what is not after it leaves no borrow, whatever the digits are. */
  lemma {:induction false} NoBorrowLeft(big: seq<u32>, small: seq<u32>, n: nat)
    requires |big| == |small| && n <= |big| && !Before(big[..n], small[..n])
    ensures BorrowInto(big, small, n) == 0
  {
    if n > 0 {
      var i := n - 1;
      assert big[..n][..i] == big[..i] && small[..n][..i] == small[..i];
      if big[i] == small[i] {
        NoBorrowLeft(big, small, i);
      }
    }
  }
}
