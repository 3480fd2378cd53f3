/** The signed numbers of five digits in base one billion (CFBigNumber.c), by their values. */
module BigNumber {
  import opened Bytes
  import opened BigNumDigits

  function Sgn(v: int): int {
    if v < 0 then -1 else if v > 0 then 1 else 0
  }

  /** The value of a sign, which is 0 or -1, and digits. */
  function Signed(sign: int, ds: seq<u32>): int {
    var m: int := Magnitude(ds);
    if sign < 0 then -m else m
  }

  /** A 128-bit and a 64-bit two's complement word. */
  function Wrap(v: int, half: int): int
    requires half > 0
  {
    (v + half) % (2 * half) - half
  }

  const TWO_63 := 0x8000_0000_0000_0000
  const TWO_127 := 0x8000_0000_0000_0000_0000_0000_0000_0000

  /** The three low digits are all there is to a number below the cube of one billion. */
  lemma ThreeDigits(ds: seq<u32>)
    requires |ds| == DIGITS
    ensures Magnitude(ds[..3]) == ds[0] + ds[1] * LIMIT + ds[2] * (LIMIT * LIMIT)
    ensures Magnitude(ds) < LIMIT * LIMIT * LIMIT ==> Magnitude(ds[..3]) == Magnitude(ds)
  {
    var s := ds[..3];
    assert Magnitude(s[2..]) == ds[2] by { assert s[2..][1..] == []; }
    assert Magnitude(s[1..]) == ds[1] + LIMIT * ds[2] by { assert s[1..][1..] == s[2..]; }
    assert ds == [ds[0], ds[1], ds[2], ds[3], ds[4]];
    FiveDigits(ds[0], ds[1], ds[2], ds[3], ds[4]);
  }

  lemma FiveDigits(d0: u32, d1: u32, d2: u32, d3: u32, d4: u32)
    ensures Magnitude([d0, d1, d2, d3, d4])
         == d0 + d1 * LIMIT + d2 * (LIMIT * LIMIT) + d3 * (LIMIT * LIMIT * LIMIT)
            + d4 * (LIMIT * LIMIT * LIMIT * LIMIT)
  {
    assert [d4][1..] == [] && [d3, d4][1..] == [d4] && [d2, d3, d4][1..] == [d3, d4];
    assert [d1, d2, d3, d4][1..] == [d2, d3, d4] && [d0, d1, d2, d3, d4][1..] == [d1, d2, d3, d4];
    assert Magnitude([d4]) == d4;
    assert Magnitude([d3, d4]) == d3 + LIMIT * d4;
    assert Magnitude([d2, d3, d4]) == d2 + LIMIT * Magnitude([d3, d4]);
    assert Magnitude([d1, d2, d3, d4]) == d1 + LIMIT * Magnitude([d2, d3, d4]);
  }

  lemma FiveCanonical(d0: u32, d1: u32, d2: u32, d3: u32, d4: u32)
    requires d0 < LIMIT && d1 < LIMIT && d2 < LIMIT && d3 < LIMIT && d4 < LIMIT
    ensures Canonical([d0, d1, d2, d3, d4])
  {
  }

  /** The result is the one number within the word that is a multiple of twice its half away. */
  lemma WrapSays(v: int, half: int, r: int)
    requires half > 0
    ensures r == Wrap(v, half) <==> -half <= r < half && exists k: int :: v == r + 2 * half * k
    ensures -half <= v < half ==> Wrap(v, half) == v
  {
    var w, k := Wrap(v, half), (v + half) / (2 * half);
    assert v == w + 2 * half * k;
    if j: int :| -half <= r < half && v == r + 2 * half * j {
      OneMultiple(r + half, w + half, 2 * half, j, k);
    }
    if -half <= v < half {
      SmallModulus(v + half, 2 * half);
    }
  }

  lemma LeastMultiple(m: int, d: int)
    requires m > 0 && d > 0
    ensures m * d >= m
  {
  }

  lemma OneMultiple(x: int, y: int, m: int, j: int, k: int)
    requires 0 <= x < m && 0 <= y < m && x + m * j == y + m * k
    ensures x == y
  {
    var d := k - j;
    assert x - y == m * d;
    if d != 0 {
      LeastMultiple(m, if d > 0 then d else -d);
    }
  }

  lemma SmallModulus(x: int, m: int)
    requires 0 <= x < m
    ensures x % m == x
  {
  }

  class BigNum {
    var digits: array<u32>
    var sign: int

    ghost predicate Valid()
      reads `digits, `sign
    {
      digits.Length == DIGITS && (sign == 0 || sign == -1)
    }

    ghost predicate InCanonicalForm()
      reads `digits, digits
    {
      Canonical(digits[..])
    }

    ghost function Value(): int
      reads `digits, `sign, digits
    {
      Signed(sign, digits[..])
    }

    constructor ()
      ensures Valid() && InCanonicalForm() && Value() == 0 && sign == 0 && fresh(digits)
    {
      digits := new u32[DIGITS](_ => 0);
      sign := 0;
      new;
      ZeroIff(digits[..]);
    }

    /** memset(r, 0, sizeof(*r)), a sign, and five digits */
    method Assign(sign: int, d0: u32, d1: u32, d2: u32, d3: u32, d4: u32)
      requires Valid() && (sign == 0 || sign == -1)
      modifies this, digits
      ensures Valid() && digits == old(digits) && this.sign == sign && digits[..] == [d0, d1, d2, d3, d4]
    {
      this.sign := sign;
      digits[0] := d0;
      digits[1] := d1;
      digits[2] := d2;
      digits[3] := d3;
      digits[4] := d4;
    }

    /** _CFBigNumInitWithInt128 */
    method InitWithInt128(inNum: int)
      requires Valid() && -TWO_127 <= inNum < TWO_127
      modifies this, digits
      ensures Valid() && digits == old(digits) && InCanonicalForm() && Value() == inNum
    {
      hide Magnitude, Canonical;
      var unsigned := if inNum < 0 then -inNum else inNum;
      var l2, l3, l4 := LIMIT * LIMIT, LIMIT * LIMIT * LIMIT, LIMIT * LIMIT * LIMIT * LIMIT;
      var rest: int := unsigned;
      var dig4 := rest / l4;
      rest := rest - dig4 * l4;
      var dig3 := rest / l3;
      rest := rest - dig3 * l3;
      var dig2 := rest / l2;
      rest := rest - dig2 * l2;
      var dig1 := rest / LIMIT;
      rest := rest - dig1 * LIMIT;
      Assign(if inNum < 0 then -1 else 0, rest, dig1, dig2, dig3, dig4);
      FiveDigits(rest, dig1, dig2, dig3, dig4);
      FiveCanonical(rest, dig1, dig2, dig3, dig4);
    }

    /** _CFBigNumInitWithInt64 */
    method InitWithInt64(inNum: int)
      requires Valid() && -TWO_63 <= inNum < TWO_63
      modifies this, digits
      ensures Valid() && digits == old(digits) && InCanonicalForm() && Value() == inNum
    {
      hide Magnitude, Canonical;
      var unsigned := if inNum < 0 then -inNum else inNum;
      var l2 := LIMIT * LIMIT;
      var dig2 := unsigned / l2;
      var rest := unsigned - dig2 * l2;
      var dig1 := rest / LIMIT;
      Assign(if inNum < 0 then -1 else 0, rest - dig1 * LIMIT, dig1, dig2, 0, 0);
      FiveDigits(rest - dig1 * LIMIT, dig1, dig2, 0, 0);
      FiveCanonical(rest - dig1 * LIMIT, dig1, dig2, 0, 0);
    }

    /** _CFBigNumGetInt128: the value, as far as 128 bits hold it. */
    method GetInt128() returns (result: int)
      requires Valid()
      ensures result == Wrap(Value(), TWO_127)
      ensures -TWO_127 <= result < TWO_127 && exists k: int :: Value() == result + 2 * TWO_127 * k
      ensures -TWO_127 <= Value() < TWO_127 ==> result == Value()
    {
      hide Magnitude;
      FiveDigits(digits[0], digits[1], digits[2], digits[3], digits[4]);
      assert digits[..] == [digits[0], digits[1], digits[2], digits[3], digits[4]];
      result := digits[0] + digits[1] * LIMIT + digits[2] * (LIMIT * LIMIT)
                + digits[3] * (LIMIT * LIMIT * LIMIT) + digits[4] * (LIMIT * LIMIT * LIMIT * LIMIT);
      if sign < 0 {
        result := -result;
      }
      WrapSays(result, TWO_127, Wrap(result, TWO_127));
      result := Wrap(result, TWO_127);
    }

    /** _CFBigNumGetInt64: only the three low digits count. */
    method GetInt64() returns (result: int)
      requires Valid()
      ensures result == Wrap(Signed(sign, digits[..3]), TWO_63)
      ensures -TWO_63 <= result < TWO_63
      ensures exists k: int :: Signed(sign, digits[..3]) == result + 2 * TWO_63 * k
      ensures -TWO_63 <= Value() < TWO_63 ==> result == Value()
    {
      hide Magnitude;
      ThreeDigits(digits[..]);
      result := digits[0] + digits[1] * LIMIT + digits[2] * (LIMIT * LIMIT);
      if sign < 0 {
        result := -result;
      }
      WrapSays(result, TWO_63, Wrap(result, TWO_63));
      result := Wrap(result, TWO_63);
    }
  }

  // ---- Comparison ----

  /** _CFBigNumAbsoluteLessThan: the order of the digits, which is that of the magnitudes when they are canonical. */
  method AbsoluteLessThan(a: BigNum, b: BigNum) returns (less: bool)
    requires a.Valid() && b.Valid()
    ensures less == Before(a.digits[..], b.digits[..])
    ensures a.InCanonicalForm() && b.InCanonicalForm() ==> less == (Magnitude(a.digits[..]) < Magnitude(b.digits[..]))
  {
    hide Magnitude, Before, Canonical;
    if Canonical(a.digits[..]) && Canonical(b.digits[..]) {
      BeforeIffLess(a.digits[..], b.digits[..]);
    }
    var i := MostSignificantDifference(a, b);
    if i == -1 {
      NotBeforeItself(a.digits[..]);
      return false;
    }
    return a.digits[i] < b.digits[i];
  }

  /** The loop both comparisons have, from the last digit down to the first that differs, or -1. */
  method MostSignificantDifference(a: BigNum, b: BigNum) returns (i: int)
    requires a.Valid() && b.Valid()
    ensures -1 <= i < DIGITS
    ensures i == -1 ==> a.digits[..] == b.digits[..]
    ensures i >= 0 ==> a.digits[i] != b.digits[i] && a.digits[i + 1..] == b.digits[i + 1..]
    ensures i >= 0 ==> Before(a.digits[..], b.digits[..]) == (a.digits[i] < b.digits[i])
  {
    hide Before;
    i := DIGITS - 1;
    while i >= 0
      invariant -1 <= i < DIGITS && a.digits[i + 1..] == b.digits[i + 1..]
    {
      if a.digits[i] != b.digits[i] {
        ghost var x, y := a.digits[..], b.digits[..];
        assert x[i + 1..] == a.digits[i + 1..] && y[i + 1..] == b.digits[i + 1..];
        DifferenceDecides(x, y, i);
        return;
      }
      assert a.digits[i..] == [a.digits[i]] + a.digits[i + 1..];
      assert b.digits[i..] == [b.digits[i]] + b.digits[i + 1..];
      i := i - 1;
    }
    assert a.digits[0..] == a.digits[..] && b.digits[0..] == b.digits[..];
  }

  /** What comparing says: signs first, then digits. */
  function Compared(sign1: int, ds1: seq<u32>, sign2: int, ds2: seq<u32>): int
    requires |ds1| == |ds2|
  {
    if sign1 != sign2 then if sign1 < sign2 then -1 else 1
    else if ds1 == ds2 then 0
    else if Before(ds1, ds2) == (sign1 >= 0) then -1 else 1
  }

  /** _CFBigNumCompare */
  method Compare(a: BigNum, b: BigNum) returns (result: int)
    requires a.Valid() && b.Valid()
    ensures result == Compared(a.sign, a.digits[..], b.sign, b.digits[..])
  {
    hide Before;
    if a.sign == b.sign {
      var negative := a.sign < 0;
      var i := MostSignificantDifference(a, b);
      if i == -1 {
        return 0;
      }
      assert a.digits[..][i] != b.digits[..][i];
      if a.digits[i] < b.digits[i] {
        return if !negative then -1 else 1;
      }
      return if negative then -1 else 1;
    }
    return if a.sign < b.sign then -1 else 1;
  }

  /** Canonical numbers compare as their values do, except zero with negative zero. */
  lemma CompareIsExactIff(sign1: int, ds1: seq<u32>, sign2: int, ds2: seq<u32>)
    requires (sign1 == 0 || sign1 == -1) && (sign2 == 0 || sign2 == -1)
    requires |ds1| == |ds2| && Canonical(ds1) && Canonical(ds2)
    ensures Compared(sign1, ds1, sign2, ds2) == Sgn(Signed(sign1, ds1) - Signed(sign2, ds2))
       <==> !(sign1 != sign2 && AllZero(ds1) && AllZero(ds2))
  {
    hide Magnitude, Before;
    ZeroIff(ds1);
    ZeroIff(ds2);
    BeforeIffLess(ds1, ds2);
    BeforeIffLess(ds2, ds1);
    OneIsBefore(ds1, ds2);
  }

  /** Negative zero is below the zero it equals. */
  lemma NegativeZeroIsLess()
    ensures var zero: seq<u32> := [0, 0, 0, 0, 0];
            Compared(-1, zero, 0, zero) == -1 && Signed(-1, zero) == Signed(0, zero) == 0
  {
    FiveDigits(0, 0, 0, 0, 0);
  }

  // ---- Arithmetic ----

  /** The sign of the opposite: a zero keeps its sign. */
  function NegatedSign(sign: int, ds: seq<u32>): int {
    if AllZero(ds) then sign else -1 - sign
  }

  /** _CFBigNumNeg, where r may be a. */
  method Neg(r: BigNum, a: BigNum)
    requires r.Valid() && a.Valid() && (r == a || r.digits != a.digits)
    modifies r, r.digits
    ensures r.Valid() && r.digits == old(r.digits) && r.digits[..] == old(a.digits[..])
    ensures r.Value() == -old(a.Value())
    ensures r.sign == NegatedSign(old(a.sign), old(a.digits[..]))
    ensures r.sign == old(a.sign) <==> Magnitude(old(a.digits[..])) == 0
  {
    hide Magnitude;
    ghost var ds := a.digits[..];
    r.Assign(a.sign, a.digits[0], a.digits[1], a.digits[2], a.digits[3], a.digits[4]);
    assert r.digits[..] == ds;
    var aIsZero, i := true, 0;
    while i < DIGITS
      invariant 0 <= i <= DIGITS && aIsZero && forall k :: 0 <= k < i ==> ds[k] == 0
    {
      if r.digits[i] != 0 {
        assert ds[i] != 0;
        aIsZero := false;
        break;
      }
      i := i + 1;
    }
    ZeroIff(ds);
    if !aIsZero {
      r.sign := r.sign * r.sign - 1;
    }
  }

  /** What a carry out of the last column stands for: 10^45, with the sign of the number. */
  function CarryValue(sign: int, carry: int): int {
    var p: int := Pow(DIGITS);
    if sign < 0 then -(carry * p) else carry * p
  }

  /** The weight of a carry, digit by digit. */
  lemma CarryWeighs(sign: int, carry: int)
    ensures CarryValue(sign, carry)
         == (if sign < 0 then -carry else carry) * 1_000_000_000_000_000_000_000_000_000_000_000_000_000_000_000
  {
    assert Pow(2) == LIMIT * Pow(1) && Pow(3) == LIMIT * Pow(2) && Pow(4) == LIMIT * Pow(3);
    assert Pow(5) == LIMIT * Pow(4);
  }

  /** One column of the same-sign case. */
  lemma ColumnSum(x: seq<u32>, y: seq<u32>, i: nat)
    requires |x| == |y| && i < |x|
    ensures var column: int := (x[i] + y[i] + CarryInto(x, y, i)) % TWO_32;
            && CarryInto(x, y, 0) == 0 && CarryInto(x, y, i + 1) == (if column > LIMIT then 1 else 0)
            && SumDigits(x, y, 0) == []
            && SumDigits(x, y, i + 1) == SumDigits(x, y, i) + [if column > LIMIT then column - LIMIT else column]
  {
  }

  /** The same-sign case: the digits are added column by column. */
  method AddColumns(r: BigNum, a: BigNum, b: BigNum) returns (carry: nat)
    requires r.Valid() && a.Valid() && b.Valid()
    modifies r.digits
    ensures r.digits[..] == SumDigits(old(a.digits[..]), old(b.digits[..]), DIGITS)
    ensures carry == CarryInto(old(a.digits[..]), old(b.digits[..]), DIGITS)
  {
    hide Magnitude, Pow, CarryInto, Column, SumDigits;
    ghost var x, y := a.digits[..], b.digits[..];
    carry := 0;
    ColumnSum(x, y, 0);
    for i := 0 to DIGITS
      invariant carry == CarryInto(x, y, i) && r.digits[..i] == SumDigits(x, y, i)
      invariant a.digits[i..] == x[i..] && b.digits[i..] == y[i..]
    {
      assert a.digits[i..][0] == x[i..][0] && b.digits[i..][0] == y[i..][0];
      ghost var xs, ys := a.digits[i..], b.digits[i..];
      ColumnSum(x, y, i);
      var result: int := (a.digits[i] + b.digits[i] + carry) % TWO_32;
      if result > LIMIT {
        carry := 1;
        result := result - LIMIT;
      } else {
        carry := 0;
      }
      r.digits[i] := result;
      assert r.digits[..i + 1] == r.digits[..i] + [result];
      assert a.digits[i + 1..] == xs[1..] && x[i + 1..] == x[i..][1..];
      assert b.digits[i + 1..] == ys[1..] && y[i + 1..] == y[i..][1..];
    }
    assert r.digits[..DIGITS] == r.digits[..];
  }

  /** The other case: the smaller magnitude is taken from the larger. */
  method SubtractColumns(r: BigNum, big: BigNum, small: BigNum) returns (carry: nat)
    requires r.Valid() && big.Valid() && small.Valid()
    modifies r.digits
    ensures r.digits[..] == DiffDigits(old(big.digits[..]), old(small.digits[..]), DIGITS)
    ensures carry == BorrowInto(old(big.digits[..]), old(small.digits[..]), DIGITS)
  {
    hide Magnitude;
    ghost var x, y := big.digits[..], small.digits[..];
    carry := 0;
    for i := 0 to DIGITS
      invariant carry == BorrowInto(x, y, i) && r.digits[..i] == DiffDigits(x, y, i)
      invariant big.digits[i..] == x[i..] && small.digits[i..] == y[i..]
    {
      assert big.digits[i..][0] == x[i..][0] && small.digits[i..][0] == y[i..][0];
      ghost var xs, ys := big.digits[i..], small.digits[i..];
      var result: int := big.digits[i] - small.digits[i] - carry;
      if result < 0 {
        carry := 1;
        result := result + LIMIT;
      } else {
        carry := 0;
      }
      r.digits[i] := result % TWO_32;
      assert r.digits[..i + 1] == r.digits[..i] + [result % TWO_32];
      assert big.digits[i + 1..] == xs[1..] && x[i + 1..] == x[i..][1..];
      assert small.digits[i + 1..] == ys[1..] && y[i + 1..] == y[i..][1..];
    }
    assert r.digits[..DIGITS] == r.digits[..];
  }

  /** What an addition does, by the signs and digits of its operands: columns are added when the signs are equal, and
      otherwise the number whose digits come first is taken from the other, whose sign the result has. */
  datatype Sum = Same(x: seq<u32>, y: seq<u32>) | Opposite(big: seq<u32>, small: seq<u32>)

  function SumOf(sign1: int, x: seq<u32>, sign2: int, y: seq<u32>): Sum
    requires |x| == |y|
  {
    if sign1 == sign2 then Same(x, y) else if Before(x, y) then Opposite(y, x) else Opposite(x, y)
  }

  function SumSign(sign1: int, x: seq<u32>, sign2: int, y: seq<u32>): int
    requires |x| == |y|
  {
    if sign1 != sign2 && Before(x, y) then sign2 else sign1
  }

  /** No column leaves its 32-bit word. */
  ghost predicate ColumnsFit(sum: Sum)
    requires sum.Same? ==> |sum.x| == |sum.y| == DIGITS
    requires sum.Opposite? ==> |sum.big| == |sum.small| == DIGITS
  {
    match sum
    case Same(x, y) => forall i: nat :: i < DIGITS ==> !SumWraps(x, y, i)
    case Opposite(big, small) => forall i: nat :: i < DIGITS ==> !DifferenceWraps(big, small, i)
  }

  /** No column leaves a digit of one billion or more. */
  ghost predicate ColumnsAreCanonical(sum: Sum)
    requires sum.Same? ==> |sum.x| == |sum.y| == DIGITS
    requires sum.Opposite? ==> |sum.big| == |sum.small| == DIGITS
  {
    match sum
    case Same(x, y) => forall i: nat :: i < DIGITS ==> SumIsDigit(x, y, i)
    case Opposite(big, small) => forall i: nat :: i < DIGITS ==> DifferenceIsDigit(big, small, i)
  }

  /** _CFBigNumAdd, where r may be a or b. With the returned carry weighed by 10^45 the value is conserved exactly when
      no column leaves its word, which canonical numbers never make one do. */
  method Add(r: BigNum, a: BigNum, b: BigNum) returns (carry: nat)
    requires r.Valid() && a.Valid() && b.Valid()
    modifies r, r.digits
    ensures r.Valid() && r.digits == old(r.digits)
    ensures r.Value() + CarryValue(r.sign, carry) == old(a.Value()) + old(b.Value())
       <==> ColumnsFit(SumOf(old(a.sign), old(a.digits[..]), old(b.sign), old(b.digits[..])))
    ensures r.InCanonicalForm()
       <==> ColumnsAreCanonical(SumOf(old(a.sign), old(a.digits[..]), old(b.sign), old(b.digits[..])))
    ensures r.sign == SumSign(old(a.sign), old(a.digits[..]), old(b.sign), old(b.digits[..]))
    ensures old(a.sign) != old(b.sign) ==> carry == 0
    ensures old(a.InCanonicalForm()) && old(b.InCanonicalForm()) ==>
              && r.Value() + CarryValue(r.sign, carry) == old(a.Value()) + old(b.Value())
              && (old(a.sign) != old(b.sign) ==> r.InCanonicalForm())
              && (r.sign < 0 && AllZero(r.digits[..])
                  <==> old(a.sign) < 0 && Magnitude(old(a.digits[..])) == Magnitude(old(b.digits[..]))
                       && (old(b.sign) < 0 ==> Magnitude(old(a.digits[..])) == 0))
  {
    hide Magnitude, SumDigits, DiffDigits, CarryInto, BorrowInto, Pow, Before, Canonical, AllZero, ColumnsFit,
         ColumnsAreCanonical;
    ghost var x, y := a.digits[..], b.digits[..];
    if a.sign == b.sign {
      var sign := a.sign;
      carry := AddColumns(r, a, b);
      r.sign := sign;
      SameSignSum(sign, x, y);
    } else {
      var less := AbsoluteLessThan(a, b);
      var bigNum, smallNum := if less then b else a, if less then a else b;
      var sign := bigNum.sign;
      OneIsBefore(x, y);
      ghost var big, small := bigNum.digits[..], smallNum.digits[..];
      carry := SubtractColumns(r, bigNum, smallNum);
      r.sign := if sign < 0 then -1 else 0;
      OppositeSignSum(sign, big, small);
    }
  }

  lemma SameSignSum(sign: int, x: seq<u32>, y: seq<u32>)
    requires |x| == |y| == DIGITS
    ensures var s, carry := SumDigits(x, y, DIGITS), CarryInto(x, y, DIGITS);
            && (Signed(sign, s) + CarryValue(sign, carry) == Signed(sign, x) + Signed(sign, y)
                <==> ColumnsFit(Same(x, y)))
            && (Canonical(s) <==> ColumnsAreCanonical(Same(x, y)))
            && (Canonical(x) && Canonical(y) ==>
                  && ColumnsFit(Same(x, y))
                  && (AllZero(s) <==> Magnitude(x) == 0 && Magnitude(y) == 0))
  {
    hide Magnitude, SumDigits, CarryInto, Column, Pow, Canonical, SumLost, SumWraps, AllZero, ColumnsAreCanonical;
    assert x[..DIGITS] == x && y[..DIGITS] == y;
    SumConserves(x, y, DIGITS);
    SumLosesIff(x, y, DIGITS);
    SumCanonical(x, y);
    if Canonical(x) && Canonical(y) {
      CanonicalSumsFit(x, y, DIGITS);
      SumIsZeroIff(x, y, DIGITS);
      ZeroIff(x);
      ZeroIff(y);
    }
  }

  lemma SumCanonical(x: seq<u32>, y: seq<u32>)
    requires |x| == |y| == DIGITS
    ensures Canonical(SumDigits(x, y, DIGITS)) <==> ColumnsAreCanonical(Same(x, y))
  {
    hide SumDigits, SumIsDigit, Canonical;
    SumIsCanonicalIff(x, y, DIGITS);
  }

  lemma OppositeSignSum(sign: int, big: seq<u32>, small: seq<u32>)
    requires |big| == |small| == DIGITS && !Before(big, small)
    ensures var s := DiffDigits(big, small, DIGITS);
            && BorrowInto(big, small, DIGITS) == 0
            && (Signed(sign, s) == Signed(sign, big) - Signed(sign, small) <==> ColumnsFit(Opposite(big, small)))
            && (Canonical(s) <==> ColumnsAreCanonical(Opposite(big, small)))
            && (Canonical(big) && Canonical(small) ==>
                  && ColumnsFit(Opposite(big, small)) && ColumnsAreCanonical(Opposite(big, small))
                  && (AllZero(s) <==> Magnitude(big) == Magnitude(small)))
  {
    hide Magnitude, DiffDigits, BorrowInto, Difference, Pow, Canonical, Before, AllZero;
    assert big[..DIGITS] == big && small[..DIGITS] == small;
    NoBorrowLeft(big, small, DIGITS);
    DiffConserves(big, small, DIGITS);
    DiffGainsIff(big, small, DIGITS);
    DiffIsCanonicalIff(big, small, DIGITS);
    ZeroIff(DiffDigits(big, small, DIGITS));
    if Canonical(big) && Canonical(small) {
      CanonicalDifferencesFit(big, small, DIGITS);
    }
  }

  /** _CFBigNumSub: the sum with the opposite of b. */
  method Sub(r: BigNum, a: BigNum, b: BigNum) returns (carry: nat)
    requires r.Valid() && a.Valid() && b.Valid()
    modifies r, r.digits
    ensures r.Valid() && r.digits == old(r.digits)
    ensures var sum := SumOf(old(a.sign), old(a.digits[..]),
                             NegatedSign(old(b.sign), old(b.digits[..])), old(b.digits[..]));
            && (r.Value() + CarryValue(r.sign, carry) == old(a.Value()) - old(b.Value()) <==> ColumnsFit(sum))
            && (r.InCanonicalForm() <==> ColumnsAreCanonical(sum))
            && (sum.Opposite? ==> carry == 0)
    ensures old(a.InCanonicalForm()) && old(b.InCanonicalForm()) ==>
              && r.Value() + CarryValue(r.sign, carry) == old(a.Value()) - old(b.Value())
              && (old(a.sign) != NegatedSign(old(b.sign), old(b.digits[..])) ==> r.InCanonicalForm())
              && (r.sign < 0 && AllZero(r.digits[..])
                  <==> old(a.sign) < 0 && Magnitude(old(a.digits[..])) == Magnitude(old(b.digits[..]))
                       && (NegatedSign(old(b.sign), old(b.digits[..])) < 0 ==> Magnitude(old(a.digits[..])) == 0))
  {
    hide Magnitude, Pow, Canonical, AllZero, ColumnsFit, ColumnsAreCanonical, Before;
    var nb := new BigNum();
    Neg(nb, b);
    carry := Add(r, a, nb);
  }

  /** A column of one billion is left as it is: 999999999 + 1 has a digit out of range, and compares as less than the
      number it equals. */
  lemma BillionIsNotCarried()
    ensures var nines, one: seq<u32> := [999_999_999, 0, 0, 0, 0], [1, 0, 0, 0, 0];
            var sum := SumDigits(nines, one, DIGITS);
            && sum == [1_000_000_000, 0, 0, 0, 0] && !Canonical(sum)
            && Magnitude(sum) == Magnitude([0, 1, 0, 0, 0]) && Compared(0, sum, 0, [0, 1, 0, 0, 0]) == -1
  {
    hide Magnitude, SumDigits, Before;
    NinesPlusOne();
    var sum: seq<u32> := [1_000_000_000, 0, 0, 0, 0];
    FiveDigits(1_000_000_000, 0, 0, 0, 0);
    FiveDigits(0, 1, 0, 0, 0);
    DifferenceDecides(sum, [0, 1, 0, 0, 0], 1);
    assert sum[0] == LIMIT;
  }

  lemma NinesPlusOne()
    ensures SumDigits([999_999_999, 0, 0, 0, 0], [1, 0, 0, 0, 0], DIGITS) == [1_000_000_000, 0, 0, 0, 0]
  {
    var nines, one: seq<u32> := [999_999_999, 0, 0, 0, 0], [1, 0, 0, 0, 0];
    assert CarryInto(nines, one, 0) == CarryInto(nines, one, 1) == CarryInto(nines, one, 2) == 0;
    assert CarryInto(nines, one, 3) == CarryInto(nines, one, 4) == CarryInto(nines, one, 5) == 0;
    assert SumDigits(nines, one, 1) == [1_000_000_000];
    assert SumDigits(nines, one, 2) == [1_000_000_000, 0];
    assert SumDigits(nines, one, 3) == [1_000_000_000, 0, 0];
    assert SumDigits(nines, one, 4) == [1_000_000_000, 0, 0, 0];
  }

  /** Digits far out of range lose value: 2^32 does not fit a column. */
  lemma OverflowIsLost()
    ensures !ColumnsFit(Same([0xFFFF_FFFF, 0, 0, 0, 0], [1, 0, 0, 0, 0]))
  {
    assert SumWraps([0xFFFF_FFFF, 0, 0, 0, 0], [1, 0, 0, 0, 0], 0);
  }
}
