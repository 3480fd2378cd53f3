/** Bytes, machine words and big-endian integers, as the binary property list format uses them. */
module Bytes {

  datatype Option<+T> = None | Some(value: T)

  type byte = b: int | 0 <= b < 256
  type u16 = x: int | 0 <= x < 0x1_0000
  type u32 = x: int | 0 <= x < 0x1_0000_0000
  type u64 = x: int | 0 <= x < 0x1_0000_0000_0000_0000

  const TWO_32 := 0x1_0000_0000
  const TWO_64 := 0x1_0000_0000_0000_0000
  const LONG_MAX := 0x7FFF_FFFF_FFFF_FFFF

  /** 256 to the power w: the first value that does not fit in w bytes. */
  function Pow256(w: nat): (p: nat)
    ensures p > 0
  {
    if w == 0 then 1 else 256 * Pow256(w - 1)
  }

  lemma Pow256Values()
    ensures Pow256(1) == 0x100 && Pow256(2) == 0x1_0000 && Pow256(4) == 0x1_0000_0000
    ensures Pow256(8) == TWO_64
  {
  }

  lemma {:induction false} Pow256Monotone(a: nat, b: nat)
    requires a <= b
    ensures Pow256(a) <= Pow256(b)
    decreases b
  {
    if a < b {
      Pow256Monotone(a, b - 1);
    }
  }

  /** The w low bytes of v, most significant first. */
  function ToBE(v: nat, w: nat): (s: seq<byte>)
    ensures |s| == w
    decreases w
  {
    if w == 0 then [] else ToBE(v / 256, w - 1) + [v % 256]
  }

  /** The value the sized-integer reader computes: eight bits are shifted in per byte and the
      accumulator is 64 bits wide, so only the low 64 bits survive. */
  function SizedInt(s: seq<byte>): (v: u64)
    decreases |s|
  {
    if s == [] then 0 else (SizedInt(s[..|s| - 1]) * 256 + s[|s| - 1]) % TWO_64
  }

  lemma {:induction false} SizedIntInvertsToBE(v: nat, w: nat)
    requires v < Pow256(w) && v < TWO_64
    ensures SizedInt(ToBE(v, w)) == v
    decreases w
  {
    if w > 0 {
      var s := ToBE(v, w);
      SizedIntInvertsToBE(v / 256, w - 1);
      assert s[..w - 1] == ToBE(v / 256, w - 1);
    }
  }

  /** The number the bytes write, most significant byte first, whatever its size. */
  function Value(s: seq<byte>): nat {
    if s == [] then 0 else s[0] * Pow256(|s| - 1) + Value(s[1..])
  }

  lemma {:induction false} ValueSnoc(s: seq<byte>, b: byte)
    ensures Value(s + [b]) == 256 * Value(s) + b
  {
    if s == [] {
    } else {
      ValueSnoc(s[1..], b);
      assert (s + [b])[1..] == s[1..] + [b];
      assert s[0] * (256 * Pow256(|s| - 1)) == 256 * (s[0] * Pow256(|s| - 1));
    }
  }

  lemma ModOfMod(v: nat, b: byte)
    ensures (v % TWO_64 * 256 + b) % TWO_64 == (256 * v + b) % TWO_64
  {
    var q := v / TWO_64;
    assert 256 * v + b == TWO_64 * (256 * q) + (v % TWO_64 * 256 + b);
  }

  /** The accumulator keeps the number modulo 2^64, of any number of bytes. */
  lemma {:induction false} SizedIntIsValue(s: seq<byte>)
    ensures SizedInt(s) == Value(s) % TWO_64
    decreases |s|
  {
    if s == [] {
    } else {
      var init, b := s[..|s| - 1], s[|s| - 1];
      SizedIntIsValue(init);
      assert s == init + [b];
      ValueSnoc(init, b);
      ModOfMod(Value(init), b);
    }
  }

  /** The bytes written for v write the low w bytes of it. */
  lemma {:induction false} ValueOfToBE(v: nat, w: nat)
    ensures Value(ToBE(v, w)) == v % Pow256(w)
    decreases w
  {
    if w == 0 {
    } else {
      ValueOfToBE(v / 256, w - 1);
      ValueSnoc(ToBE(v / 256, w - 1), v % 256);
      DigitMod(v, Pow256(w - 1));
    }
  }

  lemma DigitMod(v: nat, p: nat)
    requires p > 0
    ensures v % (256 * p) == 256 * (v / 256 % p) + v % 256
  {
    var q, r := v / 256 / p, v / 256 % p;
    assert v / 256 == q * p + r;
    assert v == q * (256 * p) + (256 * r + v % 256);
    assert 256 * r + v % 256 < 256 * p;
    ModIs(v, q, 256 * r + v % 256, 256 * p);
  }

  lemma ModIs(x: int, q: int, r: int, n: int)
    requires 0 <= r < n && x == q * n + r
    ensures x % n == r
  {
    var d := x / n - q;
    assert d * n == r - x % n;
    assert d >= 1 ==> d * n >= n;
    assert d <= -1 ==> d * n <= -n;
  }

  /** Leading zeros do not count. */
  lemma {:induction false} ZerosThenOne(n: nat)
    ensures Value(seq(n, _ => 0)) == 0 && Value(seq(n, _ => 0) + [1]) == 1
    decreases n
  {
    var zeros: seq<byte> := seq(n, _ => 0);
    if n > 0 {
      ZerosThenOne(n - 1);
      assert zeros[1..] == seq(n - 1, _ => 0);
    }
    ValueSnoc(zeros, 1);
  }

  /** The accumulating loop of the sized-integer reader. */
  method GetSizedInt(data: seq<byte>, at: nat, size: nat) returns (res: u64)
    requires at + size <= |data|
    ensures res == SizedInt(data[at..at + size]) == Value(data[at..at + size]) % TWO_64
  {
    res := 0;
    SizedIntIsValue(data[at..at + size]);
    for idx := 0 to size
      invariant res == SizedInt(data[at..at + idx])
    {
      assert data[at..at + idx + 1][..idx] == data[at..at + idx];
      res := (res * 256 + data[at + idx]) % TWO_64;
    }
  }

  /** Big-endian integers of one width, one after the other: an offset table, or a run of object references. */
  function ConcatBE(vs: seq<nat>, w: nat): (s: seq<byte>)
    decreases |vs|
  {
    if vs == [] then [] else ConcatBE(vs[..|vs| - 1], w) + ToBE(vs[|vs| - 1], w)
  }

  lemma {:induction false} ConcatBELength(vs: seq<nat>, w: nat)
    ensures |ConcatBE(vs, w)| == |vs| * w
    decreases |vs|
  {
    if vs != [] {
      ConcatBELength(vs[..|vs| - 1], w);
      assert |vs| * w == (|vs| - 1) * w + w;
    }
  }

  lemma MulBound(k: nat, n: nat, w: nat)
    requires k < n
    ensures 0 <= k * w && k * w + w <= n * w
  {
    assert (k + 1) * w <= n * w;
  }

  /** Entry k of such a run starts at k times the width. */
  lemma {:induction false} ConcatBEEntry(vs: seq<nat>, w: nat, k: nat)
    requires k < |vs|
    ensures 0 <= k * w && k * w + w <= |ConcatBE(vs, w)|
    ensures ConcatBE(vs, w)[k * w..k * w + w] == ToBE(vs[k], w)
    decreases |vs|
  {
    ConcatBELength(vs, w);
    MulBound(k, |vs|, w);
    var init := vs[..|vs| - 1];
    ConcatBELength(init, w);
    if k < |vs| - 1 {
      ConcatBEEntry(init, w, k);
      MulBound(k, |vs| - 1, w);
      assert ConcatBE(vs, w)[k * w..k * w + w] == ConcatBE(init, w)[k * w..k * w + w];
    }
  }

  /** The naturals below n. */
  ghost function Below(n: nat): (s: set<nat>)
    ensures |s| == n
    ensures forall o: nat :: o in s <==> o < n
  {
    if n == 0 then {} else Below(n - 1) + {n - 1}
  }

  lemma {:induction false} SubsetIsSmaller<T>(a: set<T>, b: set<T>)
    requires a <= b
    ensures |a| <= |b|
    decreases a
  {
    if a != {} {
      var x :| x in a;
      SubsetIsSmaller(a - {x}, b - {x});
    }
  }

  lemma SliceOfSlice<T>(s: seq<T>, a: nat, b: nat, i: nat, j: nat)
    requires a <= b <= |s| && i <= j <= b - a
    ensures s[a..b][i..j] == s[a + i..a + j]
  {
    forall k | 0 <= k < j - i
      ensures s[a..b][i..j][k] == s[a + i..a + j][k]
    {
      assert s[a..b][i + k] == s[a + i + k];
    }
  }
}
