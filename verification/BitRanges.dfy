/** A store of buckets as a sequence of bits, and what mapping a range of bits does to it. */
module BitRanges {
  import opened BitBuckets

  ghost function BitAt(b: seq<bv8>, j: nat): bool
    requires j < 8 * |b|
  {
    At(b[j / 8], j % 8)
  }

  ghost function AllBits(b: seq<bv8>): (s: seq<bool>)
    ensures |s| == 8 * |b|
    ensures forall j: nat :: j < |s| ==> s[j] == BitAt(b, j)
  {
    seq(8 * |b|, j requires 0 <= j < 8 * |b| => BitAt(b, j))
  }

  /** Two stores with the same buckets as far as bit n have the same first n bits. */
  lemma SameBits(b: seq<bv8>, c: seq<bv8>, n: nat)
    requires n <= 8 * |b| && n <= 8 * |c|
    requires forall k: nat :: k < |b| && k < |c| ==> b[k] == c[k]
    ensures AllBits(b)[..n] == AllBits(c)[..n]
  {
    hide At;
    forall j: nat | j < n
      ensures AllBits(b)[j] == AllBits(c)[j]
    {
      assert b[j / 8] == c[j / 8];
    }
  }

  /** What a mapper makes of the bits it is given; the counting one changes nothing. */
  datatype Mapper = Zeros | Ones | Flips | Counts(value: bool)

  function Mapped(mp: Mapper, bit: bool): bool {
    match mp
    case Zeros => false
    case Ones => true
    case Flips => !bit
    case Counts(_) => bit
  }

  /** The bucket a mapper returns for a bucket. */
  function NewBucket(mp: Mapper, b: bv8): bv8 {
    match mp
    case Zeros => 0
    case Ones => !(0 as bv8)
    case Flips => !(0 as bv8) ^ b
    case Counts(_) => b
  }

  lemma NewBucketBits(mp: Mapper, b: bv8, i: Bit)
    ensures At(NewBucket(mp, b), i) == Mapped(mp, At(b, i))
  {
  }

  /** The bits from lo to hi are mapped, and no others. */
  ghost function MapRange(mp: Mapper, bits: seq<bool>, lo: nat, hi: nat): (s: seq<bool>)
    ensures |s| == |bits|
    ensures forall j: nat :: j < |s| ==> s[j] == if lo <= j < hi then Mapped(mp, bits[j]) else bits[j]
  {
    seq(|bits|, j requires 0 <= j < |bits| => if lo <= j < hi then Mapped(mp, bits[j]) else bits[j])
  }

  lemma MapRangeOn(mp: Mapper, bits: seq<bool>, lo: nat, mid: nat, hi: nat)
    requires lo <= mid <= hi
    ensures MapRange(mp, MapRange(mp, bits, lo, mid), mid, hi) == MapRange(mp, bits, lo, hi)
    ensures MapRange(mp, bits, lo, lo) == bits
  {
  }

  /** Blending one bucket under a mask maps the bits of the mask. */
  lemma MapBucket(mp: Mapper, b: seq<bv8>, k: nat, bottom: Bit, top: Bit)
    requires k < |b| && bottom <= top
    ensures AllBits(b[k := Blend(b[k], NewBucket(mp, b[k]), Mask(bottom, top))])
         == MapRange(mp, AllBits(b), 8 * k + bottom, 8 * k + top + 1)
  {
    hide Mapped, NewBucket, Blend, Mask, At;
    var b' := b[k := Blend(b[k], NewBucket(mp, b[k]), Mask(bottom, top))];
    forall j: nat | j < 8 * |b|
      ensures AllBits(b')[j] == MapRange(mp, AllBits(b), 8 * k + bottom, 8 * k + top + 1)[j]
    {
      var i := j % 8;
      if j / 8 == k {
        BlendBits(b[k], NewBucket(mp, b[k]), Mask(bottom, top), i);
        NewBucketBits(mp, b[k], i);
        MaskBits(bottom, top, i);
      }
    }
  }

  /** A whole bucket is replaced without a blend. */
  lemma MapWholeBucket(mp: Mapper, b: seq<bv8>, k: nat)
    requires k < |b|
    ensures AllBits(b[k := NewBucket(mp, b[k])]) == MapRange(mp, AllBits(b), 8 * k, 8 * k + 8)
  {
  }

  // ---- Counting ----

  /** How many of the bits from lo to hi have the value. */
  ghost function CountIn(bits: seq<bool>, lo: nat, hi: nat, value: bool): nat
    requires hi <= |bits|
  {
    if hi <= lo then 0 else CountIn(bits, lo, hi - 1, value) + One(bits[hi - 1] == value)
  }

  /** The places from lo to hi that hold the value. */
  ghost function Places(bits: seq<bool>, lo: nat, hi: nat, value: bool): set<nat>
    requires hi <= |bits|
  {
    set j: nat | lo <= j < hi && bits[j] == value
  }

  lemma {:induction false} CountInIsPlaces(bits: seq<bool>, lo: nat, hi: nat, value: bool)
    requires hi <= |bits|
    ensures CountIn(bits, lo, hi, value) == |Places(bits, lo, hi, value)|
    decreases hi
  {
    if hi <= lo {
      assert Places(bits, lo, hi, value) == {};
    } else {
      CountInIsPlaces(bits, lo, hi - 1, value);
      var before := Places(bits, lo, hi - 1, value);
      assert Places(bits, lo, hi, value) == if bits[hi - 1] == value then before + {hi - 1} else before;
    }
  }

  lemma {:induction false} CountInOn(bits: seq<bool>, lo: nat, mid: nat, hi: nat, value: bool)
    requires lo <= mid <= hi <= |bits|
    ensures CountIn(bits, lo, hi, value) == CountIn(bits, lo, mid, value) + CountIn(bits, mid, hi, value)
    decreases hi
  {
    if mid < hi {
      CountInOn(bits, lo, mid, hi - 1, value);
    }
  }

  /** What the counting mapper counts from lo to hi; the others count nothing. */
  ghost function CountedIn(mp: Mapper, bits: seq<bool>, lo: nat, hi: nat): nat
    requires hi <= |bits|
  {
    if mp.Counts? then CountIn(bits, lo, hi, mp.value) else 0
  }

  /** A range mapped and counted up to mid, and then on to hi. */
  lemma MappedOn(mp: Mapper, bits: seq<bool>, lo: nat, mid: nat, hi: nat)
    requires lo <= mid <= hi <= |bits|
    ensures MapRange(mp, MapRange(mp, bits, lo, mid), mid, hi) == MapRange(mp, bits, lo, hi)
    ensures CountedIn(mp, bits, lo, mid) + CountedIn(mp, MapRange(mp, bits, lo, mid), mid, hi)
         == CountedIn(mp, bits, lo, hi)
  {
    MapRangeOn(mp, bits, lo, mid, hi);
    if mp.Counts? {
      assert MapRange(mp, bits, lo, mid) == bits;
      CountInOn(bits, lo, mid, hi, mp.value);
    }
  }

  lemma MappedNothing(mp: Mapper, bits: seq<bool>, lo: nat)
    requires lo <= |bits|
    ensures MapRange(mp, bits, lo, lo) == bits && CountedIn(mp, bits, lo, lo) == 0
  {
  }

  /** The bits of a bucket that a count looks at. */
  function Counted(b: bv8, mask: bv8, value: bool): bv8 {
    if value then b & mask else !b & mask
  }

  lemma CountedBits(b: bv8, mask: bv8, value: bool, i: Bit)
    ensures At(Counted(b, mask, value), i) <==> At(mask, i) && At(b, i) == value
  {
  }

  /** Counting a bucket under a mask counts the bits of the mask. */
  lemma CountBucket(b: seq<bv8>, k: nat, bottom: Bit, top: Bit, value: bool)
    requires k < |b| && bottom <= top
    ensures SetBefore(Counted(b[k], Mask(bottom, top), value), 8)
         == CountIn(AllBits(b), 8 * k + bottom, 8 * k + top + 1, value)
  {
    hide Mask, Counted, At, SetBefore, CountIn;
    var c, bits := Counted(b[k], Mask(bottom, top), value), AllBits(b);
    forall i: Bit
      ensures At(c, i) <==> bottom <= i <= top && bits[8 * k + i] == value
    {
      CountedBits(b[k], Mask(bottom, top), value, i);
      MaskBits(bottom, top, i);
      assert bits[8 * k + i] == BitAt(b, 8 * k + i);
    }
    CountPrefix(c, bits, 8 * k, bottom, top, value, 8);
  }

  lemma {:induction false} CountPrefix(c: bv8, bits: seq<bool>, base: nat, bottom: Bit, top: Bit, value: bool, n: nat)
    requires bottom <= top && n <= 8 && base + 8 <= |bits|
    requires forall i: Bit :: At(c, i) <==> bottom <= i <= top && bits[base + i] == value
    ensures SetBefore(c, n) == CountIn(bits, base + bottom, base + if n <= top then n else top + 1, value)
  {
    hide At;
    if n > 0 {
      CountPrefix(c, bits, base, bottom, top, value, n - 1);
    }
  }

  // ---- Prefixes ----

  lemma CountInNothing(bits: seq<bool>, lo: nat, value: bool)
    requires lo <= |bits|
    ensures CountIn(bits, lo, lo, value) == 0
  {
  }

  lemma {:induction false} CountInPrefix(bits: seq<bool>, n: nat, lo: nat, hi: nat, value: bool)
    requires hi <= n <= |bits|
    ensures CountIn(bits, lo, hi, value) == CountIn(bits[..n], lo, hi, value)
    decreases hi
  {
    if lo < hi {
      CountInPrefix(bits, n, lo, hi - 1, value);
    }
  }

  lemma MapRangePrefix(mp: Mapper, bits: seq<bool>, n: nat, lo: nat, hi: nat)
    requires n <= |bits|
    ensures MapRange(mp, bits, lo, hi)[..n] == MapRange(mp, bits[..n], lo, hi)
  {
  }

  lemma MapToConstant(bits: seq<bool>, lo: nat, len: nat, value: bool)
    requires lo + len <= |bits|
    ensures MapRange(if value then Ones else Zeros, bits, lo, lo + len)
         == bits[..lo] + seq(len, _ => value) + bits[lo + len..]
  {
  }

  lemma GrownBits(bits: seq<bool>, was: seq<bool>, n: nat)
    requires |was| <= n <= |bits| && bits[..|was|] == was
    ensures MapRange(Zeros, bits, |was|, n)[..n] == was + seq(n - |was|, _ => false)
  {
  }

  /** A bucket that differs in one bit makes a sequence that differs in one bit. */
  lemma OneBucket(b: seq<bv8>, j: nat, w: bv8, value: bool)
    requires j < 8 * |b|
    requires forall i: Bit :: At(w, i) == if i == j % 8 then value else At(b[j / 8], i)
    ensures AllBits(b[j / 8 := w]) == AllBits(b)[j := value]
  {
  }

  lemma SetInBucket(b: seq<bv8>, j: nat)
    requires j < 8 * |b|
    ensures AllBits(b[j / 8 := b[j / 8] | Single(j % 8)]) == AllBits(b)[j := true]
  {
    hide At, Single;
    forall i: Bit
      ensures At(b[j / 8] | Single(j % 8), i) == if i == j % 8 then true else At(b[j / 8], i)
    {
      SetBits(b[j / 8], j % 8, i);
    }
    OneBucket(b, j, b[j / 8] | Single(j % 8), true);
  }

  lemma ClearInBucket(b: seq<bv8>, j: nat)
    requires j < 8 * |b|
    ensures AllBits(b[j / 8 := b[j / 8] & !Single(j % 8)]) == AllBits(b)[j := false]
  {
    hide At, Single;
    forall i: Bit
      ensures At(b[j / 8] & !Single(j % 8), i) == if i == j % 8 then false else At(b[j / 8], i)
    {
      SetBits(b[j / 8], j % 8, i);
    }
    OneBucket(b, j, b[j / 8] & !Single(j % 8), false);
  }

  lemma FlipInBucket(b: seq<bv8>, j: nat)
    requires j < 8 * |b|
    ensures AllBits(b[j / 8 := b[j / 8] ^ Single(j % 8)]) == AllBits(b)[j := !AllBits(b)[j]]
  {
    hide At, Single;
    forall i: Bit
      ensures At(b[j / 8] ^ Single(j % 8), i) == if i == j % 8 then !BitAt(b, j) else At(b[j / 8], i)
    {
      SetBits(b[j / 8], j % 8, i);
    }
    OneBucket(b, j, b[j / 8] ^ Single(j % 8), !BitAt(b, j));
  }
}
