/** One bucket of a bit vector (CFBitVector.c, lines 107-113 and 323-333): bit 0 is the most significant. */
module BitBuckets {

  type Bit = i: int | 0 <= i < 8

  /** The bucket with only bit i set. */
  function Single(i: Bit): bv8 {
    match i
    case 0 => 0x80 case 1 => 0x40 case 2 => 0x20 case 3 => 0x10
    case 4 => 0x08 case 5 => 0x04 case 6 => 0x02 case _ => 0x01
  }

  predicate At(b: bv8, i: Bit) {
    b & Single(i) != 0
  }

  /** __CFBitVectorBit reads bit i. */
  lemma ShiftReadsBit(b: bv8, i: Bit)
    ensures (b >> (7 - i)) & 1 == 1 <==> At(b, i)
    ensures (b >> (7 - i)) & 1 == 1 || (b >> (7 - i)) & 1 == 0
  {
  }

  /** __CFBitBucketMask */
  function Mask(bottomBit: Bit, topBit: Bit): bv8
    requires bottomBit <= topBit
  {
    var shiftL := 8 - topBit + bottomBit - 1;
    ((0xFF as bv8) << shiftL) >> bottomBit
  }

  /** The mask has exactly the bits from bottom to top. */
  lemma MaskBits(bottomBit: Bit, topBit: Bit, i: Bit)
    requires bottomBit <= topBit
    ensures At(Mask(bottomBit, topBit), i) <==> bottomBit <= i <= topBit
  {
  }

  /** What the traversal stores: the bits of v within the mask, and those of b elsewhere. */
  function Blend(b: bv8, v: bv8, m: bv8): bv8 {
    (b & !m) | (v & m)
  }

  predicate IsSingle(w: bv8) {
    w == 0x80 || w == 0x40 || w == 0x20 || w == 0x10 || w == 0x08 || w == 0x04 || w == 0x02 || w == 0x01
  }

  lemma SinglesDiffer(i: Bit, j: Bit)
    ensures IsSingle(Single(i)) && (Single(i) == Single(j) <==> i == j)
  {
  }

  lemma BlendBits(b: bv8, v: bv8, m: bv8, i: Bit)
    ensures At(Blend(b, v, m), i) <==> if At(m, i) then At(v, i) else At(b, i)
    ensures Blend(b, v, 0xFF) == v && At(0xFF, i)
  {
  }

  /** Flipping a bit is clearing it where it is set, and setting it where it is not. */
  lemma FlipIs(b: bv8, x: bv8)
    requires IsSingle(x)
    ensures b ^ x == if b & x != 0 then b & !x else b | x
  {
  }

  lemma SetOrClear(b: bv8, i: Bit, j: Bit)
    ensures At(b | Single(i), j) <==> i == j || At(b, j)
    ensures At(b & !Single(i), j) <==> i != j && At(b, j)
  {
  }

  /** The ways one bit is set, cleared and flipped touch no other. */
  lemma SetBits(b: bv8, i: Bit, j: Bit)
    ensures At(b | Single(i), j) <==> i == j || At(b, j)
    ensures At(b & !Single(i), j) <==> i != j && At(b, j)
    ensures At(b ^ Single(i), j) <==> (if i == j then !At(b, j) else At(b, j))
  {
    hide Single, IsSingle;
    SetOrClear(b, i, j);
    SinglesDiffer(i, i);
    FlipIs(b, Single(i));
  }

  lemma ConstantBits(b: bv8, i: Bit)
    ensures !At(0, i) && At(0xFF, i) && (At(0xFF ^ b, i) <==> !At(b, i)) && (At(!b, i) <==> !At(b, i))
  {
  }

  // ---- Counting ----

  function One(p: bool): nat {
    if p then 1 else 0
  }

  /** How many of the first n bits a bucket has set. */
  function SetBefore(b: bv8, n: nat): nat
    requires n <= 8
  {
    if n == 0 then 0 else SetBefore(b, n - 1) + One(At(b, n - 1))
  }

  /** __CFNibbleBitCount */
  function NibbleCount(n: bv8): nat {
    match n
    case 1 => 1 case 2 => 1 case 3 => 2 case 4 => 1 case 5 => 2 case 6 => 2 case 7 => 3
    case 8 => 1 case 9 => 2 case 10 => 2 case 11 => 3 case 12 => 2 case 13 => 3 case 14 => 3 case 15 => 4
    case _ => 0
  }

  lemma NibbleBits(n: bv8)
    requires n < 16
    ensures NibbleCount(n) == One(At(n, 4)) + One(At(n, 5)) + One(At(n, 6)) + One(At(n, 7))
  {
  }

  lemma NibblesOf(b: bv8)
    ensures b & 0xF < 16 && (b >> 4) & 0xF < 16
    ensures At(b & 0xF, 4) == At(b, 4) && At(b & 0xF, 5) == At(b, 5)
    ensures At(b & 0xF, 6) == At(b, 6) && At(b & 0xF, 7) == At(b, 7)
    ensures At((b >> 4) & 0xF, 4) == At(b, 0) && At((b >> 4) & 0xF, 5) == At(b, 1)
    ensures At((b >> 4) & 0xF, 6) == At(b, 2) && At((b >> 4) & 0xF, 7) == At(b, 3)
  {
  }

  lemma UnrollSetBefore(b: bv8)
    ensures SetBefore(b, 8) == One(At(b, 0)) + One(At(b, 1)) + One(At(b, 2)) + One(At(b, 3))
                               + One(At(b, 4)) + One(At(b, 5)) + One(At(b, 6)) + One(At(b, 7))
  {
    hide At, One;
    assert SetBefore(b, 1) == One(At(b, 0));
    assert SetBefore(b, 3) == SetBefore(b, 1) + One(At(b, 1)) + One(At(b, 2));
    assert SetBefore(b, 5) == SetBefore(b, 3) + One(At(b, 3)) + One(At(b, 4));
    assert SetBefore(b, 7) == SetBefore(b, 5) + One(At(b, 5)) + One(At(b, 6));
  }

  /** The loop of __CFBitVectorCountBits, over the two nibbles of a bucket. */
  method CountBits(b: bv8) returns (count: nat)
    ensures count == SetBefore(b, 8)
  {
    hide NibbleCount, At, One, SetBefore;
    var val := b;
    count := NibbleCount(val & 0xF);
    val := val >> 4;
    count := count + NibbleCount(val & 0xF);
    NibblesOf(b);
    NibbleBits(b & 0xF);
    NibbleBits(val & 0xF);
    UnrollSetBefore(b);
  }
}
