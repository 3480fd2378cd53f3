/** Each object encoding reads back as the object it encodes. */
module PlistObjects {
  import opened Bytes
  import opened PlistTree
  import opened PlistFormat
  import opened PlistEncoding
  import opened Powers

  /** The bytes e stand at off. */
  ghost predicate At(data: seq<byte>, off: nat, e: seq<byte>) {
    off + |e| <= |data| && data[off..off + |e|] == e
  }

  lemma AtByte(data: seq<byte>, off: nat, e: seq<byte>, i: nat)
    requires At(data, off, e) && i < |e|
    ensures data[off + i] == e[i]
  {
  }

  lemma AtSplit(data: seq<byte>, off: nat, a: seq<byte>, b: seq<byte>)
    requires At(data, off, a + b)
    ensures At(data, off, a) && At(data, off + |a|, b)
  {
    assert data[off..off + |a|] == (a + b)[..|a|] by {
      assert data[off..off + |a|] == data[off..off + |a + b|][..|a|];
    }
    assert data[off + |a|..off + |a| + |b|] == (a + b)[|a|..] by {
      assert data[off + |a|..off + |a| + |b|] == data[off..off + |a + b|][|a|..];
    }
  }

  /** The reader keeps only the low word of a 128-bit integer. */
  function LowWord(v: Plist): Plist {
    if v.Int128? then Int128(0, v.low) else v
  }

  lemma Pow2Values()
    ensures Pow2(0) == 1 && Pow2(1) == 2 && Pow2(2) == 4 && Pow2(3) == 8 && Pow2(4) == 16
  {
  }

  lemma AcceptedBounds(data: seq<byte>, t: Trailer)
    requires Accepted(data, t)
    ensures TrailerFits(data, t)
    ensures 9 <= t.offsetTableOffset < |data| && 1 <= t.objectRefSize && t.offsetTableOffset <= LONG_MAX
  {
  }

  // ---- Integers and counts ----

  /** The exponent in the marker of an encoded integer. */
  function Exponent(v: u64): nat {
    if v <= 0xFF then 0 else if v <= 0xFFFF then 1 else if v <= 0xFFFF_FFFF then 2 else 3
  }

  lemma IntBytes(v: u64)
    ensures Pow2(Exponent(v)) <= 8
    ensures EncodeInt(v) == [MARKER_INT + Exponent(v)] + ToBE(v, Pow2(Exponent(v)))
    ensures SizedInt(ToBE(v, Pow2(Exponent(v)))) == v
  {
    Pow2Values();
    Pow256Values();
    SizedIntInvertsToBE(v, Pow2(Exponent(v)));
  }

  lemma ReadIntBack(data: seq<byte>, pos: nat, end: nat, v: u64)
    requires At(data, pos, EncodeInt(v)) && pos + |EncodeInt(v)| <= end + 1 && end < |data|
    ensures ReadInt(data, pos, end) == Some((v, pos + |EncodeInt(v)|))
  {
    hide SizedInt, ToBE, EncodeInt;
    var n := Pow2(Exponent(v));
    IntBytes(v);
    AtByte(data, pos, EncodeInt(v), 0);
    AtSplit(data, pos, [MARKER_INT + Exponent(v)], ToBE(v, n));
    assert data[pos] / 16 == 1 && data[pos] % 16 == Exponent(v);
    assert n % 256 == n;
  }

  lemma CountBack(data: seq<byte>, t: Trailer, off: nat, marker: byte, n: u64)
    requires Accepted(data, t)
    requires marker <= 0xF0 && marker % 16 == 0 && n <= LONG_MAX
    requires At(data, off, EncodeCount(marker, n)) && off + |EncodeCount(marker, n)| <= t.offsetTableOffset
    ensures data[off] / 16 == marker / 16
    ensures CountAt(data, t, off) == Some((n, off + |EncodeCount(marker, n)|))
  {
    hide Accepted, TrailerFits, EncodeInt, ReadInt;
    AcceptedBounds(data, t);
    AtByte(data, off, EncodeCount(marker, n), 0);
    if n >= 15 {
      AtSplit(data, off, [marker + 15], EncodeInt(n));
      ReadIntBack(data, off + 1, t.offsetTableOffset - 1, n);
    }
  }

  // ---- Leaves ----

  lemma ModShift(x: nat, y: nat)
    ensures (x % TWO_64 * 256 + y) % TWO_64 == (x * 256 + y) % TWO_64
  {
  }

  /** x shifted up by w bytes. */
  function Shifted(x: nat, w: nat): nat {
    if w == 0 then x else 256 * Shifted(x, w - 1)
  }

  /** Bytes in front of an integer count for their multiple of the integer's range. */
  lemma {:induction false} SizedIntOfTail(a: seq<byte>, v: nat, w: nat)
    requires v < Pow256(w)
    ensures SizedInt(a + ToBE(v, w)) == (Shifted(SizedInt(a), w) + v) % TWO_64
    decreases w
  {
    if w == 0 {
      assert a + ToBE(v, w) == a;
    } else {
      var s := a + ToBE(v, w);
      assert s[..|s| - 1] == a + ToBE(v / 256, w - 1);
      SizedIntOfTail(a, v / 256, w - 1);
      ModShift(Shifted(SizedInt(a), w - 1) + v / 256, v % 256);
    }
  }

  lemma ShiftedByEight(x: nat)
    ensures Shifted(x, 8) == x * TWO_64
  {
    assert Shifted(x, 2) == 256 * Shifted(x, 1) == 256 * (256 * x);
    assert Shifted(x, 4) == 256 * Shifted(x, 3) == 256 * (256 * Shifted(x, 2));
    assert Shifted(x, 6) == 256 * Shifted(x, 5) == 256 * (256 * Shifted(x, 4));
    assert Shifted(x, 8) == 256 * Shifted(x, 7) == 256 * (256 * Shifted(x, 6));
  }

  lemma LowWordOfInt128(high: u64, low: u64)
    ensures SizedInt(ToBE(high, 8) + ToBE(low, 8)) == low
  {
    hide SizedInt, ToBE, Shifted;
    Pow256Values();
    SizedIntOfTail(ToBE(high, 8), low, 8);
    ShiftedByEight(SizedInt(ToBE(high, 8)));
  }

  lemma IntBack(data: seq<byte>, t: Trailer, off: nat, v: u64)
    requires Accepted(data, t) && 8 <= off
    requires At(data, off, EncodeInt(v)) && off + |EncodeInt(v)| <= t.offsetTableOffset
    ensures ShapeAt(data, t, off) == Some(Finished(Int(v)))
  {
    hide Accepted, TrailerFits, SizedInt, ToBE, EncodeInt;
    AcceptedBounds(data, t);
    IntBytes(v);
    AtByte(data, off, EncodeInt(v), 0);
    AtSplit(data, off, [MARKER_INT + Exponent(v)], ToBE(v, Pow2(Exponent(v))));
    assert data[off] / 16 == 1 && data[off] % 16 == Exponent(v);
  }

  lemma Int128Back(data: seq<byte>, t: Trailer, off: nat, high: u64, low: u64)
    requires Accepted(data, t) && 8 <= off
    requires At(data, off, EncodeLeaf(Int128(high, low))) && off + 17 <= t.offsetTableOffset
    ensures ShapeAt(data, t, off) == Some(Finished(Int128(0, low)))
  {
    hide Accepted, TrailerFits, SizedInt, ToBE;
    AcceptedBounds(data, t);
    LowWordOfInt128(high, low);
    Pow2Values();
    AtByte(data, off, EncodeLeaf(Int128(high, low)), 0);
    AtSplit(data, off, [MARKER_INT + 4], ToBE(high, 8) + ToBE(low, 8));
    assert data[off] / 16 == 1 && data[off] % 16 == 4;
  }

  lemma UidBytes(id: u32)
    ensures var w := ByteCount(id);
            w <= 4 && EncodeUid(id) == [MARKER_UID + w - 1] + ToBE(id, w) && SizedInt(ToBE(id, w)) == id
  {
    Pow256Values();
    SizedIntInvertsToBE(id, ByteCount(id));
  }

  lemma UidBack(data: seq<byte>, t: Trailer, off: nat, id: u32)
    requires Accepted(data, t) && 8 <= off
    requires At(data, off, EncodeUid(id)) && off + |EncodeUid(id)| <= t.offsetTableOffset
    ensures ShapeAt(data, t, off) == Some(Finished(Uid(id)))
  {
    hide SizedInt, ToBE, EncodeUid;
    var w := ByteCount(id);
    UidBytes(id);
    AtByte(data, off, EncodeUid(id), 0);
    AtSplit(data, off, [MARKER_UID + w - 1], ToBE(id, w));
    assert data[off] / 16 == 8 && data[off] % 16 + 1 == w;
  }

  lemma FixedBack(data: seq<byte>, t: Trailer, off: nat, v: Plist)
    requires Accepted(data, t) && 8 <= off && WritableLeaf(v) && (v.Bool? || v.Real? || v.Date?)
    requires At(data, off, EncodeLeaf(v)) && off + |EncodeLeaf(v)| <= t.offsetTableOffset
    ensures ShapeAt(data, t, off) == Some(Finished(v))
  {
    AtByte(data, off, EncodeLeaf(v), 0);
    if v.Real? {
      AtSplit(data, off, [MARKER_REAL + if |v.bytes| == 4 then 2 else 3], v.bytes);
    } else if v.Date? {
      AtSplit(data, off, [MARKER_DATE], v.bytes);
    }
  }

  lemma DataBack(data: seq<byte>, t: Trailer, off: nat, bytes: seq<byte>)
    requires Accepted(data, t) && 8 <= off && |bytes| < MAX_ITEMS
    requires At(data, off, EncodeCount(MARKER_DATA, |bytes|) + bytes)
    requires off + |EncodeCount(MARKER_DATA, |bytes|) + bytes| <= t.offsetTableOffset
    ensures ShapeAt(data, t, off) == Some(Finished(Data(bytes)))
  {
    hide Accepted, TrailerFits, EncodeCount, CountAt;
    AcceptedBounds(data, t);
    AtSplit(data, off, EncodeCount(MARKER_DATA, |bytes|), bytes);
    CountBack(data, t, off, MARKER_DATA, |bytes|);
  }

  lemma AsciiBack(data: seq<byte>, t: Trailer, off: nat, chars: seq<u16>)
    requires Accepted(data, t) && 8 <= off && |chars| < MAX_ITEMS && IsAscii(chars)
    requires At(data, off, EncodeString(chars)) && off + |EncodeString(chars)| <= t.offsetTableOffset
    ensures ShapeAt(data, t, off) == Some(Finished(Str(chars)))
  {
    hide Accepted, TrailerFits, EncodeCount, CountAt;
    AcceptedBounds(data, t);
    AtSplit(data, off, EncodeCount(MARKER_ASCII, |chars|), AsciiBytes(chars));
    CountBack(data, t, off, MARKER_ASCII, |chars|);
    assert AsciiBytes(chars) == chars;
  }

  lemma CharBytes(c: u16)
    ensures ToBE(c, 2) == [c / 256, c % 256] && Char(c / 256, c % 256) == c
  {
  }

  lemma CharsBack(chars: seq<u16>)
    ensures |ConcatBE(chars, 2)| == 2 * |chars| && Chars(ConcatBE(chars, 2)) == chars
  {
    hide ConcatBE, ToBE;
    var s := ConcatBE(chars, 2);
    ConcatBELength(chars, 2);
    forall k: nat | k < |chars|
      ensures Chars(s)[k] == chars[k]
    {
      ConcatBEEntry(chars, 2, k);
      CharBytes(chars[k]);
      assert s[2 * k] == s[k * 2..k * 2 + 2][0] && s[2 * k + 1] == s[k * 2..k * 2 + 2][1];
    }
  }

  lemma Utf16Back(data: seq<byte>, t: Trailer, off: nat, chars: seq<u16>)
    requires Accepted(data, t) && 8 <= off && |chars| < MAX_ITEMS && !IsAscii(chars)
    requires At(data, off, EncodeString(chars)) && off + |EncodeString(chars)| <= t.offsetTableOffset
    ensures ShapeAt(data, t, off) == Some(Finished(Str(chars)))
  {
    hide Accepted, TrailerFits, EncodeCount, ConcatBE, CountAt, Chars;
    AcceptedBounds(data, t);
    CharsBack(chars);
    AtSplit(data, off, EncodeCount(MARKER_UTF16, |chars|), ConcatBE(chars, 2));
    CountBack(data, t, off, MARKER_UTF16, |chars|);
  }

  /** Every leaf the writer has an encoding for reads back unchanged, but for the high word of a 128-bit integer. */
  lemma LeafBack(data: seq<byte>, t: Trailer, off: nat, v: Plist)
    requires Accepted(data, t) && 8 <= off && WritableLeaf(v) && FitsInMemory(v)
    requires At(data, off, EncodeLeaf(v)) && off + |EncodeLeaf(v)| <= t.offsetTableOffset
    ensures ShapeAt(data, t, off) == Some(Finished(LowWord(v)))
  {
    match v
    case Int(bits) => IntBack(data, t, off, bits);
    case Int128(high, low) => Int128Back(data, t, off, high, low);
    case Uid(id) => UidBack(data, t, off, id);
    case Data(bytes) => DataBack(data, t, off, bytes);
    case Str(chars) =>
      if IsAscii(chars) { AsciiBack(data, t, off, chars); } else { Utf16Back(data, t, off, chars); }
    case _ => FixedBack(data, t, off, v);
  }

  // ---- Collections ----

  /** A collection's header and reference run read back, reference by reference. */
  lemma RefsBack(data: seq<byte>, t: Trailer, off: nat, kind: Kind, refs: seq<nat>)
    requires Accepted(data, t) && 8 <= off && |refs| < MAX_ITEMS
    requires kind == ArrayKind || (kind == DictKind && |refs| % 2 == 0)
    requires t.objectRefSize <= 8
    requires forall k: nat :: k < |refs| ==> refs[k] < t.numObjects && refs[k] < Pow256(t.objectRefSize)
    requires var header := if kind == ArrayKind then EncodeCount(MARKER_ARRAY, |refs|)
                           else EncodeCount(MARKER_DICT, |refs| / 2);
             var e := header + ConcatBE(refs, t.objectRefSize);
             At(data, off, e) && off + |e| <= t.offsetTableOffset
    ensures var s := ShapeAt(data, t, off);
            && s.Some? && s.value.Refs? && s.value.kind == kind && s.value.n == |refs|
            && forall k: nat :: k < |refs| ==> ChildOffset(data, t, s.value.refPos, k) == OffsetEntry(data, t, refs[k])
  {
    hide Accepted, TrailerFits, EncodeCount, ConcatBE, CountAt, ChildOffset;
    AcceptedBounds(data, t);
    var w := t.objectRefSize;
    var header := if kind == ArrayKind then EncodeCount(MARKER_ARRAY, |refs|) else EncodeCount(MARKER_DICT, |refs| / 2);
    AtSplit(data, off, header, ConcatBE(refs, w));
    ConcatBELength(refs, w);
    if kind == ArrayKind {
      CountBack(data, t, off, MARKER_ARRAY, |refs|);
    } else {
      CountBack(data, t, off, MARKER_DICT, |refs| / 2);
    }
    var pos := off + |header|;
    assert ShapeAt(data, t, off) == Some(Refs(kind, pos, |refs|));
    forall k: nat | k < |refs|
      ensures ChildOffset(data, t, pos, k) == OffsetEntry(data, t, refs[k])
    {
      RefBack(data, t, pos, refs, k);
    }
  }

  lemma RefBack(data: seq<byte>, t: Trailer, pos: nat, refs: seq<nat>, k: nat)
    requires Accepted(data, t) && 8 <= pos && t.objectRefSize <= 8
    requires k < |refs| && refs[k] < t.numObjects && refs[k] < Pow256(t.objectRefSize)
    requires At(data, pos, ConcatBE(refs, t.objectRefSize))
    requires pos + |ConcatBE(refs, t.objectRefSize)| <= t.offsetTableOffset
    ensures ChildOffset(data, t, pos, k) == OffsetEntry(data, t, refs[k])
  {
    hide Accepted, TrailerFits, ConcatBE, SizedInt, ToBE, OffsetEntry;
    AcceptedBounds(data, t);
    var w: nat := t.objectRefSize;
    ConcatBEEntry(refs, w, k);
    SizedIntInvertsToBE(refs[k], w);
    var from := k * w;
    SliceOfSlice(data, pos, pos + |ConcatBE(refs, w)|, from, from + w);
  }
}
