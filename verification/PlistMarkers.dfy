/** What the bytes of an accepted file mean, in the numbers of the format: which markers give which kinds, where the
    value of each object stands, when an object can be read, and which files are accepted. */
module PlistMarkers {
  import opened Bytes
  import opened PlistTree
  import opened PlistFormat
  import opened Powers
  import opened PlistEncoding
  import opened PlistObjects
  import opened PlistRoundTrip
  import PlistReader

  // ---- Kinds ----

  /** The marker says the kind, of every object in the file that has a value. */
  lemma MarkerSaysKind(data: seq<byte>, t: Trailer, off: nat, v: Plist)
    requires Accepted(data, t) && Decodes(TableOf(data, t), off, v)
    ensures 8 <= off < t.offsetTableOffset < |data|
    ensures v == Null <==> data[off] == 0x00
    ensures v == Bool(false) <==> data[off] == 0x08
    ensures v == Bool(true) <==> data[off] == 0x09
    ensures v.Int? <==> data[off] in {0x10, 0x11, 0x12, 0x13}
    ensures v.Int128? <==> data[off] == 0x14
    ensures v.Real? <==> data[off] in {0x22, 0x23}
    ensures v.Date? <==> data[off] == 0x33
    ensures v.Data? <==> data[off] / 16 == 0x4
    ensures v.Str? <==> data[off] / 16 == 0x5 || data[off] / 16 == 0x6
    ensures v.Uid? <==> data[off] / 16 == 0x8
    ensures v.Array? <==> data[off] / 16 == 0xA
    ensures v.Set? <==> data[off] / 16 == 0xC
    ensures v.Dict? <==> data[off] / 16 == 0xD
  {
    hide TableOf, Accepted, ShapeAt, AllDecode, Resolve;
    TableAt(data, t, off);
    AcceptedEnds(data, t);
    ShapeKind(data, t, off);
    ResolvedKind(data, t, off);
  }

  lemma ResolvedKind(data: seq<byte>, t: Trailer, off: nat)
    requires Accepted(data, t) && ShapeAt(data, t, off).Some?
    ensures match ShapeAt(data, t, off).value
            case Finished(v) => Resolve(data, t, ShapeAt(data, t, off).value) == Leaf(v)
            case Refs(kind, _, _) => var r := Resolve(data, t, ShapeAt(data, t, off).value); r.Node? && r.kind == kind
  {
    hide Accepted, ShapeAt;
  }

  lemma ShapeKind(data: seq<byte>, t: Trailer, off: nat)
    requires Accepted(data, t) && ShapeAt(data, t, off).Some? && off < |data|
    ensures var s := ShapeAt(data, t, off).value;
            && (s == Finished(Null) <==> data[off] == 0x00)
            && (s == Finished(Bool(false)) <==> data[off] == 0x08)
            && (s == Finished(Bool(true)) <==> data[off] == 0x09)
            && (s.Finished? && s.v.Int? <==> data[off] in {0x10, 0x11, 0x12, 0x13})
            && (s.Finished? && s.v.Int128? <==> data[off] == 0x14)
            && (s.Finished? && s.v.Real? <==> data[off] in {0x22, 0x23})
            && (s.Finished? && s.v.Date? <==> data[off] == 0x33)
            && (s.Finished? && s.v.Data? <==> data[off] / 16 == 0x4)
            && (s.Finished? && s.v.Str? <==> data[off] / 16 == 0x5 || data[off] / 16 == 0x6)
            && (s.Finished? && s.v.Uid? <==> data[off] / 16 == 0x8)
            && (s.Refs? && s.kind.ArrayKind? <==> data[off] / 16 == 0xA)
            && (s.Refs? && s.kind.SetKind? <==> data[off] / 16 == 0xC)
            && (s.Refs? && s.kind.DictKind? <==> data[off] / 16 == 0xD)
            && (s.Finished? && s.v.Bool? ==> s == Finished(Bool(false)) || s == Finished(Bool(true)))
            && (s.Finished? ==> IsPrimitive(s.v))
  {
    hide CountAt, SizedInt, Chars;
    IntWidths(data[off] % 16);
  }

  lemma IntWidths(e: nat)
    requires e < 16
    ensures Pow2(e) <= 8 <==> e <= 3
    ensures Pow2(e) <= 16 <==> e <= 4
    ensures Pow2(0) == 1 && Pow2(1) == 2 && Pow2(2) == 4 && Pow2(3) == 8 && Pow2(4) == 16
  {
    if e >= 5 {
      Pow2Grows(5, e);
    }
  }

  /** The value of a file that parses is of the kind its root's marker says. */
  lemma RootMarkerSaysKind(data: seq<byte>)
    requires PlistReader.Parse(data).Some?
    ensures var n := |data|;
            && n >= 41
            && var t, v := ParseTrailer(data), PlistReader.Parse(data).value;
               && Accepted(data, t)
               && var off := OffsetEntry(data, t, t.topObject);
                  && off < n
                  && (v == Null <==> data[off] == 0x00)
                  && (v == Bool(false) <==> data[off] == 0x08) && (v == Bool(true) <==> data[off] == 0x09)
                  && (v.Array? <==> data[off] / 16 == 0xA)
                  && (v.Set? <==> data[off] / 16 == 0xC)
                  && (v.Dict? <==> data[off] / 16 == 0xD)
  {
    hide OffsetEntry, TableOf, Read, Decodes;
    var t := ParseTrailer(data);
    PlistReader.ParseSucceedsIff(data, t);
    MarkerSaysKind(data, t, OffsetEntry(data, t, t.topObject), PlistReader.Parse(data).value);
  }

  // ---- Values ----

  /** The count of an object and the position behind it: the low half of the marker, or when that is 15 the integer
      that follows, which reads as zero when it has 256 bytes or more. */
  lemma CountSays(data: seq<byte>, t: Trailer, off: nat)
    requires Accepted(data, t) && off < t.offsetTableOffset < |data|
    ensures data[off] % 16 < 15 ==> CountAt(data, t, off) == Some((data[off] % 16, off + 1))
    ensures data[off] % 16 == 15 ==>
              match CountAt(data, t, off)
              case None =>
                || off + 1 >= t.offsetTableOffset || data[off + 1] / 16 != 1
                || off + 2 + Pow2(data[off + 1] % 16) > t.offsetTableOffset
                || (var n := Pow2(data[off + 1] % 16); data[off + 1] % 16 < 8 && TooLong(data[off + 2..off + 2 + n]))
              case Some(p) =>
                && off + 1 < t.offsetTableOffset && data[off + 1] / 16 == 1
                && p.1 == off + 2 + Pow2(data[off + 1] % 16) <= t.offsetTableOffset
                && p.0 <= LONG_MAX
                && p.0 == if data[off + 1] % 16 < 8 then Value(data[off + 2..p.1]) % TWO_64 else 0
  {
    hide Value, Pow2, Accepted;
    if data[off] % 16 == 15 && off + 1 < t.offsetTableOffset {
      var e: nat := data[off + 1] % 16;
      PowersOfBytes(e);
      if off + 2 + Pow2(e) <= t.offsetTableOffset && e < 8 {
        SizedIntIsValue(data[off + 2..off + 2 + Pow2(e)]);
      }
    }
  }

  predicate TooLong(count: seq<byte>) {
    Value(count) % TWO_64 > LONG_MAX
  }

  /** The value of a finished object stands behind its marker. */
  lemma LeafSays(data: seq<byte>, t: Trailer, off: nat)
    requires Accepted(data, t) && off < |data|
    requires ShapeAt(data, t, off).Some? && ShapeAt(data, t, off).value.Finished?
    ensures var end, v := t.offsetTableOffset, ShapeAt(data, t, off).value.v;
            match v
            case Int(bits) =>
              var m: int := data[off];
              var n := if m == 0x10 then 1 else if m == 0x11 then 2 else if m == 0x12 then 4 else 8;
              off + 1 + n <= end < |data| && bits == Value(data[off + 1..off + 1 + n]) % TWO_64
            case Int128(high, low) =>
              off + 17 <= end < |data| && high == 0 && low == Value(data[off + 1..off + 17]) % TWO_64
            case Real(bytes) =>
              var n := if data[off] == 0x22 then 4 else 8;
              off + 1 + n <= end < |data| && bytes == data[off + 1..off + 1 + n]
            case Date(bytes) => off + 9 <= end < |data| && bytes == data[off + 1..off + 9]
            case Uid(id) =>
              var n := data[off] % 16 + 1;
              off + 1 + n <= end < |data| && id == Value(data[off + 1..off + 1 + n]) % TWO_64
            case _ => true
  {
    hide CountAt, Chars, Value, SizedInt;
    AcceptedEnds(data, t);
    IntWidths(data[off] % 16);
    match ShapeAt(data, t, off).value.v
    case Int(_) => SizedIntIsValue(data[off + 1..off + 1 + Pow2(data[off] % 16)]);
    case Int128(_, _) => SizedIntIsValue(data[off + 1..off + 17]);
    case Uid(_) => SizedIntIsValue(data[off + 1..off + 2 + data[off] % 16]);
    case _ =>
  }

  /** Data and strings: as many bytes, or characters of one or two bytes, as the count says, from behind the count. */
  lemma TextSays(data: seq<byte>, t: Trailer, off: nat)
    requires Accepted(data, t) && off < |data|
    requires ShapeAt(data, t, off).Some? && data[off] / 16 in {0x4, 0x5, 0x6}
    ensures off < t.offsetTableOffset && CountAt(data, t, off).Some? && ShapeAt(data, t, off).value.Finished?
    ensures var (n, from), v := CountAt(data, t, off).value, ShapeAt(data, t, off).value.v;
            var w := if data[off] / 16 == 0x6 then 2 else 1;
            && from + n * w <= t.offsetTableOffset < |data|
            && (data[off] / 16 == 0x4 ==> v == Data(data[from..from + n]))
            && (data[off] / 16 != 0x4 ==> v.Str? && |v.chars| == n)
            && forall i: nat {:trigger v.chars[i]} :: v.Str? && i < n ==>
                 v.chars[i] == if w == 1 then data[from + i] else BigEndian(data[from + 2 * i], data[from + 2 * i + 1])
  {
    hide CountAt, SizedInt, OffsetEntry;
    AcceptedEnds(data, t);
  }

  function BigEndian(high: byte, low: byte): int {
    var h: int := high;
    256 * h + low
  }

  /** A collection: as many references as its count says, twice as many for a dictionary, from behind the count. */
  lemma RefsSay(data: seq<byte>, t: Trailer, off: nat)
    requires Accepted(data, t) && off < |data|
    requires ShapeAt(data, t, off).Some? && data[off] / 16 in {0xA, 0xC, 0xD}
    ensures off < t.offsetTableOffset && CountAt(data, t, off).Some? && ShapeAt(data, t, off).value.Refs?
    ensures var (n, from), s := CountAt(data, t, off).value, ShapeAt(data, t, off).value;
            && s.refPos == from && s.n == (if data[off] / 16 == 0xD then 2 * n else n)
            && 0 <= s.n * t.objectRefSize && from + s.n * t.objectRefSize <= t.offsetTableOffset
            && s.n < 0x2000_0000_0000_0000
  {
    hide CountAt, SizedInt, OffsetEntry, Pow256, Chars;
    AcceptedEnds(data, t);
  }

  /** Entry k of the offset table. */
  function Entry(data: seq<byte>, t: Trailer, k: nat): nat {
    var at := t.offsetTableOffset + k * t.offsetIntSize;
    if 0 <= at && at + t.offsetIntSize <= |data| then Value(data[at..at + t.offsetIntSize]) % TWO_64 else 0
  }

  lemma EntryIs(data: seq<byte>, t: Trailer, k: nat)
    requires TrailerFits(data, t) && k < t.numObjects
    ensures Entry(data, t, k) == OffsetEntry(data, t, k)
  {
    MulBound(k, t.numObjects, t.offsetIntSize);
    var at := t.offsetTableOffset + k * t.offsetIntSize;
    SizedIntIsValue(data[at..at + t.offsetIntSize]);
  }

  /** A reference is the number of an object, and leads to where the offset table says that object starts; it leads
      nowhere when there is no such object, or when it does not lie between the header and the offset table. */
  lemma RefSays(data: seq<byte>, t: Trailer, pos: nat)
    requires Accepted(data, t)
    ensures t.offsetTableOffset < |data|
    ensures OffsetOfRefAt(data, t, pos)
         == if 8 <= pos && pos + t.objectRefSize <= t.offsetTableOffset
               && Value(data[pos..pos + t.objectRefSize]) % TWO_64 < t.numObjects
            then Entry(data, t, Value(data[pos..pos + t.objectRefSize]) % TWO_64) else TWO_64 - 1
  {
    hide Value, SizedInt, Entry, OffsetEntry, Pow256;
    AcceptedEnds(data, t);
    if 8 <= pos && pos + t.objectRefSize <= t.offsetTableOffset {
      SizedIntIsValue(data[pos..pos + t.objectRefSize]);
      var ref: nat := SizedInt(data[pos..pos + t.objectRefSize]);
      if ref < t.numObjects {
        EntryIs(data, t, ref);
      }
    }
  }

  // ---- What can be read ----

  /** An object can be read when all of it lies between the header and the offset table and its marker is known. */
  lemma ReadableIff(data: seq<byte>, t: Trailer, off: nat)
    requires Accepted(data, t)
    ensures t.offsetTableOffset < |data|
    ensures ShapeAt(data, t, off).Some? <==> 8 <= off < t.offsetTableOffset && IsReadable(data, t, off)
  {
    hide SizedInt, Value, Chars, OffsetEntry;
    AcceptedEnds(data, t);
    if 8 <= off < t.offsetTableOffset {
      IntWidths(data[off] % 16);
      if off + 2 + data[off] % 16 <= |data| {
        SizedIntIsValue(data[off + 1..off + 2 + data[off] % 16]);
      }
    }
  }

  ghost predicate IsReadable(data: seq<byte>, t: Trailer, off: nat)
    requires Accepted(data, t) && off < t.offsetTableOffset < |data|
  {
    var end, low, count := t.offsetTableOffset, data[off] % 16, CountAt(data, t, off);
    match data[off] / 16
    case 0x0 => low in {0, 8, 9}
    case 0x1 => low <= 4 && off + 1 + (if low == 0 then 1 else if low == 1 then 2 else if low == 2 then 4
                                       else if low == 3 then 8 else 16) <= end
    case 0x2 => (low == 2 && off + 5 <= end) || (low == 3 && off + 9 <= end)
    case 0x3 => low == 3 && off + 9 <= end
    case 0x4 => count.Some? && count.value.1 + count.value.0 <= end
    case 0x5 => count.Some? && count.value.1 + count.value.0 <= end
    case 0x6 => count.Some? && count.value.1 + 2 * count.value.0 <= end
    case 0x8 => off + 2 + low <= end && Value(data[off + 1..off + 2 + low]) % TWO_64 < 0x1_0000_0000
    case 0xA => count.Some? && FitRefs(t, count.value.1, count.value.0)
    case 0xC => count.Some? && FitRefs(t, count.value.1, count.value.0)
    case 0xD => count.Some? && FitRefs(t, count.value.1, 2 * count.value.0)
    case _ => false
  }

  /** n references from the position fit before the offset table, and n pointers in a 64-bit size. */
  predicate FitRefs(t: Trailer, from: nat, n: nat) {
    from + n * t.objectRefSize <= t.offsetTableOffset && n < 0x2000_0000_0000_0000
  }

  // ---- Which files are accepted ----

  /** A file of a length that 64 bits hold is accepted exactly when it starts with "bplist0", its trailer's table of
      offsets fills the space before the trailer, references and offsets fit their widths, the root is an object, and
      every offset leads back before the table, the root's behind the header. */
  lemma AcceptedIff(data: seq<byte>, t: Trailer)
    requires 41 <= |data| < TWO_64 && t == ParseTrailer(data)
    ensures Accepted(data, t) <==> && data[..7] == [0x62, 0x70, 0x6C, 0x69, 0x73, 0x74, 0x30]
                                   && TableFills(data, t) && WidthsHold(t)
                                   && t.topObject < t.numObjects <= LONG_MAX && t.offsetTableOffset <= LONG_MAX
                                   && (forall k: nat :: k < t.numObjects ==> Entry(data, t, k) < t.offsetTableOffset)
                                   && 8 <= Entry(data, t, t.topObject)
  {
    hide SizedInt, Pow256, ParseTrailer, TrailerFits, TableFills, WidthsHold, Entry, OffsetEntry;
    TrailerFitsIff(data, t);
    if TrailerFits(data, t) {
      forall k: nat | k < t.numObjects
        ensures Entry(data, t, k) == OffsetEntry(data, t, k)
      {
        EntryIs(data, t, k);
      }
    }
  }

  lemma TrailerFitsIff(data: seq<byte>, t: Trailer)
    requires 41 <= |data| < TWO_64
    ensures TrailerFits(data, t) <==> && TableFills(data, t) && WidthsHold(t)
                                      && t.topObject < t.numObjects <= LONG_MAX && t.offsetTableOffset <= LONG_MAX
  {
    hide Pow256;
    if TableFills(data, t) {
      assert 0 <= t.numObjects * t.offsetIntSize;
      AtLeast(t.numObjects, t.offsetIntSize);
    }
  }

  lemma AtLeast(n: nat, w: nat)
    requires 1 <= n && 1 <= w
    ensures 1 <= n * w
  {
  }

  predicate TableFills(data: seq<byte>, t: Trailer) {
    && 9 <= t.offsetTableOffset && 1 <= t.offsetIntSize && 1 <= t.numObjects
    && t.offsetTableOffset + t.numObjects * t.offsetIntSize + 32 == |data|
  }

  predicate WidthsHold(t: Trailer) {
    && 1 <= t.objectRefSize
    && (t.objectRefSize < 8 ==> t.numObjects < Pow256(t.objectRefSize))
    && (t.offsetIntSize < 8 ==> t.offsetTableOffset < Pow256(t.offsetIntSize))
  }

  /** The trailer is the last 32 bytes: two widths, and three numbers of eight bytes. */
  lemma TrailerSays(data: seq<byte>)
    requires |data| >= 32
    ensures var b, t := |data| - 32, ParseTrailer(data);
            && t.offsetIntSize == data[b + 6] && t.objectRefSize == data[b + 7]
            && t.numObjects == Value(data[b + 8..b + 16]) % TWO_64
            && t.topObject == Value(data[b + 16..b + 24]) % TWO_64
            && t.offsetTableOffset == Value(data[b + 24..b + 32]) % TWO_64
  {
    hide Value, SizedInt;
    var b := |data| - 32;
    SizedIntIsValue(data[b + 8..b + 16]);
    SizedIntIsValue(data[b + 16..b + 24]);
    SizedIntIsValue(data[b + 24..b + 32]);
  }

  // ---- A file byte by byte ----

  /** A set of the one string "a". */
  const SET_OBJECTS: seq<byte> := [0x62, 0x70, 0x6C, 0x69, 0x73, 0x74, 0x30, 0x30, 0xC1, 0x01, 0x51, 0x61, 0x08, 0x0A]

  const SET_TRAILER: seq<byte> :=
    [0, 0, 0, 0, 0, 0, 1, 1] + [0, 0, 0, 0, 0, 0, 0, 2] + [0, 0, 0, 0, 0, 0, 0, 0] + [0, 0, 0, 0, 0, 0, 0, 12]

  lemma {:induction false} SmallToBE(v: byte, w: nat)
    requires 0 < w
    ensures ToBE(v, w) == seq(w - 1, _ => 0) + [v]
    decreases w
  {
    if w == 1 {
      assert ToBE(v, 1) == ToBE(v / 256, 0) + [v % 256];
    } else {
      SmallToBE(0, w - 1);
      assert seq<byte>(w - 2, _ => 0) + [0] == seq<byte>(w - 1, _ => 0);
    }
  }

  lemma SetTrailerIs()
    ensures SET_TRAILER == EncodeTrailer(Trailer(1, 1, 2, 0, 12))
  {
    hide ToBE;
    SmallToBE(2, 8);
    SmallToBE(0, 8);
    SmallToBE(12, 8);
    assert seq<byte>(7, _ => 0) == [0, 0, 0, 0, 0, 0, 0];
  }

  lemma SetFileIsAccepted()
    ensures var f, t := SET_OBJECTS + SET_TRAILER, Trailer(1, 1, 2, 0, 12);
            && |f| == 46 && ParseTrailer(f) == t && Accepted(f, t)
            && OffsetEntry(f, t, 0) == 8 && OffsetEntry(f, t, 1) == 10 && OffsetOfRefAt(f, t, 9) == 10
  {
    hide SizedInt, ParseTrailer;
    var f, t := SET_OBJECTS + SET_TRAILER, Trailer(1, 1, 2, 0, 12);
    SetTrailerIs();
    assert f[14..46] == SET_TRAILER;
    TrailerBack(f, t);
    Pow256Values();
    OneByte(f, 12);
    OneByte(f, 13);
    OneByte(f, 9);
    assert f[..7] == MAGIC;
    forall k: nat | k < 2
      ensures OffsetEntry(f, t, k) == if k == 0 then 8 else 10
    {
    }
  }

  lemma OneByte(f: seq<byte>, i: nat)
    requires i < |f|
    ensures SizedInt(f[i..i + 1]) == f[i]
  {
    assert f[i..i + 1][..0] == [];
  }

  /** The file of 46 bytes parses as the set of "a". */
  lemma SetFileIsASet()
    ensures PlistReader.Parse(SET_OBJECTS + SET_TRAILER) == Some(Set([Str([0x61])]))
  {
    hide OffsetEntry, ParseTrailer, Accepted, TableOf;
    var f, t := SET_OBJECTS + SET_TRAILER, Trailer(1, 1, 2, 0, 12);
    SetFileIsAccepted();
    SetFileShapes();
    var tab := TableOf(f, t);
    TableAt(f, t, 8);
    TableAt(f, t, 10);
    SetFileKids(f, t);
    assert tab[8] == Node(SetKind, [10]) && tab[10] == Leaf(Str([0x61]));
    assert Decodes(tab, 10, Str([0x61]));
    assert [10][1..] == [] && [Str([0x61])][1..] == [];
    assert Decodes(tab, 8, Set([Str([0x61])]));
    ReadIffDecodes(tab, 8, Set([Str([0x61])]));
  }

  lemma SetFileKids(f: seq<byte>, t: Trailer)
    requires Accepted(f, t) && OffsetOfRefAt(f, t, 9) == 10
    ensures Resolve(f, t, Refs(SetKind, 9, 1)) == Node(SetKind, [10])
  {
    assert ChildOffset(f, t, 9, 0) == 10;
  }

  lemma SetFileShapes()
    ensures var f, t := SET_OBJECTS + SET_TRAILER, Trailer(1, 1, 2, 0, 12);
            && Accepted(f, t)
            && ShapeAt(f, t, 8) == Some(Refs(SetKind, 9, 1)) && ShapeAt(f, t, 10) == Some(Finished(Str([0x61])))
  {
    hide Accepted;
    var f, t := SET_OBJECTS + SET_TRAILER, Trailer(1, 1, 2, 0, 12);
    SetFileIsAccepted();
    assert f[11..12] == [0x61];
  }
}
