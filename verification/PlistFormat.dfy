/** The binary property list format as the reader sees it: the trailer check, and the shape of the object
    that starts at a given offset (CFBinaryPList.c, reading half). Offsets stand for the source's pointers;
    its pointer-overflow checks fail exactly when the unbounded end lies past the object table. */
module PlistFormat {
  import opened Bytes
  import opened PlistTree
  import opened Powers

  const MARKER_NULL := 0x00
  const MARKER_FALSE := 0x08
  const MARKER_TRUE := 0x09
  const MARKER_INT := 0x10
  const MARKER_REAL := 0x20
  const MARKER_DATE := 0x33
  const MARKER_DATA := 0x40
  const MARKER_ASCII := 0x50
  const MARKER_UTF16 := 0x60
  const MARKER_UID := 0x80
  const MARKER_ARRAY := 0xA0
  const MARKER_DICT := 0xD0

  const TRAILER_SIZE := 32
  const HEADER_SIZE := 8

  /** The characters of "bplist0", which every accepted file starts with. */
  const MAGIC: seq<byte> := [0x62, 0x70, 0x6C, 0x69, 0x73, 0x74, 0x30]

  datatype Trailer = Trailer(offsetIntSize: byte, objectRefSize: byte, numObjects: u64,
                             topObject: u64, offsetTableOffset: u64)

  /** The trailer structure is the last 32 bytes; its first six bytes are not looked at. */
  function ParseTrailer(data: seq<byte>): Trailer
    requires |data| >= TRAILER_SIZE
  {
    var b := |data| - TRAILER_SIZE;
    Trailer(data[b + 6], data[b + 7], SizedInt(data[b + 8..b + 16]),
            SizedInt(data[b + 16..b + 24]), SizedInt(data[b + 24..b + 32]))
  }

  /** The arithmetic checks on the trailer alone, in the source's order. */
  predicate TrailerFits(data: seq<byte>, t: Trailer) {
    && t.numObjects <= LONG_MAX
    && t.offsetTableOffset <= LONG_MAX
    && 1 <= t.numObjects
    && t.topObject < t.numObjects
    && 9 <= t.offsetTableOffset
    && t.offsetTableOffset < |data| - TRAILER_SIZE
    && 1 <= t.offsetIntSize
    && 1 <= t.objectRefSize
    && t.numObjects * t.offsetIntSize < TWO_64
    && t.offsetTableOffset + t.numObjects * t.offsetIntSize + TRAILER_SIZE < TWO_64
    && |data| == t.offsetTableOffset + t.numObjects * t.offsetIntSize + TRAILER_SIZE
    && (t.objectRefSize < 8 ==> t.numObjects < Pow256(t.objectRefSize))
    && (t.offsetIntSize < 8 ==> t.offsetTableOffset < Pow256(t.offsetIntSize))
  }

  /** Entry k of the offset table. */
  function OffsetEntry(data: seq<byte>, t: Trailer, k: nat): (off: u64)
    requires TrailerFits(data, t) && k < t.numObjects
  {
    MulBound(k, t.numObjects, t.offsetIntSize);
    var at := t.offsetTableOffset + k * t.offsetIntSize;
    SizedInt(data[at..at + t.offsetIntSize])
  }

  /** What a successful trailer check leaves behind; the object reader trusts it. */
  ghost predicate Accepted(data: seq<byte>, t: Trailer) {
    && TrailerFits(data, t)
    && MAGIC <= data
    && (forall k: nat :: k < t.numObjects ==> OffsetEntry(data, t, k) < t.offsetTableOffset)
    && 8 <= OffsetEntry(data, t, t.topObject)
  }

  /** The loop over the offset table: every entry leads into the object table. */
  method OffsetsLeadBack(data: seq<byte>, t: Trailer) returns (ok: bool)
    requires TrailerFits(data, t)
    ensures ok <==> forall k: nat :: k < t.numObjects ==> OffsetEntry(data, t, k) < t.offsetTableOffset
  {
    for idx := 0 to t.numObjects
      invariant forall k: nat :: k < idx ==> OffsetEntry(data, t, k) < t.offsetTableOffset
    {
      MulBound(idx, t.numObjects, t.offsetIntSize);
      var off := GetSizedInt(data, t.offsetTableOffset + idx * t.offsetIntSize, t.offsetIntSize);
      assert off == OffsetEntry(data, t, idx);
      if t.offsetTableOffset - 1 < off {
        return false;
      }
    }
    return true;
  }

  /** The trailer check: it succeeds with the parsed trailer and the root's offset exactly on accepted files. */
  method GetTopLevelInfo(data: seq<byte>) returns (r: Option<(Trailer, nat)>)
    ensures r.Some? <==> |data| >= TRAILER_SIZE + 8 + 1 && Accepted(data, ParseTrailer(data))
    ensures r.Some? ==> r.value.0 == ParseTrailer(data)
                        && r.value.1 == OffsetEntry(data, r.value.0, r.value.0.topObject)
  {
    if |data| < TRAILER_SIZE + 8 + 1 {
      return None;
    }
    if data[..7] != MAGIC {
      return None;
    }
    var t := ParseTrailer(data);
    if !TrailerFits(data, t) {
      return None;
    }
    var ok := OffsetsLeadBack(data, t);
    if !ok {
      return None;
    }
    var off := OffsetEntry(data, t, t.topObject);
    if off < 8 || t.offsetTableOffset <= off {
      return None;
    }
    return Some((t, off));
  }

  /** The offset of the object that the reference stored at pos names; UINT64_MAX when there is none. */
  function OffsetOfRefAt(data: seq<byte>, t: Trailer, pos: nat): (off: u64)
    requires Accepted(data, t)
  {
    if pos < 8 || t.offsetTableOffset - t.objectRefSize < pos then TWO_64 - 1
    else
      var ref := SizedInt(data[pos..pos + t.objectRefSize]);
      if t.numObjects <= ref then TWO_64 - 1 else OffsetEntry(data, t, ref)
  }

  /** An integer object at pos, wholly at or before end: its value and the position after it. The byte count is
      passed on as an 8-bit quantity, so a count of 256 or more reads no byte at all. */
  function ReadInt(data: seq<byte>, pos: nat, end: nat): (r: Option<(u64, nat)>)
    requires end < |data|
    ensures r.Some? ==> pos < r.value.1 <= end + 1
  {
    if end < pos then None
    else
      var marker := data[pos];
      if marker / 16 != 1 then None
      else
        var cnt := Pow2(marker % 16);
        if end < pos + cnt then None
        else Some((SizedInt(data[pos + 1..pos + 1 + cnt % 256]), pos + 1 + cnt))
  }

  lemma {:induction false} PowersOfBytes(e: nat)
    requires e < 16
    ensures e < 8 ==> Pow2(e) < 256
    ensures e >= 8 ==> Pow2(e) % 256 == 0
  {
    assert Pow2(3) == 8 && Pow2(7) == 16 * Pow2(3) && Pow2(8) == 2 * Pow2(7);
    if e < 8 {
      Pow2Grows(e, 7);
    } else if e > 8 {
      PowersOfBytes(e - 1);
    }
  }

  /** The integer that is read is the one that is stored (modulo 2^64) exactly when its byte count fits 8 bits
      or it is zero: an exponent of 8 or more always reads as zero. */
  lemma ReadIntIsRightIff(data: seq<byte>, pos: nat, end: nat)
    requires end < |data| && ReadInt(data, pos, end).Some?
    ensures var r := ReadInt(data, pos, end).value;
            var stored := SizedInt(data[pos + 1..r.1]);
            && (data[pos] % 16 < 8 ==> r.0 == stored)
            && (data[pos] % 16 >= 8 ==> r.0 == 0)
            && (r.0 == stored <==> data[pos] % 16 < 8 || stored == 0)
  {
    PowersOfBytes(data[pos] % 16);
  }

  /** The element count behind a marker: its low four bits, or the integer object that follows when they are 15. */
  function CountAt(data: seq<byte>, t: Trailer, off: nat): (r: Option<(nat, nat)>)
    requires Accepted(data, t) && off < t.offsetTableOffset
    ensures r.Some? ==> off < r.value.1 <= t.offsetTableOffset && r.value.0 <= LONG_MAX
  {
    if data[off] % 16 != 15 then Some((data[off] % 16, off + 1))
    else
      match ReadInt(data, off + 1, t.offsetTableOffset - 1)
      case None => None
      case Some(p) => if LONG_MAX < p.0 then None else Some((p.0, p.1))
  }

  /** The same for a count that follows its marker: behind an integer of 256 or more bytes it is zero. */
  lemma CountIsRightIff(data: seq<byte>, t: Trailer, off: nat)
    requires Accepted(data, t) && off < t.offsetTableOffset
    requires data[off] % 16 == 15 && CountAt(data, t, off).Some?
    ensures var p := CountAt(data, t, off).value;
            var stored := SizedInt(data[off + 2..p.1]);
            && (data[off + 1] % 16 >= 8 ==> p.0 == 0)
            && (p.0 == stored <==> data[off + 1] % 16 < 8 || stored == 0)
  {
    ReadIntIsRightIff(data, off + 1, t.offsetTableOffset - 1);
  }

  /** What one object says about itself: a finished value, or a collection of n references from refPos on. */
  datatype Shape = Finished(v: Plist) | Refs(kind: Kind, refPos: nat, n: nat)

  function Char(high: byte, low: byte): u16 {
    high * 256 + low
  }

  /** Big-endian UTF-16 code units. */
  function Chars(s: seq<byte>): (cs: seq<u16>)
    requires |s| % 2 == 0
    ensures |cs| == |s| / 2
  {
    seq(|s| / 2, i requires 0 <= i < |s| / 2 => Char(s[2 * i], s[2 * i + 1]))
  }

  function CharsAt(data: seq<byte>, pos: nat, n: nat): seq<u16>
    requires pos + 2 * n <= |data|
  {
    Chars(data[pos..pos + 2 * n])
  }

  function IntShape(data: seq<byte>, t: Trailer, off: nat): (r: Option<Shape>)
    requires Accepted(data, t) && 8 <= off < t.offsetTableOffset
  {
    var cnt := Pow2(data[off] % 16);
    if t.offsetTableOffset - 1 < off + cnt then None
    else if 16 < cnt then None
    else
      var v := SizedInt(data[off + 1..off + 1 + cnt]);
      Some(Finished(if 8 < cnt then Int128(0, v) else Int(v)))
  }

  function RealShape(data: seq<byte>, t: Trailer, off: nat): (r: Option<Shape>)
    requires Accepted(data, t) && 8 <= off < t.offsetTableOffset
  {
    if data[off] % 16 != 2 && data[off] % 16 != 3 then None
    else
      var cnt := if data[off] % 16 == 2 then 4 else 8;
      if t.offsetTableOffset - 1 < off + cnt then None
      else Some(Finished(Real(data[off + 1..off + 1 + cnt])))
  }

  function DateShape(data: seq<byte>, t: Trailer, off: nat): (r: Option<Shape>)
    requires Accepted(data, t) && 8 <= off < t.offsetTableOffset
  {
    if data[off] != MARKER_DATE then None
    else if t.offsetTableOffset - 1 < off + 8 then None
    else Some(Finished(Date(data[off + 1..off + 9])))
  }

  function BytesShape(data: seq<byte>, t: Trailer, off: nat): (r: Option<Shape>)
    requires Accepted(data, t) && 8 <= off < t.offsetTableOffset
  {
    match CountAt(data, t, off)
    case None => None
    case Some(p) =>
      if t.offsetTableOffset - 1 < p.1 + p.0 - 1 then None
      else
        var s := data[p.1..p.1 + p.0];
        // bytes above 127 in an ASCII string are taken over unchanged (CFStringEncodings.c:444)
        Some(Finished(if data[off] / 16 == 4 then Data(s) else Str(s)))
  }

  function Utf16Shape(data: seq<byte>, t: Trailer, off: nat): (r: Option<Shape>)
    requires Accepted(data, t) && 8 <= off < t.offsetTableOffset
  {
    match CountAt(data, t, off)
    case None => None
    case Some(p) =>
      if t.offsetTableOffset - 1 < p.1 + p.0 - 1 + p.0 then None
      else Some(Finished(Str(CharsAt(data, p.1, p.0))))
  }

  function UidShape(data: seq<byte>, t: Trailer, off: nat): (r: Option<Shape>)
    requires Accepted(data, t) && 8 <= off < t.offsetTableOffset
  {
    var cnt := data[off] % 16 + 1;
    if t.offsetTableOffset - 1 < off + cnt then None
    else
      var v := SizedInt(data[off + 1..off + 1 + cnt]);
      if 0xFFFF_FFFF < v then None else Some(Finished(Uid(v)))
  }

  function RefsShape(data: seq<byte>, t: Trailer, off: nat): (r: Option<Shape>)
    requires Accepted(data, t) && 8 <= off < t.offsetTableOffset
  {
    match CountAt(data, t, off)
    case None => None
    case Some(p) =>
      var kind := if data[off] / 16 == 0xA then ArrayKind else if data[off] / 16 == 0xC then SetKind else DictKind;
      var n := if kind == DictKind then 2 * p.0 else p.0;
      if t.offsetTableOffset - 1 < p.1 + n * t.objectRefSize - 1 then None
      else if TWO_64 <= n * 8 then None  // the size of the list of pointers
      else Some(Refs(kind, p.1, n))
  }

  /** The object at off, one level deep: the switch of the object reader. */
  function ShapeAt(data: seq<byte>, t: Trailer, off: nat): (r: Option<Shape>)
    requires Accepted(data, t)
    ensures r.Some? ==> 8 <= off < t.offsetTableOffset
    ensures r.Some? && r.value.Finished? ==> IsPrimitive(r.value.v)
  {
    if off < 8 || t.offsetTableOffset - 1 < off then None
    else
      var marker := data[off];
      match marker / 16
      case 0x0 => if marker == MARKER_NULL then Some(Finished(Null))
                  else if marker == MARKER_FALSE then Some(Finished(Bool(false)))
                  else if marker == MARKER_TRUE then Some(Finished(Bool(true))) else None
      case 0x1 => IntShape(data, t, off)
      case 0x2 => RealShape(data, t, off)
      case 0x3 => DateShape(data, t, off)
      case 0x4 => BytesShape(data, t, off)
      case 0x5 => BytesShape(data, t, off)
      case 0x6 => Utf16Shape(data, t, off)
      case 0x8 => UidShape(data, t, off)
      case 0xA => RefsShape(data, t, off)
      case 0xC => RefsShape(data, t, off)
      case 0xD => RefsShape(data, t, off)
      case _ => None
  }

  /** A count behind an integer of 256 or more bytes is zero, whatever it says. */
  lemma LongCountIsZero(data: seq<byte>, t: Trailer, off: nat)
    requires Accepted(data, t) && off + 1 < t.offsetTableOffset
    requires data[off] % 16 == 15 && data[off + 1] / 16 == 1 && data[off + 1] % 16 >= 8
    requires off + 1 + Pow2(data[off + 1] % 16) < t.offsetTableOffset
    ensures CountAt(data, t, off) == Some((0, off + 2 + Pow2(data[off + 1] % 16)))
  {
    PowersOfBytes(data[off + 1] % 16);
  }

  lemma AcceptedEnds(data: seq<byte>, t: Trailer)
    requires Accepted(data, t)
    ensures t.offsetTableOffset < |data|
  {
  }

  /** So data, a string or a collection with such a count reads as an empty one. */
  lemma LongCountReadsAsEmpty(data: seq<byte>, t: Trailer, off: nat)
    requires Accepted(data, t) && 8 <= off && off + 1 < t.offsetTableOffset
    requires data[off] % 16 == 15 && data[off + 1] / 16 == 1 && data[off + 1] % 16 >= 8
    requires off + 1 + Pow2(data[off + 1] % 16) < t.offsetTableOffset
    ensures data[off] / 16 == 0x4 ==> ShapeAt(data, t, off) == Some(Finished(Data([])))
    ensures data[off] / 16 in {0x5, 0x6} ==> ShapeAt(data, t, off) == Some(Finished(Str([])))
    ensures data[off] / 16 in {0xA, 0xC, 0xD} ==> ShapeAt(data, t, off).Some? && ShapeAt(data, t, off).value.Refs?
                                                  && ShapeAt(data, t, off).value.n == 0
  {
    hide CountAt, Pow2, Accepted, IntShape, RealShape, DateShape, UidShape;
    LongCountIsZero(data, t, off);
    AcceptedEnds(data, t);
    var p := off + 2 + Pow2(data[off + 1] % 16);
    if data[off] / 16 in {0x4, 0x5} {
      assert data[p..p + 0] == [];
    } else if data[off] / 16 == 0x6 {
      assert CharsAt(data, p, 0) == [];
    }
  }

  /** Reference k of the collection whose references start at refPos. */
  function ChildOffset(data: seq<byte>, t: Trailer, refPos: nat, k: nat): (off: u64)
    requires Accepted(data, t)
  {
    OffsetOfRefAt(data, t, refPos + k * t.objectRefSize)
  }

  // ---- The whole object table ----

  /** One object with its references resolved to offsets. */
  ghost function Resolve(data: seq<byte>, t: Trailer, s: Shape): Item
    requires Accepted(data, t)
  {
    match s
    case Finished(v) => Leaf(v)
    case Refs(kind, pos, n) => Node(kind, seq(n, k requires 0 <= k < n => ChildOffset(data, t, pos, k)))
  }

  /** Every object the reader understands, wherever in the file it starts. */
  ghost function TableOf(data: seq<byte>, t: Trailer): (tab: ObjectTable)
    requires Accepted(data, t)
  {
    map off | off in Below(t.offsetTableOffset) && ShapeAt(data, t, off).Some?
            :: Resolve(data, t, ShapeAt(data, t, off).value)
  }

  lemma TableAt(data: seq<byte>, t: Trailer, off: nat)
    requires Accepted(data, t)
    ensures off in TableOf(data, t) <==> ShapeAt(data, t, off).Some?
    ensures off in TableOf(data, t) ==>
              TableOf(data, t)[off] == Resolve(data, t, ShapeAt(data, t, off).value)
  {
  }

  lemma TableLeavesArePrimitive(data: seq<byte>, t: Trailer)
    requires Accepted(data, t)
    ensures LeavesArePrimitive(TableOf(data, t))
  {
  }
}
