/** The binary property list format, byte by byte: what each object looks like in a file, in the numbers of the format
    itself, for the writer's encodings and for the whole file. */
module PlistBytes {
  import opened Bytes
  import opened PlistTree
  import opened PlistFormat
  import opened PlistEncoding
  import opened PlistObjects
  import opened PlistRoundTrip

  // ---- Objects ----

  /** 10, 11, 12 or 13 and the value in 1, 2, 4 or 8 bytes, as few as hold it. */
  ghost predicate IsIntObject(v: nat, s: seq<byte>) {
    && |s| == (if v < 0x100 then 2 else if v < 0x1_0000 then 3 else if v < 0x1_0000_0000 then 5 else 9)
    && s[0] == (if |s| == 2 then 0x10 else if |s| == 3 then 0x11 else if |s| == 5 then 0x12 else 0x13)
    && Value(s[1..]) == v
  }

  /** 80, 81 or 83 and the number in 1, 2 or 4 bytes. */
  ghost predicate IsUidObject(v: nat, s: seq<byte>) {
    && |s| == (if v < 0x100 then 2 else if v < 0x1_0000 then 3 else 5)
    && s[0] == (if |s| == 2 then 0x80 else if |s| == 3 then 0x81 else 0x83)
    && Value(s[1..]) == v
  }

  /** A marker with the kind in its high half and the count in its low half, or 15 there and the count behind it. */
  ghost predicate IsCounted(kind: nat, n: nat, s: seq<byte>, body: seq<byte>) {
    var k := |s| - |body|;
    && 0 < k && s[k..] == body
    && (if n < 15 then k == 1 && s[0] == 16 * kind + n else s[0] == 16 * kind + 15 && IsIntObject(n, s[1..k]))
  }

  /** A character a byte behind a marker of high half 5 when all are at most 7F; otherwise two bytes each, behind 6. */
  ghost predicate IsStringObject(chars: seq<u16>, s: seq<byte>) {
    if forall i :: 0 <= i < |chars| ==> chars[i] <= 0x7F then
      |chars| <= |s| && IsOneByteString(chars, s, s[|s| - |chars|..])
    else
      2 * |chars| <= |s| && IsTwoByteString(chars, s, s[|s| - 2 * |chars|..])
  }

  ghost predicate IsOneByteString(chars: seq<u16>, s: seq<byte>, body: seq<byte>) {
    IsCounted(5, |chars|, s, body) && |body| == |chars| && forall i :: 0 <= i < |chars| ==> body[i] == chars[i]
  }

  function Unit(body: seq<byte>, i: nat): int
    requires 2 * i + 1 < |body|
  {
    var high: int := body[2 * i];
    256 * high + body[2 * i + 1]
  }

  ghost predicate IsTwoByteString(chars: seq<u16>, s: seq<byte>, body: seq<byte>) {
    && IsCounted(6, |chars|, s, body) && |body| == 2 * |chars|
    && forall i: nat {:trigger chars[i]} :: i < |chars| ==> Unit(body, i) == chars[i]
  }

  ghost predicate IsLeafObject(v: Plist, s: seq<byte>) {
    match v
    case Bool(b) => s == [if b then 0x09 else 0x08]
    case Int(bits) => IsIntObject(bits, s)
    case Int128(high, low) => |s| == 17 && s[0] == 0x14 && Value(s[1..9]) == high && Value(s[9..]) == low
    case Real(bytes) => s == [if |bytes| == 4 then 0x22 else 0x23] + bytes
    case Date(bytes) => s == [0x33] + bytes
    case Data(bytes) => IsCounted(4, |bytes|, s, bytes)
    case Str(chars) => IsStringObject(chars, s)
    case Uid(id) => IsUidObject(id, s)
    case _ => false
  }

  /** The number of each item in w bytes, one after the other. */
  ghost predicate AreRefs(items: seq<nat>, table: map<nat, nat>, w: nat, body: seq<byte>) {
    && |body| == |items| * w
    && forall k: nat {:trigger items[k]} :: k < |items| ==>
         0 <= k * w <= k * w + w <= |body| && Value(body[k * w..k * w + w]) == NumberOf(items[k], table) % Pow256(w)
  }

  function NumberOf(item: nat, table: map<nat, nat>): nat {
    if item in table then table[item] % 0x1_0000_0000 else 0
  }

  /** An array is its items behind high half A, a dictionary its keys and then its values behind D, which counts
      pairs. */
  ghost predicate IsNodeObject(n: Node, table: map<nat, nat>, w: nat, s: seq<byte>) {
    match n
    case LeafNode(v) => IsLeafObject(v, s)
    case ArrayNode(items) =>
      |items| * w <= |s| && IsCollection(0xA, |items|, items, table, w, s, s[|s| - |items| * w..])
    case DictNode(items) =>
      |items| * w <= |s| && IsCollection(0xD, |items| / 2, items, table, w, s, s[|s| - |items| * w..])
    case OtherNode => false
  }

  ghost predicate IsCollection(kind: nat, n: nat, items: seq<nat>, table: map<nat, nat>, w: nat, s: seq<byte>,
                               body: seq<byte>) {
    IsCounted(kind, n, s, body) && AreRefs(items, table, w, body)
  }

  // ---- The encodings are these objects ----

  lemma IntIs(v: u64)
    ensures IsIntObject(v, EncodeInt(v))
  {
    hide ToBE, Value, Pow256;
    Pow256Values();
    var w := if v <= 0xFF then 1 else if v <= 0xFFFF then 2 else if v <= 0xFFFF_FFFF then 4 else 8;
    ValueOfToBE(v, w);
    assert EncodeInt(v)[1..] == ToBE(v, w);
  }

  lemma UidIs(v: u32)
    ensures IsUidObject(v, EncodeUid(v))
  {
    hide ToBE, Value, Pow256;
    Pow256Values();
    var w := if v <= 0xFF then 1 else if v <= 0xFFFF then 2 else 4;
    ValueOfToBE(v, w);
    assert EncodeUid(v)[1..] == ToBE(v, w);
  }

  lemma CountIs(marker: byte, n: u64, body: seq<byte>)
    requires marker <= 0xF0 && marker % 16 == 0
    ensures IsCounted(marker / 16, n, EncodeCount(marker, n) + body, body)
  {
    hide EncodeInt, IsIntObject;
    IntIs(n);
    var s := EncodeCount(marker, n) + body;
    assert s[|s| - |body|..] == body;
    if n >= 15 {
      assert s[1..|s| - |body|] == EncodeInt(n);
    }
  }

  lemma StringIs(chars: seq<u16>)
    requires |chars| < MAX_ITEMS
    ensures IsStringObject(chars, EncodeString(chars))
  {
    hide EncodeCount, IsCounted;
    var s := EncodeString(chars);
    if IsAscii(chars) {
      var body := AsciiBytes(chars);
      CountIs(MARKER_ASCII, |chars|, body);
      assert s[|s| - |chars|..] == body;
    } else {
      var body := ConcatBE(chars, 2);
      CountIs(MARKER_UTF16, |chars|, body);
      ConcatBELength(chars, 2);
      assert s[|s| - 2 * |chars|..] == body;
      forall i: nat | i < |chars|
        ensures Unit(body, i) == chars[i]
      {
        TwoBytes(chars, i);
      }
    }
  }

  lemma TwoBytes(chars: seq<u16>, i: nat)
    requires i < |chars|
    ensures |ConcatBE(chars, 2)| == 2 * |chars|
    ensures Unit(ConcatBE(chars, 2), i) == chars[i]
  {
    hide ToBE, ConcatBE;
    ConcatBELength(chars, 2);
    ConcatBEEntry(chars, 2, i);
    var body := ConcatBE(chars, 2);
    assert body[i * 2..i * 2 + 2][0] == body[2 * i] && body[i * 2..i * 2 + 2][1] == body[2 * i + 1];
    TwoToBE(chars[i]);
  }

  lemma TwoToBE(v: u16)
    ensures ToBE(v, 2) == [v / 256, v % 256]
  {
    assert ToBE(v, 2) == ToBE(v / 256, 1) + [v % 256];
  }

  lemma Int128Is(high: u64, low: u64)
    ensures IsLeafObject(Int128(high, low), EncodeLeaf(Int128(high, low)))
  {
    hide ToBE, Value, Pow256;
    var h, l := ToBE(high, 8), ToBE(low, 8);
    var s := EncodeLeaf(Int128(high, low));
    assert s == [0x14] + (h + l) && |s| == 17;
    assert s[1..9] == h && s[9..] == l;
    Pow256Values();
    ValueOfToBE(high, 8);
    ValueOfToBE(low, 8);
  }

  lemma LeafIs(v: Plist)
    requires WritableLeaf(v) && FitsInMemory(v)
    ensures IsLeafObject(v, EncodeLeaf(v))
  {
    hide EncodeInt, EncodeUid, EncodeCount, EncodeString, IsIntObject, IsUidObject, IsStringObject, IsCounted;
    match v
    case Int(bits) => IntIs(bits);
    case Int128(high, low) => Int128Is(high, low);
    case Data(bytes) => CountIs(MARKER_DATA, |bytes|, bytes);
    case Str(chars) => StringIs(chars);
    case Uid(id) => UidIs(id);
    case _ =>
  }

  lemma RefsAre(items: seq<nat>, table: map<nat, nat>, w: nat)
    ensures AreRefs(items, table, w, ConcatBE(RefsOf(table, items), w))
  {
    hide ConcatBE;
    var refs := RefsOf(table, items);
    ConcatBELength(refs, w);
    forall k: nat | k < |items|
      ensures 0 <= k * w <= k * w + w <= |ConcatBE(refs, w)|
      ensures Value(ConcatBE(refs, w)[k * w..k * w + w]) == NumberOf(items[k], table) % Pow256(w)
    {
      ConcatBEEntry(refs, w, k);
      ValueOfToBE(refs[k], w);
    }
  }

  lemma CollectionIs(marker: byte, n: u64, items: seq<nat>, table: map<nat, nat>, w: nat)
    requires marker <= 0xF0 && marker % 16 == 0
    ensures var s := EncodeCount(marker, n) + ConcatBE(RefsOf(table, items), w);
            |items| * w <= |s| && IsCollection(marker / 16, n, items, table, w, s, s[|s| - |items| * w..])
  {
    hide EncodeCount, ConcatBE, RefsOf, IsCounted, AreRefs;
    var body := ConcatBE(RefsOf(table, items), w);
    var s := EncodeCount(marker, n) + body;
    ConcatBELength(RefsOf(table, items), w);
    CountIs(marker, n, body);
    RefsAre(items, table, w);
    assert s[|s| - |items| * w..] == body;
  }

  /** Every encoding is the object the format describes. */
  lemma NodeIs(n: Node, table: map<nat, nat>, w: nat)
    requires Encodable(n)
    ensures IsNodeObject(n, table, w, EncodeNode(n, table, w))
  {
    hide EncodeCount, EncodeLeaf, ConcatBE, RefsOf, IsLeafObject, IsCollection;
    match n
    case LeafNode(v) => LeafIs(v);
    case ArrayNode(items) => CollectionIs(MARKER_ARRAY, |items|, items, table, w);
    case DictNode(items) => CollectionIs(MARKER_DICT, |items| / 2, items, table, w);
  }

  // ---- The whole file ----

  /** The smallest of 1, 2, 4 and 8 bytes that hold the number. */
  predicate IsWidth(w: nat, count: nat) {
    w == if count < 0x100 then 1 else if count < 0x1_0000 then 2 else if count < 0x1_0000_0000 then 4 else 8
  }

  /** Entry k of the offset table at `at`, whose entries have w bytes; after the last, where the table starts. */
  function Boundary(f: seq<byte>, at: nat, w: nat, n: nat, k: nat): nat {
    if k < n && 0 <= at + k * w && at + k * w + w <= |f| then Value(f[at + k * w..at + k * w + w]) else at
  }

  /** "bplist00", the objects one after the other, the table of where each starts, and the 32 bytes of the trailer: six
      zeros, the two widths, and in eight bytes each the number of objects, the root's number and the table's place. */
  ghost predicate IsPlistFile(nodes: seq<Node>, table: map<nat, nat>, f: seq<byte>) {
    var n, b := |nodes|, |f| - 32;
    && b >= 8 && f[..8] == [0x62, 0x70, 0x6C, 0x69, 0x73, 0x74, 0x30, 0x30]
    && f[b..b + 6] == [0, 0, 0, 0, 0, 0]
    && Value(f[b + 8..b + 16]) == n && Value(f[b + 16..b + 24]) == 0
    && var at, w, refs := Value(f[b + 24..b + 32]), f[b + 6] as nat, f[b + 7] as nat;
       && IsWidth(w, at) && IsWidth(refs, n) && at + n * w == b
       && Boundary(f, at, w, n, 0) == 8
       && forall k: nat {:trigger nodes[k]} :: k < n ==>
            IsObjectIn(f, nodes[k], table, refs, Boundary(f, at, w, n, k), Boundary(f, at, w, n, k + 1))
  }

  ghost predicate IsObjectIn(f: seq<byte>, n: Node, table: map<nat, nat>, w: nat, start: nat, end: nat) {
    start <= end <= |f| && IsNodeObject(n, table, w, f[start..end])
  }

  /** What the list holds, in the order of the list. */
  ghost function Nodes(g: Graph, st: Flat): seq<Node>
    requires AllEncodable(g, st)
  {
    seq(|st.objlist|, k requires 0 <= k < |st.objlist| => g.nodes[st.objlist[k]])
  }

  lemma TrailerIs(f: seq<byte>, t: Trailer)
    requires |f| >= 40 && At(f, |f| - 32, EncodeTrailer(t))
    ensures var b := |f| - 32;
            && f[b..b + 6] == [0, 0, 0, 0, 0, 0] && f[b + 6] == t.offsetIntSize && f[b + 7] == t.objectRefSize
            && Value(f[b + 8..b + 16]) == t.numObjects && Value(f[b + 16..b + 24]) == t.topObject
            && Value(f[b + 24..b + 32]) == t.offsetTableOffset
  {
    hide ToBE, Value, Pow256;
    var b := |f| - 32;
    var zeros: seq<byte> := [0, 0, 0, 0, 0, 0];
    var widths: seq<byte> := [t.offsetIntSize, t.objectRefSize];
    var n, top, off := ToBE(t.numObjects, 8), ToBE(t.topObject, 8), ToBE(t.offsetTableOffset, 8);
    assert EncodeTrailer(t) == zeros + (widths + (n + (top + off)));
    AtSplit(f, b, zeros, widths + (n + (top + off)));
    AtSplit(f, b + 6, widths, n + (top + off));
    AtSplit(f, b + 8, n, top + off);
    AtSplit(f, b + 16, top, off);
    AtByte(f, b + 6, widths, 0);
    AtByte(f, b + 6, widths, 1);
    Pow256Values();
    ValueOfToBE(t.numObjects, 8);
    ValueOfToBE(t.topObject, 8);
    ValueOfToBE(t.offsetTableOffset, 8);
  }

  /** Entry k of the table is where object k starts. */
  lemma BoundaryIs(g: Graph, st: Flat, k: nat)
    requires Writable(g, st) && k <= |st.objlist|
    ensures var f, t := FileBytes(g, st), TrailerOf(g, st);
            Boundary(f, t.offsetTableOffset, t.offsetIntSize, t.numObjects, k) == StartOf(g, st, k)
  {
    hide ObjectBytes, FileBytes, EncodeNode, TrailerFits, ConcatBE, ToBE, Value, Pow256;
    var f, t := FileBytes(g, st), TrailerOf(g, st);
    if k < |st.objlist| {
      FileParts(g, st);
      OffsetsAreStarts(g, st, k);
      var starts := Starts(g, st, |st.objlist|);
      ByteCountHolds(t.offsetTableOffset);
      Pow256Monotone(t.offsetIntSize, t.offsetIntSize);
      ConcatBEEntry(starts, t.offsetIntSize, k);
      ValueOfToBE(starts[k], t.offsetIntSize);
      SliceOfSlice(f, t.offsetTableOffset, t.offsetTableOffset + |OffsetTable(g, st)|,
                   k * t.offsetIntSize, k * t.offsetIntSize + t.offsetIntSize);
      SmallMod(starts[k], Pow256(t.offsetIntSize));
    }
  }

  lemma SmallMod(x: nat, n: nat)
    requires x < n
    ensures x % n == x
  {
  }

  lemma SpanIs(g: Graph, st: Flat, k: nat)
    requires Writable(g, st) && k < |st.objlist|
    ensures StartOf(g, st, k) == HEADER_SIZE + |ObjectBytes(g, st, k)|
    ensures StartOf(g, st, k + 1)
         == StartOf(g, st, k) + |EncodeNode(g.nodes[st.objlist[k]], st.objtable, RefSize(st))|
  {
    hide EncodeNode;
  }

  lemma ObjectIs(g: Graph, st: Flat, k: nat)
    requires Writable(g, st) && k < |st.objlist|
    ensures IsObjectIn(FileBytes(g, st), g.nodes[st.objlist[k]], st.objtable, RefSize(st),
                       StartOf(g, st, k), StartOf(g, st, k + 1))
  {
    hide FileBytes, EncodeNode, IsNodeObject, OffsetTable, TrailerOf, EncodeTrailer, ObjectBytes, StartOf;
    FileParts(g, st);
    ObjectAt(g, st, k, |st.objlist|, FileBytes(g, st), HEADER_SIZE);
    SpanIs(g, st, k);
    NodeIs(g.nodes[st.objlist[k]], st.objtable, RefSize(st));
  }

  /** The file the writer's encoding gives is a file of the format with the listed objects. */
  lemma FileIs(g: Graph, st: Flat)
    requires Writable(g, st)
    ensures IsPlistFile(Nodes(g, st), st.objtable, FileBytes(g, st))
  {
    hide ObjectBytes, FileBytes, EncodeNode, EncodeTrailer, OffsetTable, Boundary, IsObjectIn, Value, StartOf;
    var f, t := FileBytes(g, st), TrailerOf(g, st);
    FileParts(g, st);
    TrailerFitsFile(g, st);
    TrailerIs(f, t);
    StartsAtEight(g, st);
    BoundaryIs(g, st, 0);
    forall k: nat | k < |st.objlist|
      ensures IsObjectIn(f, g.nodes[st.objlist[k]], st.objtable, RefSize(st),
                         Boundary(f, t.offsetTableOffset, t.offsetIntSize, t.numObjects, k),
                         Boundary(f, t.offsetTableOffset, t.offsetIntSize, t.numObjects, k + 1))
    {
      BoundaryIs(g, st, k);
      BoundaryIs(g, st, k + 1);
      ObjectIs(g, st, k);
    }
    assert f[..8] == HEADER;
  }

  lemma StartsAtEight(g: Graph, st: Flat)
    requires Writable(g, st)
    ensures StartOf(g, st, 0) == 8
  {
  }

  // ---- The order of the list ----

  /** An object before what it holds, what it holds in order: a tree is listed in this order. */
  ghost function Preorder(g: Graph, p: nat): seq<nat>
    requires GraphOk(g) && p < |g.nodes|
    decreases p + 1, 0
  {
    assert NodeOk(g.nodes[p], p);
    [p] + PreorderAll(g, p, Items(g.nodes[p]))
  }

  ghost function PreorderAll(g: Graph, bound: nat, cs: seq<nat>): seq<nat>
    requires GraphOk(g) && bound <= |g.nodes|
    requires forall i: nat :: i < |cs| ==> cs[i] < bound
    decreases bound, |cs|
  {
    if cs == [] then [] else Preorder(g, cs[0]) + PreorderAll(g, bound, cs[1..])
  }

  /** Strings, numbers, dates and data: the kinds of which only the first object of a class is listed. */
  predicate IsListedOnce(n: Node) {
    n.LeafNode? && (n.v.Str? || n.v.Int? || n.v.Int128? || n.v.Real? || n.v.Date? || n.v.Data?)
  }

  lemma UniquedKinds(g: Graph, p: nat)
    requires GraphOk(g) && p < |g.nodes|
    ensures IsUniqued(g.nodes[p]) <==> IsListedOnce(g.nodes[p])
  {
    assert NodeOk(g.nodes[p], p);
  }

  /** The classes of uniqued leaves met in a list, on top of those seen. */
  ghost function Seen(g: Graph, list: seq<nat>, seen: set<nat>): set<nat>
    requires |g.classes| == |g.nodes|
  {
    if list == [] then seen
    else if list[0] < |g.nodes| && IsListedOnce(g.nodes[list[0]]) then Seen(g, list[1..], seen + {g.classes[list[0]]})
    else Seen(g, list[1..], seen)
  }

  /** The list without the uniqued leaves whose class has been seen before. */
  ghost function Deduped(g: Graph, list: seq<nat>, seen: set<nat>): seq<nat>
    requires |g.classes| == |g.nodes|
  {
    if list == [] then []
    else if list[0] < |g.nodes| && IsListedOnce(g.nodes[list[0]]) then
      (if g.classes[list[0]] in seen then [] else [list[0]])
      + Deduped(g, list[1..], seen + {g.classes[list[0]]})
    else [list[0]] + Deduped(g, list[1..], seen)
  }

  lemma {:induction false} DedupedConcat(g: Graph, a: seq<nat>, b: seq<nat>, seen: set<nat>)
    requires |g.classes| == |g.nodes|
    ensures Deduped(g, a + b, seen) == Deduped(g, a, seen) + Deduped(g, b, Seen(g, a, seen))
    ensures Seen(g, a + b, seen) == Seen(g, b, Seen(g, a, seen))
    decreases |a|
  {
    if a == [] {
      assert a + b == b;
    } else {
      assert (a + b)[1..] == a[1..] + b;
      DedupedConcat(g, a[1..], b, seen);
      if a[0] < |g.nodes| && IsListedOnce(g.nodes[a[0]]) {
        DedupedConcat(g, a[1..], b, seen + {g.classes[a[0]]});
      }
    }
  }

  lemma ListsJoin(g: Graph, a: seq<nat>, b: seq<nat>, seen: set<nat>, before: seq<nat>)
    requires |g.classes| == |g.nodes|
    ensures before + Deduped(g, a + b, seen) == before + Deduped(g, a, seen) + Deduped(g, b, Seen(g, a, seen))
    ensures Seen(g, a + b, seen) == Seen(g, b, Seen(g, a, seen))
  {
    hide Deduped, Seen;
    DedupedConcat(g, a, b, seen);
  }

  lemma DedupedOne(g: Graph, p: nat, seen: set<nat>)
    requires p < |g.nodes| == |g.classes|
    ensures var again := IsListedOnce(g.nodes[p]) && g.classes[p] in seen;
            && Deduped(g, [p], seen) == (if again then [] else [p])
            && Seen(g, [p], seen) == if IsListedOnce(g.nodes[p]) then seen + {g.classes[p]} else seen
  {
    assert [p][1..] == [];
  }

  lemma LeafPreorder(g: Graph, p: nat)
    requires GraphOk(g) && p < |g.nodes| && IsListedOnce(g.nodes[p])
    ensures Preorder(g, p) == [p]
  {
    assert NodeOk(g.nodes[p], p);
  }

  /** The list is the preorder of the unfolded tree, with each class of uniqued leaves at its first place only. */
  lemma {:induction false} ListedInPreorder(g: Graph, p: nat, st: Flat)
    requires GraphOk(g) && p < |g.nodes|
    ensures var next := Flatten(g, p, st);
            && next.objlist == st.objlist + Deduped(g, Preorder(g, p), st.unique.Keys)
            && next.unique.Keys == Seen(g, Preorder(g, p), st.unique.Keys)
    decreases p + 1, 0
  {
    hide Deduped, Seen, PreorderAll, FlattenAll;
    assert NodeOk(g.nodes[p], p);
    UniquedKinds(g, p);
    var cs, seen := Items(g.nodes[p]), st.unique.Keys;
    DedupedOne(g, p, seen);
    if IsListedOnce(g.nodes[p]) && g.classes[p] in st.unique {
      LeafPreorder(g, p);
      assert seen + {g.classes[p]} == seen;
    } else {
      DedupedConcat(g, [p], PreorderAll(g, p, cs), seen);
      AllListedInPreorder(g, p, cs, Append(g, p, st));
      assert Append(g, p, st).unique.Keys == Seen(g, [p], seen);
    }
  }

  lemma {:induction false} AllListedInPreorder(g: Graph, bound: nat, cs: seq<nat>, st: Flat)
    requires GraphOk(g) && bound <= |g.nodes|
    requires forall i: nat :: i < |cs| ==> cs[i] < bound
    ensures var next := FlattenAll(g, bound, cs, st);
            && next.objlist == st.objlist + Deduped(g, PreorderAll(g, bound, cs), st.unique.Keys)
            && next.unique.Keys == Seen(g, PreorderAll(g, bound, cs), st.unique.Keys)
    decreases bound, |cs|
  {
    if cs != [] {
      assert |g.classes| == |g.nodes|;
      hide Deduped, Seen, Preorder, Flatten, GraphOk;
      var mid, seen := Flatten(g, cs[0], st), st.unique.Keys;
      ListedInPreorder(g, cs[0], st);
      AllListedInPreorder(g, bound, cs[1..], mid);
      ListsJoin(g, Preorder(g, cs[0]), PreorderAll(g, bound, cs[1..]), seen, st.objlist);
    }
  }

  /** What is written is the preorder of the graph's tree from the root, each class of uniqued leaves once. */
  lemma WrittenOrder(g: Graph, root: nat)
    requires GraphOk(g) && root < |g.nodes|
    ensures Flatten(g, root, EMPTY).objlist == Deduped(g, Preorder(g, root), {})
  {
    ListedInPreorder(g, root, EMPTY);
    assert EMPTY.unique.Keys == {};
  }
  const PAIR := Graph([LeafNode(Str([0x61])), LeafNode(Str([0x62])), ArrayNode([0, 1, 0])], [0, 1, 2])

  lemma PairIsOk()
    ensures GraphOk(PAIR)
  {
    assert NodeOk(PAIR.nodes[0], 0) && NodeOk(PAIR.nodes[1], 1) && NodeOk(PAIR.nodes[2], 2);
  }

  lemma PairPreorder()
    ensures GraphOk(PAIR) && Preorder(PAIR, 2) == [2, 0, 1, 0]
  {
    PairIsOk();
    hide GraphOk;
    LeafPreorder(PAIR, 0);
    LeafPreorder(PAIR, 1);
    assert [0, 1, 0][1..] == [1, 0] && [1, 0][1..] == [0] && [0][1..] == [];
    assert PreorderAll(PAIR, 2, [0]) == [0];
    assert PreorderAll(PAIR, 2, [1, 0]) == [1, 0];
    assert PreorderAll(PAIR, 2, [0, 1, 0]) == [0, 1, 0];
  }

  /** An array of two strings, the first of them twice, is listed as the array, the first and the second string. */
  lemma ExampleOrder()
    ensures GraphOk(PAIR) && Flatten(PAIR, 2, EMPTY).objlist == [2, 0, 1]
  {
    hide GraphOk, Flatten, Preorder;
    PairPreorder();
    WrittenOrder(PAIR, 2);
    assert [2, 0, 1, 0][1..] == [0, 1, 0] && [0, 1, 0][1..] == [1, 0] && [1, 0][1..] == [0] && [0][1..] == [];
    assert {0} + {1} == {0, 1} == {0, 1} + {0} && {} + {0} == {0};
    assert Deduped(PAIR, [0], {0, 1}) == [] + Deduped(PAIR, [], {0, 1}) == [];
    assert Deduped(PAIR, [1, 0], {0}) == [1] + Deduped(PAIR, [0], {0, 1}) == [1];
    assert Deduped(PAIR, [0, 1, 0], {}) == [0] + Deduped(PAIR, [1, 0], {0}) == [0, 1];
    assert Deduped(PAIR, [2, 0, 1, 0], {}) == [2] + Deduped(PAIR, [0, 1, 0], {});
  }
}
