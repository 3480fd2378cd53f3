/** What the binary property list writer produces, as functions: the flattening of a shared object graph into a
    numbered list, the bytes of one object, and the bytes of the whole file (CFBinaryPList.c, writing half). */
module PlistEncoding {
  import opened Bytes
  import opened PlistTree
  import opened PlistFormat

  // ---- The graph to be written ----

  /** One object of the caller's graph. Objects are numbers, so that two references can be to the same object.
      OtherNode is any type the writer refuses: null, sets, URLs and so on. */
  datatype Node =
    | LeafNode(v: Plist)
    | ArrayNode(items: seq<nat>)
    | DictNode(items: seq<nat>)  // the keys, then the values, in the order the dictionary enumerates them
    | OtherNode

  /** A graph with the classes under which the uniquing set compares its objects. The set is created with null
      equality and hash callbacks, so in the source every object is in a class of its own; the model allows any
      classes that put only equal leaves together. */
  datatype Graph = Graph(nodes: seq<Node>, classes: seq<nat>)

  function Items(n: Node): seq<nat> {
    if n.ArrayNode? || n.DictNode? then n.items else []
  }

  /** A collection of n objects holds n eight-byte pointers in memory. */
  const MAX_ITEMS := 0x1000_0000_0000_0000

  /** The leaves the writer has an encoding for. */
  predicate WritableLeaf(v: Plist) {
    match v
    case Null => false
    case Real(b) => |b| == 4 || |b| == 8
    case Date(b) => |b| == 8
    case Array(_) => false
    case Set(_) => false
    case Dict(_) => false
    case _ => true
  }

  /** Strings, numbers, dates and data go through the uniquing set; booleans, UIDs and collections do not. */
  predicate IsUniqued(n: Node) {
    n.LeafNode? && !n.v.Bool? && !n.v.Uid?
  }

  /** An acyclic graph of objects that exist in memory, its objects numbered so that references lead to smaller
      numbers. */
  ghost predicate GraphOk(g: Graph) {
    && |g.classes| == |g.nodes|
    && (forall p: nat :: p < |g.nodes| ==> NodeOk(g.nodes[p], p))
    && (forall p: nat, q: nat :: p < |g.nodes| && q < |g.nodes| && SameClass(g, p, q) ==> g.nodes[p] == g.nodes[q])
  }

  ghost predicate SameClass(g: Graph, p: nat, q: nat)
    requires p < |g.nodes| == |g.classes| && q < |g.nodes|
  {
    IsUniqued(g.nodes[p]) && IsUniqued(g.nodes[q]) && g.classes[p] == g.classes[q]
  }

  ghost predicate NodeOk(n: Node, p: nat) {
    && (!n.OtherNode? ==> Encodable(n))
    && (n.DictNode? ==> |n.items| % 2 == 0)
    && forall i: nat :: i < |Items(n)| ==> Items(n)[i] < p
  }

  predicate FitsInMemory(v: Plist) {
    match v
    case Str(chars) => |chars| < MAX_ITEMS
    case Data(bytes) => |bytes| < MAX_ITEMS
    case _ => true
  }

  /** The objects _appendObject accepts. */
  predicate Encodable(n: Node) {
    match n
    case LeafNode(v) => WritableLeaf(v) && FitsInMemory(v)
    case ArrayNode(items) => |items| < MAX_ITEMS
    case DictNode(items) => |items| < MAX_ITEMS
    case OtherNode => false
  }

  // ---- Flattening ----

  /** The numbered list, the table from object to number, and the uniquing set as a map from class to member. */
  datatype Flat = Flat(objlist: seq<nat>, objtable: map<nat, nat>, unique: map<nat, nat>)

  const EMPTY := Flat([], map[], map[])

  /** CFDictionaryAddValue: a key that is present keeps its value. */
  function AddIfAbsent(m: map<nat, nat>, k: nat, v: nat): map<nat, nat> {
    if k in m then m else m[k := v]
  }

  /** The number a reference to object c is written as: absent objects read as null, and numbers are cut to 32 bits. */
  function RefOf(table: map<nat, nat>, c: nat): (r: u32) {
    if c in table then table[c] % 0x1_0000_0000 else 0
  }

  /** One call of _flattenPlist. Leaves are looked up in the uniquing set; a collection is appended at every visit,
      shared or not, and only its first number stays in the table. */
  ghost function Flatten(g: Graph, p: nat, st: Flat): Flat
    requires GraphOk(g) && p < |g.nodes|
    decreases p + 1, 0
  {
    var n := g.nodes[p];
    if IsUniqued(n) && g.classes[p] in st.unique then
      var u := st.unique[g.classes[p]];
      if u == p then st else st.(objtable := AddIfAbsent(st.objtable, p, RefOf(st.objtable, u)))
    else
      assert NodeOk(n, p);
      FlattenAll(g, p, Items(n), Append(g, p, st))
  }

  function Append(g: Graph, p: nat, st: Flat): Flat
    requires p < |g.nodes| == |g.classes|
  {
    Flat(st.objlist + [p],
         AddIfAbsent(st.objtable, p, |st.objlist| % 0x1_0000_0000),
         if IsUniqued(g.nodes[p]) then st.unique[g.classes[p] := p] else st.unique)
  }

  ghost function FlattenAll(g: Graph, bound: nat, cs: seq<nat>, st: Flat): Flat
    requires GraphOk(g) && bound <= |g.nodes|
    requires forall i: nat :: i < |cs| ==> cs[i] < bound
    decreases bound, |cs|
  {
    if cs == [] then st else FlattenAll(g, bound, cs[1..], Flatten(g, cs[0], st))
  }

  // ---- One object ----

  function EncodeInt(v: u64): (s: seq<byte>)
    ensures |s| > 0
  {
    if v <= 0xFF then [MARKER_INT] + ToBE(v, 1)
    else if v <= 0xFFFF then [MARKER_INT + 1] + ToBE(v, 2)
    else if v <= 0xFFFF_FFFF then [MARKER_INT + 2] + ToBE(v, 4)
    else [MARKER_INT + 3] + ToBE(v, 8)
  }

  function EncodeUid(v: u32): (s: seq<byte>)
    ensures |s| > 0
  {
    if v <= 0xFF then [MARKER_UID] + ToBE(v, 1)
    else if v <= 0xFFFF then [MARKER_UID + 1] + ToBE(v, 2)
    else [MARKER_UID + 3] + ToBE(v, 4)
  }

  /** A marker with the count in its low half, or 15 there and the count as an integer object behind it. */
  function EncodeCount(marker: byte, n: u64): (s: seq<byte>)
    requires marker <= 0xF0
    ensures |s| > 0
  {
    if n < 15 then [marker + n] else [marker + 15] + EncodeInt(n)
  }

  predicate IsAscii(chars: seq<u16>) {
    forall i :: 0 <= i < |chars| ==> chars[i] < 0x80
  }

  function AsciiBytes(chars: seq<u16>): (s: seq<byte>)
    requires IsAscii(chars)
    ensures |s| == |chars|
  {
    seq(|chars|, i requires 0 <= i < |chars| => chars[i])
  }

  function EncodeString(chars: seq<u16>): (s: seq<byte>)
    requires |chars| < MAX_ITEMS
    ensures |s| > 0
  {
    if IsAscii(chars) then EncodeCount(MARKER_ASCII, |chars|) + AsciiBytes(chars)
    else EncodeCount(MARKER_UTF16, |chars|) + ConcatBE(chars, 2)
  }

  function EncodeLeaf(v: Plist): (s: seq<byte>)
    requires WritableLeaf(v) && FitsInMemory(v)
    ensures |s| > 0
  {
    match v
    case Bool(b) => [if b then MARKER_TRUE else MARKER_FALSE]
    case Int(bits) => EncodeInt(bits)
    case Int128(high, low) => [MARKER_INT + 4] + (ToBE(high, 8) + ToBE(low, 8))
    case Real(bytes) => [MARKER_REAL + if |bytes| == 4 then 2 else 3] + bytes
    case Date(bytes) => [MARKER_DATE] + bytes
    case Data(bytes) => EncodeCount(MARKER_DATA, |bytes|) + bytes
    case Str(chars) => EncodeString(chars)
    case Uid(id) => EncodeUid(id)
  }

  function RefsOf(table: map<nat, nat>, items: seq<nat>): (r: seq<nat>)
    ensures |r| == |items|
  {
    seq(|items|, i requires 0 <= i < |items| => RefOf(table, items[i]))
  }

  function EncodeNode(n: Node, table: map<nat, nat>, refSize: nat): (s: seq<byte>)
    requires Encodable(n)
    ensures |s| > 0
  {
    match n
    case LeafNode(v) => EncodeLeaf(v)
    case ArrayNode(items) => EncodeCount(MARKER_ARRAY, |items|) + ConcatBE(RefsOf(table, items), refSize)
    case DictNode(items) => EncodeCount(MARKER_DICT, |items| / 2) + ConcatBE(RefsOf(table, items), refSize)
  }

  // ---- The whole file ----

  /** The smallest of 1, 2, 4 and 8 bytes that hold the count. */
  function ByteCount(count: u64): (size: nat) {
    if count < 0x100 then 1 else if count < 0x1_0000 then 2 else if count < 0x1_0000_0000 then 4 else 8
  }

  const HEADER: seq<byte> := MAGIC + [0x30]

  /** The first n listed objects have an encoding. */
  predicate EncodableUpTo(g: Graph, st: Flat, n: nat) {
    && n <= |st.objlist|
    && forall i :: 0 <= i < n ==> st.objlist[i] < |g.nodes| && Encodable(g.nodes[st.objlist[i]])
  }

  predicate AllEncodable(g: Graph, st: Flat) {
    EncodableUpTo(g, st, |st.objlist|)
  }

  function RefSize(st: Flat): nat
    requires |st.objlist| < 0x1_0000_0000
  {
    ByteCount(|st.objlist|)
  }

  /** The first n objects, one after the other. */
  function ObjectBytes(g: Graph, st: Flat, n: nat): (s: seq<byte>)
    requires EncodableUpTo(g, st, n) && |st.objlist| < 0x1_0000_0000
    ensures |s| >= n
  {
    if n == 0 then []
    else ObjectBytes(g, st, n - 1) + EncodeNode(g.nodes[st.objlist[n - 1]], st.objtable, RefSize(st))
  }

  /** Where object i starts. */
  function StartOf(g: Graph, st: Flat, i: nat): nat
    requires AllEncodable(g, st) && |st.objlist| < 0x1_0000_0000 && i <= |st.objlist|
  {
    HEADER_SIZE + |ObjectBytes(g, st, i)|
  }

  function Starts(g: Graph, st: Flat, n: nat): (s: seq<nat>)
    requires AllEncodable(g, st) && |st.objlist| < 0x1_0000_0000 && n <= |st.objlist|
    ensures |s| == n
  {
    seq(n, i requires 0 <= i < n => StartOf(g, st, i))
  }

  function EncodeTrailer(t: Trailer): (s: seq<byte>)
    ensures |s| == TRAILER_SIZE
  {
    [0, 0, 0, 0, 0, 0, t.offsetIntSize, t.objectRefSize]
    + ToBE(t.numObjects, 8) + ToBE(t.topObject, 8) + ToBE(t.offsetTableOffset, 8)
  }

  /** What the writer emits when object n is the first without an encoding: the objects before it. */
  ghost predicate StopsAt(g: Graph, st: Flat, n: nat) {
    n < |st.objlist| && EncodableUpTo(g, st, n) && !EncodableUpTo(g, st, n + 1)
  }

  /** The object table and the offset table leave the file at most as long as a signed 64-bit length can say. */
  ghost predicate Writable(g: Graph, st: Flat) {
    && AllEncodable(g, st)
    && 0 < |st.objlist| < 0x1_0000_0000
    && StartOf(g, st, |st.objlist|) + |st.objlist| * 8 + TRAILER_SIZE <= LONG_MAX
  }

  ghost function TrailerOf(g: Graph, st: Flat): Trailer
    requires Writable(g, st)
  {
    var n := |st.objlist|;
    Trailer(ByteCount(StartOf(g, st, n)), RefSize(st), n, 0, StartOf(g, st, n))
  }

  ghost function OffsetTable(g: Graph, st: Flat): seq<byte>
    requires Writable(g, st)
  {
    ConcatBE(Starts(g, st, |st.objlist|), ByteCount(StartOf(g, st, |st.objlist|)))
  }

  ghost function FileBytes(g: Graph, st: Flat): seq<byte>
    requires Writable(g, st)
  {
    HEADER + ObjectBytes(g, st, |st.objlist|) + OffsetTable(g, st) + EncodeTrailer(TrailerOf(g, st))
  }
}
