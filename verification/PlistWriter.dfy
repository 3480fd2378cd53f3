/** The binary property list writer: the chunking buffer in front of a stream, the appending of each kind of object,
    the flattening that fills the object list and table, and the whole write (CFBinaryPList.c, writing half). */
module PlistWriter {
  import opened Bytes
  import opened PlistTree
  import opened PlistFormat
  import opened PlistEncoding
  import opened PlistRoundTrip
  import opened PlistBytes
  import PlistReader

  /** Where the bytes go: a data object, which takes everything, or a write stream, which takes some of what it is
      offered, nothing when it is full, or fails. */
  class Sink {
    const isData: bool
    var contents: seq<byte>

    constructor (isData: bool)
      ensures this.isData == isData && contents == []
    {
      this.isData := isData;
      contents := [];
    }

    method Append(bytes: seq<byte>)
      modifies this
      ensures contents == old(contents) + bytes
    {
      contents := contents + bytes;
    }

    /** How many bytes the stream takes is not ours to say. */
    method StreamWrite(bytes: seq<byte>) returns (ret: int)
      modifies this
      ensures ret <= |bytes|
      ensures contents == old(contents) + bytes[..if ret < 0 then 0 else ret]
    {
      ret :| -1 <= ret <= |bytes|;
      contents := contents + bytes[..if ret < 0 then 0 else ret];
    }
  }

  const BUFFER_SIZE := 8192 - 32

  class WriteBuffer {
    const sink: Sink
    const buffer: array<byte>
    var used: nat
    var written: nat
    var error: bool
    ghost const base: seq<byte>   // what the sink held at the start
    ghost var total: seq<byte>    // everything written so far

    constructor (sink: Sink)
      ensures Valid() && total == [] && !error
      ensures this.sink == sink && base == sink.contents && fresh(buffer)
    {
      this.sink := sink;
      buffer := new byte[BUFFER_SIZE];
      used := 0;
      written := 0;
      error := false;
      base := sink.contents;
      total := [];
    }

    /** The sink holds a prefix of everything written, and `written` is its length; without an error the rest is in
        the buffer. */
    ghost predicate Valid()
      reads this, sink, buffer
    {
      && buffer.Length == BUFFER_SIZE && used < BUFFER_SIZE
      && |sink.contents| == |base| + written
      && sink.contents <= base + total
      && (!error ==> sink.contents + buffer[..used] == base + total)
    }

    /** Exactly these bytes were added to what is written; after an error the sink is left alone, and a data object
        gives no error. */
    twostate predicate Wrote(bytes: seq<byte>)
      reads this, sink
    {
      && total == old(total) + bytes
      && (old(error) ==> error && sink.contents == old(sink.contents))
      && (sink.isData ==> error == old(error))
    }

    /** writeBytes: all of the bytes reach the sink, or an error is noted and a part of them did. */
    method WriteBytes(bytes: seq<byte>)
      requires |sink.contents| == |base| + written
      modifies this`written, this`error, sink
      ensures |sink.contents| == |base| + written
      ensures old(error) ==> error && sink.contents == old(sink.contents)
      ensures old(sink.contents) <= sink.contents <= old(sink.contents) + bytes
      ensures !error ==> sink.contents == old(sink.contents) + bytes
      ensures sink.isData ==> error == old(error)
    {
      if |bytes| == 0 {
        assert old(sink.contents) + bytes == old(sink.contents);
        return;
      }
      if error {
        return;
      }
      if sink.isData {
        sink.Append(bytes);
        written := written + |bytes|;
        return;
      }
      var rest := bytes;
      while 0 < |rest|
        invariant |sink.contents| == |base| + written && !error
        invariant sink.contents + rest == old(sink.contents) + bytes
        invariant old(sink.contents) <= sink.contents
        decreases |rest|
      {
        ghost var before := sink.contents;
        var ret := sink.StreamWrite(rest);
        if ret <= 0 {
          error := true;
          assert sink.contents == before;
          assert sink.contents <= before + rest;
          return;
        }
        assert before + rest[..ret] + rest[ret..] == before + rest by {
          assert rest[..ret] + rest[ret..] == rest;
        }
        written := written + ret;
        rest := rest[ret..];
      }
      assert sink.contents + [] == sink.contents;
    }

    /** bufferFlush */
    method Flush()
      requires Valid()
      modifies this`used, this`written, this`error, sink
      ensures Valid() && used == 0 && (old(error) ==> sink.contents == old(sink.contents))
      ensures !error ==> sink.contents == base + total
      ensures old(error) ==> error && sink.contents == old(sink.contents)
      ensures sink.isData ==> error == old(error)
    {
      ghost var before := sink.contents;
      WriteBytes(buffer[..used]);
      used := 0;
      if !old(error) {
        assert before + buffer[..old(used)] == base + total;
      }
      assert sink.contents + buffer[..0] == sink.contents;
    }

    /** bufferWrite: buffering is transparent. */
    method Write(bytes: seq<byte>)
      requires Valid()
      modifies this`used, this`written, this`error, this`total, sink, buffer
      ensures Valid() && Wrote(bytes)
    {
      total := total + bytes;
      assert base + total == base + old(total) + bytes;
      if |bytes| == 0 {
        assert old(total) + bytes == old(total);
        return;
      }
      if BUFFER_SIZE <= |bytes| {
        WriteThrough(bytes);
        return;
      }
      WriteBuffered(bytes);
    }

    /** A chunk shorter than the buffer: as much as fits is kept, and when that fills the buffer the rest starts the
        next one. */
    method WriteBuffered(bytes: seq<byte>)
      requires buffer.Length == BUFFER_SIZE && used < BUFFER_SIZE && |bytes| < BUFFER_SIZE
      requires |sink.contents| == |base| + written
      requires sink.contents <= base + total
      requires !error ==> sink.contents + buffer[..used] + bytes == base + total
      modifies this`used, this`written, this`error, sink, buffer
      ensures Valid()
      ensures old(error) ==> error && sink.contents == old(sink.contents)
      ensures sink.isData ==> error == old(error)
    {
      ghost var before := buffer[..used];
      var room := BUFFER_SIZE - used;
      var copyLen := if |bytes| < room then |bytes| else room;
      assert bytes[..copyLen] + bytes[copyLen..] == bytes;
      Fill(bytes[..copyLen]);
      Associates(sink.contents, before, bytes[..copyLen]);
      if used == BUFFER_SIZE {
        assert buffer[..] == buffer[..used];
        Associates(sink.contents + before, bytes[..copyLen], bytes[copyLen..]);
        Spill(bytes[copyLen..]);
      } else {
        assert bytes[..copyLen] == bytes;
      }
    }

    /** What fits in the buffer goes there. */
    method Fill(bytes: seq<byte>)
      requires buffer.Length == BUFFER_SIZE && used + |bytes| <= BUFFER_SIZE
      modifies this`used, buffer
      ensures used == old(used) + |bytes| && buffer[..used] == old(buffer[..used]) + bytes
    {
      forall i | 0 <= i < |bytes| {
        buffer[used + i] := bytes[i];
      }
      used := used + |bytes|;
    }

    /** A chunk at least as long as the buffer goes past it. */
    method WriteThrough(bytes: seq<byte>)
      requires buffer.Length == BUFFER_SIZE && used < BUFFER_SIZE
      requires |sink.contents| == |base| + written
      requires sink.contents <= base + total
      requires !error ==> sink.contents + buffer[..used] + bytes == base + total
      modifies this`used, this`written, this`error, sink
      ensures Valid()
      ensures old(error) ==> error && sink.contents == old(sink.contents)
      ensures sink.isData ==> error == old(error)
    {
      ghost var all := base + total;
      ghost var s0 := sink.contents;
      ghost var chunk := buffer[..used];
      WriteBytes(buffer[..used]);
      used := 0;
      ghost var s1 := sink.contents;
      if !old(error) {
        assert s0 + chunk <= all;
      }
      assert s1 <= all;
      WriteBytes(bytes);
      assert sink.contents + buffer[..0] == sink.contents;
    }

    /** The buffer is full: it goes to the sink, and the rest of the chunk starts the next one. */
    method Spill(tail: seq<byte>)
      requires buffer.Length == BUFFER_SIZE == used && |tail| < BUFFER_SIZE
      requires |sink.contents| == |base| + written
      requires sink.contents <= base + total
      requires !error ==> sink.contents + buffer[..] + tail == base + total
      modifies this`used, this`written, this`error, sink, buffer
      ensures Valid()
      ensures old(error) ==> error && sink.contents == old(sink.contents)
      ensures sink.isData ==> error == old(error)
    {
      ghost var s0 := sink.contents;
      ghost var chunk := buffer[..];
      if !error {
        assert s0 + chunk <= base + total;
      }
      WriteBytes(buffer[..]);
      forall i | 0 <= i < |tail| {
        buffer[i] := tail[i];
      }
      used := |tail|;
      assert buffer[..used] == tail;
    }

    // ---- One object ----

    /** What was written since the total was `before`. */
    ghost function Added(before: seq<byte>): seq<byte>
      reads `total
    {
      if before <= total then total[|before|..] else []
    }

    lemma AddedIs(before: seq<byte>, bytes: seq<byte>)
      requires total == before + bytes
      ensures Added(before) == bytes
    {
    }

    /** _appendInt */
    method AppendInt(v: u64)
      requires Valid()
      modifies this`used, this`written, this`error, this`total, sink, buffer
      ensures Valid() && Wrote(EncodeInt(v)) && IsIntObject(v, Added(old(total)))
    {
      hide IsIntObject, Added, ToBE;
      IntIs(v);
      var nbytes, marker := 8, MARKER_INT + 3;
      if v <= 0xFF {
        nbytes, marker := 1, MARKER_INT;
      } else if v <= 0xFFFF {
        nbytes, marker := 2, MARKER_INT + 1;
      } else if v <= 0xFFFF_FFFF {
        nbytes, marker := 4, MARKER_INT + 2;
      }
      Write([marker]);
      Write(ToBE(v, nbytes));
      assert old(total) + [marker] + ToBE(v, nbytes) == old(total) + ([marker] + ToBE(v, nbytes));
      AddedIs(old(total), EncodeInt(v));
    }

    /** _appendUID */
    method AppendUid(id: u32)
      requires Valid()
      modifies this`used, this`written, this`error, this`total, sink, buffer
      ensures Valid() && Wrote(EncodeUid(id)) && IsUidObject(id, Added(old(total)))
    {
      hide IsUidObject, Added, ToBE;
      UidIs(id);
      var nbytes := 4;
      if id <= 0xFF {
        nbytes := 1;
      } else if id <= 0xFFFF {
        nbytes := 2;
      }
      Write([MARKER_UID + nbytes - 1]);
      Write(ToBE(id, nbytes));
      assert old(total) + [MARKER_UID + nbytes - 1] + ToBE(id, nbytes)
          == old(total) + ([MARKER_UID + nbytes - 1] + ToBE(id, nbytes));
      AddedIs(old(total), EncodeUid(id));
    }

    method AppendCount(marker: byte, n: u64)
      requires Valid() && marker <= 0xF0
      modifies this`used, this`written, this`error, this`total, sink, buffer
      ensures Valid() && Wrote(EncodeCount(marker, n))
    {
      hide EncodeInt;
      var first: byte := marker + if n < 15 then n else 15;
      Write([first]);
      if 15 <= n {
        AppendInt(n);
        Associates(old(total), [first], EncodeInt(n));
      }
    }

    /** A marker with its count, and the bytes behind it. */
    method AppendCounted(marker: byte, n: u64, bytes: seq<byte>)
      requires Valid() && marker <= 0xF0
      modifies this`used, this`written, this`error, this`total, sink, buffer
      ensures Valid() && Wrote(EncodeCount(marker, n) + bytes)
    {
      AppendCount(marker, n);
      Write(bytes);
      assert old(total) + EncodeCount(marker, n) + bytes == old(total) + (EncodeCount(marker, n) + bytes);
    }

    /** _appendString: one byte per character when all are ASCII, two otherwise. */
    method AppendString(chars: seq<u16>)
      requires Valid() && |chars| < MAX_ITEMS
      modifies this`used, this`written, this`error, this`total, sink, buffer
      ensures Valid() && Wrote(EncodeString(chars)) && IsStringObject(chars, Added(old(total)))
    {
      hide IsStringObject, EncodeCount, ConcatBE, AsciiBytes, Added;
      StringIs(chars);
      var ascii := 0;
      while ascii < |chars| && chars[ascii] < 0x80
        invariant ascii <= |chars| && IsAscii(chars[..ascii])
      {
        ascii := ascii + 1;
      }
      assert chars[..|chars|] == chars;
      if ascii == |chars| {
        AppendCounted(MARKER_ASCII, |chars|, AsciiBytes(chars));
      } else {
        AppendCounted(MARKER_UTF16, |chars|, ConcatBE(chars, 2));
      }
      AddedIs(old(total), EncodeString(chars));
    }

    method AppendMarked(marker: byte, bytes: seq<byte>)
      requires Valid()
      modifies this`used, this`written, this`error, this`total, sink, buffer
      ensures Valid() && Wrote([marker] + bytes)
    {
      Write([marker]);
      Write(bytes);
      assert old(total) + [marker] + bytes == old(total) + ([marker] + bytes);
    }

    method AppendLeaf(v: Plist)
      requires Valid() && WritableLeaf(v) && FitsInMemory(v)
      modifies this`used, this`written, this`error, this`total, sink, buffer
      ensures Valid() && Wrote(EncodeLeaf(v)) && IsLeafObject(v, Added(old(total)))
    {
      hide IsLeafObject, IsIntObject, IsUidObject, IsStringObject;
      LeafIs(v);
      match v
      case Bool(b) => Write([if b then MARKER_TRUE else MARKER_FALSE]);
      case Int(bits) => AppendInt(bits);
      case Int128(high, low) => AppendMarked(MARKER_INT + 4, ToBE(high, 8) + ToBE(low, 8));
      case Real(bytes) => AppendMarked(MARKER_REAL + if |bytes| == 4 then 2 else 3, bytes);
      case Date(bytes) => AppendMarked(MARKER_DATE, bytes);
      case Data(bytes) => AppendCounted(MARKER_DATA, |bytes|, bytes);
      case Str(chars) => AppendString(chars);
      case Uid(id) => AppendUid(id);
    }

    /** The reference loop of an array or dictionary. */
    method AppendRefs(items: seq<nat>, table: map<nat, nat>, refSize: nat)
      requires Valid()
      modifies this`used, this`written, this`error, this`total, sink, buffer
      ensures Valid() && Wrote(ConcatBE(RefsOf(table, items), refSize))
    {
      ghost var refs := RefsOf(table, items);
      assert refs[..0] == [] && old(total) + [] == old(total);
      for idx := 0 to |items|
        invariant Valid() && Wrote(ConcatBE(refs[..idx], refSize))
      {
        var refnum := RefOf(table, items[idx]);
        Write(ToBE(refnum, refSize));
        assert refs[..idx + 1][..idx] == refs[..idx] && refs[..idx + 1][idx] == refnum;
        assert old(total) + ConcatBE(refs[..idx], refSize) + ToBE(refnum, refSize)
            == old(total) + ConcatBE(refs[..idx + 1], refSize);
      }
      assert refs[..|items|] == refs;
    }

    method AppendCollection(marker: byte, n: u64, items: seq<nat>, table: map<nat, nat>, refSize: nat)
      requires Valid() && marker <= 0xF0
      modifies this`used, this`written, this`error, this`total, sink, buffer
      ensures Valid() && Wrote(EncodeCount(marker, n) + ConcatBE(RefsOf(table, items), refSize))
    {
      hide EncodeCount, ConcatBE, RefsOf;
      AppendCount(marker, n);
      AppendRefs(items, table, refSize);
      Associates(old(total), EncodeCount(marker, n), ConcatBE(RefsOf(table, items), refSize));
    }

    /** _appendObject: false, with nothing written, for a type it does not know. */
    method AppendObject(n: Node, table: map<nat, nat>, refSize: nat) returns (ok: bool)
      requires Valid() && (!n.OtherNode? ==> Encodable(n))
      modifies this`used, this`written, this`error, this`total, sink, buffer
      ensures Valid() && ok == Encodable(n)
      ensures Wrote(if ok then EncodeNode(n, table, refSize) else [])
      ensures ok ==> IsNodeObject(n, table, refSize, Added(old(total)))
    {
      hide EncodeCount, ConcatBE, RefsOf, EncodeLeaf, IsNodeObject, IsLeafObject;
      if Encodable(n) {
        NodeIs(n, table, refSize);
      }
      match n
      case LeafNode(v) =>
        AppendLeaf(v);
        return true;
      case ArrayNode(items) =>
        AppendCollection(MARKER_ARRAY, |items|, items, table, refSize);
        return true;
      case DictNode(items) =>
        AppendCollection(MARKER_DICT, |items| / 2, items, table, refSize);
        return true;
      case OtherNode =>
        assert total + [] == total;
        return false;
    }
  }

  lemma Associates(a: seq<byte>, b: seq<byte>, c: seq<byte>)
    ensures a + b + c == a + (b + c)
  {
  }

  // ---- Flattening ----

  class Flattener {
    const graph: Graph
    var objlist: seq<nat>
    var objtable: map<nat, nat>
    var unique: map<nat, nat>

    constructor (graph: Graph)
      ensures this.graph == graph && State() == EMPTY
    {
      this.graph := graph;
      objlist := [];
      objtable := map[];
      unique := map[];
    }

    function State(): Flat
      reads this
    {
      Flat(objlist, objtable, unique)
    }

    /** _flattenPlist */
    method FlattenPlist(p: nat)
      requires GraphOk(graph) && p < |graph.nodes|
      modifies this
      ensures State() == Flatten(graph, p, old(State()))
      decreases p + 1
    {
      var n := graph.nodes[p];
      if IsUniqued(n) {
        var c := graph.classes[p];
        if c in unique {
          var u := unique[c];
          if u != p {
            objtable := AddIfAbsent(objtable, p, RefOf(objtable, u));
          }
          return;
        }
        unique := unique[c := p];
      }
      objtable := AddIfAbsent(objtable, p, |objlist| % 0x1_0000_0000);
      objlist := objlist + [p];
      assert NodeOk(n, p);
      var list: seq<nat> := Items(n);
      ghost var mid := State();
      ghost var all := FlattenAll(graph, p, list, mid);
      assert list[0..] == list;
      for idx := 0 to |list|
        invariant FlattenAll(graph, p, list[idx..], State()) == all
      {
        assert list[idx..][0] == list[idx] && list[idx..][1..] == list[idx + 1..];
        FlattenPlist(list[idx]);
      }
    }
  }

  // ---- The whole write ----

  /** _byteCount: widen until the count fits, then round up to a power of two. */
  method ComputeByteCount(count: u64) returns (size: nat)
    ensures size == ByteCount(count)
    ensures size in {1, 2, 4, 8} && count < Pow256(size) && (size > 1 ==> Pow256(size / 2) <= count)
  {
    Pow256Values();
    assert count / Pow256(8) == 0;
    size := 0;
    while count / Pow256(size) != 0
      invariant size <= 8
      invariant size > 0 ==> Pow256(size - 1) <= count
      decreases 8 - size
    {
      assert Pow256(size) <= count;
      size := size + 1;
    }
    assert count < Pow256(size);
    assert size == 3 ==> Pow256(2) <= count;
    assert 5 <= size ==> Pow256(4) <= count by {
      if 5 <= size { Pow256Monotone(4, size - 1); }
    }
    assert size <= 4 ==> count < Pow256(4) by {
      if size <= 4 { Pow256Monotone(size, 4); }
    }
    while size != 1 && size != 2 && size != 4 && size != 8 && size <= 8
      invariant size <= 8
      invariant size <= 1 ==> count < 0x100
      invariant size == 2 ==> 0x100 <= count < 0x1_0000
      invariant size == 3 || size == 4 ==> 0x1_0000 <= count < 0x1_0000_0000
      invariant 5 <= size ==> 0x1_0000_0000 <= count
      decreases 8 - size
    {
      size := size + 1;
    }
  }

  /** A bound on what the graph flattens to and on the length of the file, so that object numbers fit their 32 bits
      and the file length a signed 64-bit integer. */
  ghost predicate FitsFormat(g: Graph, st: Flat) {
    0 < |st.objlist| < 0x1_0000_0000 && (AllEncodable(g, st) ==> Writable(g, st))
  }

  lemma NodesAreEncodable(g: Graph, p: nat)
    requires GraphOk(g) && p < |g.nodes|
    ensures !g.nodes[p].OtherNode? ==> Encodable(g.nodes[p])
  {
  }

  /** Without an error, written + used is the number of bytes written so far. */
  lemma PositionIsTotal(buf: WriteBuffer)
    requires buf.Valid() && !buf.error
    ensures buf.written + buf.used == |buf.total|
  {
  }

  /** The header and the objects, with the position each object started at. The positions are the true ones as long as
      the stream has not failed. */
  method WriteObjects(g: Graph, ghost st: Flat, objlist: seq<nat>, objtable: map<nat, nat>, buf: WriteBuffer)
    returns (ok: bool, offsets: seq<nat>)
    requires GraphOk(g) && Inv(g, st) && st.objlist == objlist && st.objtable == objtable
    requires |objlist| < 0x1_0000_0000
    requires buf.Valid() && buf.total == [] && !buf.error
    modifies buf`used, buf`written, buf`error, buf`total, buf.sink, buf.buffer
    ensures buf.Valid() && (buf.sink.isData ==> !buf.error)
    ensures ok == AllEncodable(g, st)
    ensures !ok ==> && |offsets| > 0 && StopsAt(g, st, |offsets| - 1)
                    && buf.total == HEADER + ObjectBytes(g, st, |offsets| - 1)
    ensures ok ==> && buf.total == HEADER + ObjectBytes(g, st, |objlist|)
                   && |offsets| == |objlist| && (!buf.error ==> offsets == Starts(g, st, |objlist|))
  {
    hide EncodeNode, GraphOk, Inv, ObjectBytes, Starts, StartOf, EncodableUpTo, WriteBuffer.Valid, WriteBuffer.Added,
         IsNodeObject;
    buf.Write(HEADER);
    var refSize := ComputeByteCount(|objlist|);
    offsets := [];
    NoObjects(g, st);
    assert buf.total == HEADER + [];
    for idx := 0 to |objlist|
      invariant buf.Valid() && |offsets| == idx && (buf.sink.isData ==> !buf.error)
      invariant EncodableUpTo(g, st, idx)
      invariant buf.total == HEADER + ObjectBytes(g, st, idx)
      invariant AllEncodable(g, st) && !buf.error ==> offsets == Starts(g, st, idx)
    {
      ListedAt(g, st, idx);
      if !buf.error {
        PositionIsTotal(buf);
      }
      offsets := offsets + [buf.written + buf.used];
      NodesAreEncodable(g, objlist[idx]);
      NextObject(g, st, idx);
      ghost var before := ObjectBytes(g, st, idx);
      ok := buf.AppendObject(g.nodes[objlist[idx]], objtable, refSize);
      if !ok {
        assert buf.total == HEADER + before;
        return false, offsets;
      }
      Associates(HEADER, before, EncodeNode(g.nodes[objlist[idx]], objtable, refSize));
    }
    ok := true;
  }

  lemma ListedAt(g: Graph, st: Flat, i: nat)
    requires Inv(g, st) && i < |st.objlist|
    ensures st.objlist[i] < |g.nodes|
  {
    assert Listed(g, st, i);
  }

  lemma NoObjects(g: Graph, st: Flat)
    requires |st.objlist| < 0x1_0000_0000
    ensures EncodableUpTo(g, st, 0) && ObjectBytes(g, st, 0) == [] && (AllEncodable(g, st) ==> Starts(g, st, 0) == [])
  {
  }

  /** One more object: its bytes go behind the others, and it starts where they end. */
  lemma NextObject(g: Graph, st: Flat, i: nat)
    requires EncodableUpTo(g, st, i) && i < |st.objlist| < 0x1_0000_0000 && st.objlist[i] < |g.nodes|
    ensures EncodableUpTo(g, st, i + 1) <==> Encodable(g.nodes[st.objlist[i]])
    ensures AllEncodable(g, st) ==> Encodable(g.nodes[st.objlist[i]])
    ensures Encodable(g.nodes[st.objlist[i]]) ==>
              ObjectBytes(g, st, i + 1)
              == ObjectBytes(g, st, i) + EncodeNode(g.nodes[st.objlist[i]], st.objtable, RefSize(st))
    ensures AllEncodable(g, st) ==>
              Starts(g, st, i + 1) == Starts(g, st, i) + [|HEADER + ObjectBytes(g, st, i)|]
  {
    hide EncodeNode, Encodable;
  }

  /** The offset table, the trailer and the last flush. */
  method WriteTables(g: Graph, ghost st: Flat, offsets: seq<nat>, cnt: nat, buf: WriteBuffer) returns (length: nat)
    requires Writable(g, st) && cnt == |st.objlist| == |offsets|
    requires buf.Valid() && buf.total == HEADER + ObjectBytes(g, st, cnt)
    requires !buf.error ==> offsets == Starts(g, st, cnt)
    modifies buf`used, buf`written, buf`error, buf`total, buf.sink, buf.buffer
    ensures |buf.sink.contents| >= |buf.base| && buf.sink.contents <= buf.base + FileBytes(g, st)
    ensures buf.sink.isData && !old(buf.error) ==> length > 0
    ensures length > 0 ==> buf.sink.contents == buf.base + FileBytes(g, st) && length == |FileBytes(g, st)|
  {
    hide ObjectBytes, ConcatBE, EncodeTrailer, AllEncodable;
    ghost var failed := buf.error;
    ghost var start := buf.total;
    if !failed {
      PositionIsTotal(buf);
    }
    assert buf.written <= |buf.total|;
    length := buf.written + buf.used;
    var objectRefSize := ComputeByteCount(cnt);
    var offsetIntSize := ComputeByteCount(length);
    var trailer := Trailer(offsetIntSize, objectRefSize, cnt, 0, length);
    assert !failed ==> trailer == TrailerOf(g, st);
    WriteOffsets(offsets, offsetIntSize, buf);
    length := length + cnt * offsetIntSize;
    buf.Write(EncodeTrailer(trailer));
    assert buf.total == start + ConcatBE(offsets, offsetIntSize) + EncodeTrailer(trailer);
    assert !failed ==> buf.total == FileBytes(g, st);
    assert start <= FileBytes(g, st);
    buf.Flush();
    length := length + TRAILER_SIZE;
    if buf.error {
      return 0;
    }
    OffsetTableLength(g, st);
  }

  method WriteOffsets(offsets: seq<nat>, size: nat, buf: WriteBuffer)
    requires buf.Valid()
    modifies buf`used, buf`written, buf`error, buf`total, buf.sink, buf.buffer
    ensures buf.Valid() && buf.Wrote(ConcatBE(offsets, size))
  {
    assert offsets[..0] == [] && buf.total + [] == buf.total;
    for idx := 0 to |offsets|
      invariant buf.Valid() && buf.Wrote(ConcatBE(offsets[..idx], size))
    {
      buf.Write(ToBE(offsets[idx], size));
      assert offsets[..idx + 1][..idx] == offsets[..idx] && offsets[..idx + 1][idx] == offsets[idx];
      Associates(old(buf.total), ConcatBE(offsets[..idx], size), ToBE(offsets[idx], size));
    }
    assert offsets[..|offsets|] == offsets;
  }

  /** A part of the bytes reached the sink; of a data object's, less than one buffer is missing. */
  ghost predicate GotPart(sink: Sink, before: seq<byte>, bytes: seq<byte>)
    reads sink
  {
    && before <= sink.contents <= before + bytes
    && (sink.isData ==> |before| + |bytes| < |sink.contents| + BUFFER_SIZE)
  }

  /** __CFBinaryPlistWrite: a non-zero result is the length of the file, all of which the sink got; otherwise an object
      has no encoding or the stream failed, and the sink got a part of the file at most. */
  method WritePlist(g: Graph, root: nat, sink: Sink) returns (length: nat)
    requires GraphOk(g) && root < |g.nodes| && FitsFormat(g, Flatten(g, root, EMPTY))
    modifies sink
    ensures old(sink.contents) <= sink.contents
    ensures !AllEncodable(g, Flatten(g, root, EMPTY)) ==>
              && length == 0
              && exists n: nat :: StopsAt(g, Flatten(g, root, EMPTY), n)
                   && GotPart(sink, old(sink.contents), HEADER + ObjectBytes(g, Flatten(g, root, EMPTY), n))
    ensures AllEncodable(g, Flatten(g, root, EMPTY)) ==>
              && sink.contents <= old(sink.contents) + FileBytes(g, Flatten(g, root, EMPTY))
              && (sink.isData ==> length > 0)
              && (length > 0 ==> && sink.contents == old(sink.contents) + FileBytes(g, Flatten(g, root, EMPTY))
                                 && length == |FileBytes(g, Flatten(g, root, EMPTY))|)
    ensures length > 0 ==>
              var st, file := Flatten(g, root, EMPTY), sink.contents[|old(sink.contents)|..];
              && AllEncodable(g, st) && IsPlistFile(Nodes(g, st), st.objtable, file)
              && st.objlist == Deduped(g, Preorder(g, root), {})
    ensures length > 0 ==>
              PlistReader.Parse(sink.contents[|old(sink.contents)|..])
              == if KeysOk(TreeOf(g, root)) then Some(LowWords(TreeOf(g, root))) else None
  {
    hide IsPlistFile, Deduped, Preorder, FileBytes, Writable;
    var flattener := new Flattener(g);
    flattener.FlattenPlist(root);
    ghost var st := flattener.State();
    FlattenNumbersTheGraph(g, root);
    var buf := new WriteBuffer(sink);
    var ok, offsets := WriteObjects(g, st, flattener.objlist, flattener.objtable, buf);
    if !ok {
      assert GotPart(sink, old(sink.contents), HEADER + ObjectBytes(g, st, |offsets| - 1));
      return 0;
    }
    length := WriteTables(g, st, offsets, |flattener.objlist|, buf);
    if length > 0 {
      assert sink.contents[|old(sink.contents)|..] == FileBytes(g, st);
      FileIs(g, st);
      WrittenOrder(g, root);
      WriteThenParse(g, root);
    }
  }
}
