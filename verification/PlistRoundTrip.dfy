/** Reading back what the writer writes. */
module PlistRoundTrip {
  import opened Bytes
  import opened PlistTree
  import opened PlistFormat
  import opened PlistEncoding
  import opened PlistObjects
  import opened Powers
  import PlistReader

  // ---- What the graph means, and what survives the round trip ----

  /** The tree an object unfolds to. */
  ghost function TreeOf(g: Graph, p: nat): Plist
    requires GraphOk(g) && p < |g.nodes|
    decreases p, 1
  {
    assert NodeOk(g.nodes[p], p);
    match g.nodes[p]
    case LeafNode(v) => v
    case ArrayNode(items) => assert items == Items(g.nodes[p]); Array(TreesOf(g, p, items))
    case DictNode(items) => assert items == Items(g.nodes[p]); Dict(TreesOf(g, p, items))
    case OtherNode => Null
  }

  ghost function TreesOf(g: Graph, bound: nat, cs: seq<nat>): (vs: seq<Plist>)
    requires GraphOk(g) && bound <= |g.nodes|
    requires forall i: nat :: i < |cs| ==> cs[i] < bound
    ensures |vs| == |cs|
    ensures forall i: nat :: i < |cs| ==> vs[i] == TreeOf(g, cs[i])
    decreases bound, 0, |cs|
  {
    if cs == [] then [] else [TreeOf(g, cs[0])] + TreesOf(g, bound, cs[1..])
  }

  function LowWords(v: Plist): (r: Plist)
    ensures IsPrimitive(r) == IsPrimitive(v)
    decreases v
  {
    match v
    case Array(items) => Array(seq(|items|, i requires 0 <= i < |items| => LowWords(items[i])))
    case Set(items) => Set(seq(|items|, i requires 0 <= i < |items| => LowWords(items[i])))
    case Dict(items) => Dict(seq(|items|, i requires 0 <= i < |items| => LowWords(items[i])))
    case _ => LowWord(v)
  }

  /** No dictionary anywhere in the tree has a collection for a key. */
  ghost predicate KeysOk(v: Plist)
    decreases v
  {
    IsPrimitive(v)
    || (&& (forall i: nat :: i < |v.items| ==> KeysOk(v.items[i]))
        && (v.Dict? ==> forall i: nat :: i < |v.items| / 2 ==> IsPrimitive(v.items[i])))
  }

  // ---- Flattening numbers every object it reaches ----

  ghost predicate Inv(g: Graph, st: Flat)
  {
    && |g.nodes| == |g.classes|
    && (forall i: nat {:trigger Listed(g, st, i)} :: i < |st.objlist| ==> Listed(g, st, i))
    && (forall p {:trigger Numbered(g, st, p)} :: p in st.objtable ==> Numbered(g, st, p))
    && (forall c {:trigger Member(g, st, c)} :: c in st.unique ==> Member(g, st, c))
  }

  ghost predicate Listed(g: Graph, st: Flat, i: nat)
    requires i < |st.objlist|
  {
    st.objlist[i] < |g.nodes| && st.objlist[i] in st.objtable
  }

  /** The number of p is that of an equal object. */
  ghost predicate Numbered(g: Graph, st: Flat, p: nat)
    requires p in st.objtable
  {
    && p < |g.nodes| && st.objtable[p] < |st.objlist|
    && st.objlist[st.objtable[p]] < |g.nodes|
    && g.nodes[st.objlist[st.objtable[p]]] == g.nodes[p]
  }

  ghost predicate Member(g: Graph, st: Flat, c: nat)
    requires c in st.unique && |g.nodes| == |g.classes|
  {
    var u := st.unique[c];
    u < |g.nodes| && u in st.objtable && IsUniqued(g.nodes[u]) && g.classes[u] == c
  }

  ghost predicate Grows(g: Graph, st: Flat, next: Flat) {
    && st.objlist <= next.objlist
    && (forall q :: q in st.objtable ==> q in next.objtable && next.objtable[q] == st.objtable[q])
  }

  /** The references of every object from number `from` on are numbered. */
  ghost predicate Closed(g: Graph, st: Flat, from: nat) {
    forall i: nat, k: nat :: from <= i < |st.objlist| && st.objlist[i] < |g.nodes|
                             && k < |Items(g.nodes[st.objlist[i]])|
                             ==> Items(g.nodes[st.objlist[i]])[k] in st.objtable
  }

  /** Flattening only appends to the list, and an object that has a number keeps it. */
  lemma {:induction false} FlattenGrows(g: Graph, p: nat, st: Flat)
    requires GraphOk(g) && p < |g.nodes|
    ensures Grows(g, st, Flatten(g, p, st))
    decreases p + 1, 0
  {
    assert NodeOk(g.nodes[p], p);
    if !(IsUniqued(g.nodes[p]) && g.classes[p] in st.unique) {
      FlattenAllGrows(g, p, Items(g.nodes[p]), Append(g, p, st));
    }
  }

  lemma {:induction false} FlattenAllGrows(g: Graph, bound: nat, cs: seq<nat>, st: Flat)
    requires GraphOk(g) && bound <= |g.nodes|
    requires forall i: nat :: i < |cs| ==> cs[i] < bound
    ensures Grows(g, st, FlattenAll(g, bound, cs, st))
    decreases bound, |cs|
  {
    if cs != [] {
      FlattenGrows(g, cs[0], st);
      FlattenAllGrows(g, bound, cs[1..], Flatten(g, cs[0], st));
    }
  }

  lemma AppendKeepsInv(g: Graph, p: nat, st: Flat)
    requires p < |g.nodes| == |g.classes| && Inv(g, st)
    requires |st.objlist| < 0x1_0000_0000
    ensures Inv(g, Append(g, p, st)) && Grows(g, st, Append(g, p, st)) && p in Append(g, p, st).objtable
  {
    var next := Append(g, p, st);
    forall i: nat | i < |next.objlist|
      ensures Listed(g, next, i)
    {
      if i < |st.objlist| {
        assert Listed(g, st, i);
      }
    }
    forall q | q in next.objtable
      ensures Numbered(g, next, q)
    {
      if q in st.objtable {
        assert Numbered(g, st, q);
      }
    }
    forall c | c in next.unique
      ensures Member(g, next, c)
    {
      if c in st.unique {
        assert Member(g, st, c);
      }
    }
  }

  lemma {:induction false} FlattenKeepsInv(g: Graph, p: nat, st: Flat)
    requires GraphOk(g) && p < |g.nodes| && Inv(g, st)
    requires |Flatten(g, p, st).objlist| < 0x1_0000_0000
    ensures var next := Flatten(g, p, st);
            Inv(g, next) && Grows(g, st, next) && p in next.objtable && Closed(g, next, |st.objlist|)
    decreases p + 1, 0
  {
    var n := g.nodes[p];
    FlattenGrows(g, p, st);
    if IsUniqued(n) && g.classes[p] in st.unique {
      var u := st.unique[g.classes[p]];
      assert Member(g, st, g.classes[p]) && SameClass(g, p, u) && Numbered(g, st, u);
      ReuseKeepsInv(g, p, u, st);
    } else {
      assert NodeOk(n, p);
      var mid := Append(g, p, st);
      AppendKeepsInv(g, p, st);
      FlattenAllKeepsInv(g, p, Items(n), mid);
      ClosedWithHead(g, p, st, FlattenAll(g, p, Items(n), mid));
    }
  }

  lemma ReuseKeepsInv(g: Graph, p: nat, u: nat, st: Flat)
    requires p < |g.nodes| && u < |g.nodes| && Inv(g, st)
    requires u in st.objtable && g.nodes[u] == g.nodes[p] && |st.objlist| < 0x1_0000_0000
    ensures var next := st.(objtable := AddIfAbsent(st.objtable, p, RefOf(st.objtable, u)));
            Inv(g, next) && Grows(g, st, next) && p in next.objtable && Closed(g, next, |st.objlist|)
    ensures u == p ==> st.(objtable := AddIfAbsent(st.objtable, p, RefOf(st.objtable, u))) == st
  {
    var next := st.(objtable := AddIfAbsent(st.objtable, p, RefOf(st.objtable, u)));
    assert Numbered(g, st, u);
    forall i: nat | i < |next.objlist|
      ensures Listed(g, next, i)
    {
      assert Listed(g, st, i);
    }
    forall q | q in next.objtable
      ensures Numbered(g, next, q)
    {
      if q in st.objtable {
        assert Numbered(g, st, q);
      }
    }
    forall c | c in next.unique
      ensures Member(g, next, c)
    {
      assert Member(g, st, c);
    }
  }

  lemma ClosedWithHead(g: Graph, p: nat, st: Flat, next: Flat)
    requires p < |g.nodes|
    requires st.objlist + [p] <= next.objlist
    requires Closed(g, next, |st.objlist| + 1)
    requires forall k: nat :: k < |Items(g.nodes[p])| ==> Items(g.nodes[p])[k] in next.objtable
    ensures Closed(g, next, |st.objlist|)
  {
  }

  lemma {:induction false} FlattenAllKeepsInv(g: Graph, bound: nat, cs: seq<nat>, st: Flat)
    requires GraphOk(g) && bound <= |g.nodes| && Inv(g, st)
    requires forall i: nat :: i < |cs| ==> cs[i] < bound
    requires |FlattenAll(g, bound, cs, st).objlist| < 0x1_0000_0000
    ensures var next := FlattenAll(g, bound, cs, st);
            && Inv(g, next) && Grows(g, st, next) && Closed(g, next, |st.objlist|)
            && forall i: nat :: i < |cs| ==> cs[i] in next.objtable
    decreases bound, |cs|
  {
    if cs != [] {
      var mid := Flatten(g, cs[0], st);
      var next := FlattenAll(g, bound, cs[1..], mid);
      FlattenAllGrows(g, bound, cs[1..], mid);
      FlattenKeepsInv(g, cs[0], st);
      FlattenAllKeepsInv(g, bound, cs[1..], mid);
      forall i: nat | i < |cs|
        ensures cs[i] in next.objtable
      {
        if i > 0 {
          assert cs[1..][i - 1] == cs[i];
        }
      }
      ClosedJoins(g, st, mid, next);
    }
  }

  lemma ClosedJoins(g: Graph, st: Flat, mid: Flat, next: Flat)
    requires Closed(g, mid, |st.objlist|) && Closed(g, next, |mid.objlist|) && Grows(g, mid, next)
    ensures Closed(g, next, |st.objlist|)
  {
  }

  /** Flattening from the root: the root gets number 0, every listed object's references are numbered, and every
      number leads to an object equal to the one it stands for. */
  lemma FlattenNumbersTheGraph(g: Graph, root: nat)
    requires GraphOk(g) && root < |g.nodes|
    requires |Flatten(g, root, EMPTY).objlist| < 0x1_0000_0000
    ensures var st := Flatten(g, root, EMPTY);
            && Inv(g, st) && Closed(g, st, 0)
            && |st.objlist| > 0 && st.objlist[0] == root && root in st.objtable && st.objtable[root] == 0
  {
    FlattenKeepsInv(g, root, EMPTY);
    FlattenStarts(g, root);
  }

  lemma FlattenStarts(g: Graph, root: nat)
    requires GraphOk(g) && root < |g.nodes|
    requires |Flatten(g, root, EMPTY).objlist| < 0x1_0000_0000
    ensures var st := Flatten(g, root, EMPTY);
            |st.objlist| > 0 && st.objlist[0] == root && root in st.objtable && st.objtable[root] == 0
  {
    assert NodeOk(g.nodes[root], root);
    var mid := Append(g, root, EMPTY);
    assert mid.objlist == [root] && mid.objtable[root] == 0;
    assert Inv(g, EMPTY);
    FlattenAllGrows(g, root, Items(g.nodes[root]), mid);
    AppendKeepsInv(g, root, EMPTY);
    FlattenAllKeepsInv(g, root, Items(g.nodes[root]), mid);
    assert Grows(g, mid, Flatten(g, root, EMPTY));
  }

  // ---- The file passes every trailer check ----

  lemma ByteCountHolds(c: u64)
    ensures c < Pow256(ByteCount(c)) && 1 <= ByteCount(c) <= 8
  {
  }

  /** The parts of the file, each at its place. */
  lemma FileParts(g: Graph, st: Flat)
    requires Writable(g, st)
    ensures var f, t := FileBytes(g, st), TrailerOf(g, st);
            && At(f, 0, HEADER)
            && At(f, HEADER_SIZE, ObjectBytes(g, st, |st.objlist|))
            && At(f, t.offsetTableOffset, OffsetTable(g, st))
            && At(f, |f| - TRAILER_SIZE, EncodeTrailer(t))
            && |f| == t.offsetTableOffset + t.numObjects * t.offsetIntSize + TRAILER_SIZE
  {
    hide ObjectBytes, OffsetTable, EncodeTrailer;
    var f, t := FileBytes(g, st), TrailerOf(g, st);
    OffsetTableLength(g, st);
    var o, x, r := ObjectBytes(g, st, |st.objlist|), OffsetTable(g, st), EncodeTrailer(t);
    assert f == HEADER + (o + (x + r));
    assert At(f, 0, f);
    AtSplit(f, 0, HEADER, o + (x + r));
    AtSplit(f, HEADER_SIZE, o, x + r);
    AtSplit(f, HEADER_SIZE + |o|, x, r);
  }

  lemma OffsetTableLength(g: Graph, st: Flat)
    requires Writable(g, st)
    ensures |OffsetTable(g, st)| == |st.objlist| * TrailerOf(g, st).offsetIntSize
  {
    hide ConcatBE, ObjectBytes;
    ConcatBELength(Starts(g, st, |st.objlist|), TrailerOf(g, st).offsetIntSize);
  }

  lemma TrailerBack(data: seq<byte>, t: Trailer)
    requires |data| >= TRAILER_SIZE && At(data, |data| - TRAILER_SIZE, EncodeTrailer(t))
    ensures ParseTrailer(data) == t
  {
    hide ToBE, SizedInt;
    var b := |data| - TRAILER_SIZE;
    var head: seq<byte> := [0, 0, 0, 0, 0, 0, t.offsetIntSize, t.objectRefSize];
    var n, top, off := ToBE(t.numObjects, 8), ToBE(t.topObject, 8), ToBE(t.offsetTableOffset, 8);
    assert EncodeTrailer(t) == head + (n + (top + off));
    AtSplit(data, b, head, n + (top + off));
    AtSplit(data, b + 8, n, top + off);
    AtSplit(data, b + 16, top, off);
    AtByte(data, b, head, 6);
    AtByte(data, b, head, 7);
    Pow256Values();
    SizedIntInvertsToBE(t.numObjects, 8);
    SizedIntInvertsToBE(t.topObject, 8);
    SizedIntInvertsToBE(t.offsetTableOffset, 8);
  }

  lemma {:induction false} StartsIncrease(g: Graph, st: Flat, i: nat, n: nat)
    requires AllEncodable(g, st) && |st.objlist| < 0x1_0000_0000 && i < n <= |st.objlist|
    ensures StartOf(g, st, i) + |EncodeNode(g.nodes[st.objlist[i]], st.objtable, RefSize(st))| <= StartOf(g, st, n)
    decreases n
  {
    hide EncodeNode;
    if i < n - 1 {
      StartsIncrease(g, st, i, n - 1);
    }
  }

  lemma TrailerFitsFile(g: Graph, st: Flat)
    requires Writable(g, st)
    ensures TrailerFits(FileBytes(g, st), TrailerOf(g, st))
  {
    hide ObjectBytes, FileBytes, Pow256, ByteCount;
    FileParts(g, st);
    var n := |st.objlist|;
    var t := TrailerOf(g, st);
    ByteCountHolds(n);
    ByteCountHolds(t.offsetTableOffset);
    UpToEightTimes(n, t.offsetIntSize);
    assert |ObjectBytes(g, st, n)| >= n;
  }

  lemma UpToEightTimes(n: nat, w: nat)
    requires 1 <= w <= 8
    ensures n <= n * w <= n * 8
  {
  }

  lemma OffsetsAreStarts(g: Graph, st: Flat, k: nat)
    requires Writable(g, st) && k < |st.objlist|
    ensures TrailerFits(FileBytes(g, st), TrailerOf(g, st))
    ensures OffsetEntry(FileBytes(g, st), TrailerOf(g, st), k) == StartOf(g, st, k)
    ensures HEADER_SIZE <= StartOf(g, st, k) < TrailerOf(g, st).offsetTableOffset
  {
    hide ObjectBytes, FileBytes, EncodeNode, TrailerFits, ConcatBE, SizedInt, ToBE, Pow256;
    TrailerFitsFile(g, st);
    FileParts(g, st);
    StartsIncrease(g, st, k, |st.objlist|);
    var f, t := FileBytes(g, st), TrailerOf(g, st);
    var starts := Starts(g, st, |st.objlist|);
    ByteCountHolds(t.offsetTableOffset);
    ConcatBEEntry(starts, t.offsetIntSize, k);
    SizedIntInvertsToBE(starts[k], t.offsetIntSize);
    SliceOfSlice(f, t.offsetTableOffset, t.offsetTableOffset + |OffsetTable(g, st)|,
                 k * t.offsetIntSize, k * t.offsetIntSize + t.offsetIntSize);
  }

  /** Every file the writer produces passes every check on the trailer and the offset table. */
  lemma FileIsAccepted(g: Graph, st: Flat)
    requires Writable(g, st)
    ensures var f, t := FileBytes(g, st), TrailerOf(g, st);
            |f| >= TRAILER_SIZE + 8 + 1 && ParseTrailer(f) == t && Accepted(f, t)
  {
    hide ObjectBytes, FileBytes, EncodeTrailer, OffsetTable, TrailerFits, OffsetEntry;
    var f, t := FileBytes(g, st), TrailerOf(g, st);
    FileParts(g, st);
    TrailerBack(f, t);
    OffsetsAreStarts(g, st, 0);
    forall k: nat | k < t.numObjects
      ensures OffsetEntry(f, t, k) < t.offsetTableOffset
    {
      OffsetsAreStarts(g, st, k);
    }
    assert MAGIC <= HEADER && f[..8] == HEADER;
  }

  // ---- The objects read back ----

  lemma {:induction false} ObjectAt(g: Graph, st: Flat, i: nat, n: nat, data: seq<byte>, at: nat)
    requires AllEncodable(g, st) && |st.objlist| < 0x1_0000_0000 && i < n <= |st.objlist|
    requires At(data, at, ObjectBytes(g, st, n))
    ensures At(data, at + |ObjectBytes(g, st, i)|, EncodeNode(g.nodes[st.objlist[i]], st.objtable, RefSize(st)))
    decreases n
  {
    hide EncodeNode;
    var last := EncodeNode(g.nodes[st.objlist[n - 1]], st.objtable, RefSize(st));
    AtSplit(data, at, ObjectBytes(g, st, n - 1), last);
    if i < n - 1 {
      ObjectAt(g, st, i, n - 1, data, at);
    }
  }

  /** A flattened graph: everything listed is encodable and every reference is numbered. */
  ghost predicate Flattened(g: Graph, st: Flat) {
    GraphOk(g) && Inv(g, st) && Closed(g, st, 0) && Writable(g, st)
  }

  lemma ItemsNumbered(g: Graph, st: Flat, p: nat)
    requires Flattened(g, st) && p in st.objtable
    ensures p < |g.nodes| && Encodable(g.nodes[p]) && st.objtable[p] < |st.objlist|
    ensures g.nodes[p].DictNode? ==> |g.nodes[p].items| % 2 == 0
    ensures st.objlist[st.objtable[p]] < |g.nodes| && g.nodes[st.objlist[st.objtable[p]]] == g.nodes[p]
    ensures forall k: nat :: k < |Items(g.nodes[p])| ==> Items(g.nodes[p])[k] in st.objtable
  {
    assert Numbered(g, st, p);
    assert NodeOk(g.nodes[p], p);
    var i := st.objtable[p];
    assert Listed(g, st, i);
    assert AllEncodable(g, st);
    forall k: nat | k < |Items(g.nodes[p])|
      ensures Items(g.nodes[p])[k] in st.objtable
    {
      assert Items(g.nodes[st.objlist[i]])[k] in st.objtable;
    }
  }

  /** Where the object that stands for p starts in the file. */
  ghost function Home(g: Graph, st: Flat, p: nat): nat
    requires Flattened(g, st) && p in st.objtable
  {
    assert Numbered(g, st, p);
    StartOf(g, st, st.objtable[p])
  }

  /** The bytes of the object that stands for p are in the object table, at its home. */
  lemma EncodedAtHome(g: Graph, st: Flat, p: nat, f: seq<byte>)
    requires Flattened(g, st) && p in st.objtable && f == FileBytes(g, st)
    ensures p < |g.nodes| && Encodable(g.nodes[p])
    ensures var e := EncodeNode(g.nodes[p], st.objtable, RefSize(st));
            && At(f, Home(g, st, p), e)
            && 8 <= Home(g, st, p) && Home(g, st, p) + |e| <= TrailerOf(g, st).offsetTableOffset
  {
    hide EncodeNode, ObjectBytes, FileBytes, GraphOk, Inv, Closed;
    ItemsNumbered(g, st, p);
    FileParts(g, st);
    ObjectAt(g, st, st.objtable[p], |st.objlist|, f, HEADER_SIZE);
    StartsIncrease(g, st, st.objtable[p], |st.objlist|);
  }

  lemma RefIsHome(g: Graph, st: Flat, c: nat, f: seq<byte>)
    requires Flattened(g, st) && c in st.objtable && f == FileBytes(g, st)
    ensures RefOf(st.objtable, c) == st.objtable[c] < |st.objlist|
    ensures TrailerFits(f, TrailerOf(g, st))
    ensures OffsetEntry(f, TrailerOf(g, st), st.objtable[c]) == Home(g, st, c)
  {
    hide ObjectBytes, FileBytes, OffsetEntry, TrailerFits, GraphOk, AllEncodable, Inv, Closed;
    ItemsNumbered(g, st, c);
    OffsetsAreStarts(g, st, st.objtable[c]);
  }

  ghost function Homes(home: map<nat, nat>, cs: seq<nat>): (hs: seq<nat>)
    requires forall k: nat :: k < |cs| ==> cs[k] in home
    ensures |hs| == |cs|
  {
    seq(|cs|, k requires 0 <= k < |cs| => home[cs[k]])
  }

  /** The table holds p at its home: the leaf itself, or the homes of the items. */
  ghost predicate Holds(tab: ObjectTable, g: Graph, home: map<nat, nat>, p: nat)
    requires p in home
  {
    && p < |g.nodes| && home[p] in tab
    && (forall k: nat :: k < |Items(g.nodes[p])| ==> Items(g.nodes[p])[k] in home)
    && match g.nodes[p]
       case LeafNode(v) => tab[home[p]] == Leaf(LowWord(v))
       case ArrayNode(_) => tab[home[p]] == Node(ArrayKind, Homes(home, Items(g.nodes[p])))
       case DictNode(_) => tab[home[p]] == Node(DictKind, Homes(home, Items(g.nodes[p])))
       case OtherNode => false
  }

  ghost function HomeMap(g: Graph, st: Flat): map<nat, nat>
    requires Flattened(g, st)
  {
    map p | p in st.objtable :: Home(g, st, p)
  }

  lemma LeafAtHome(g: Graph, st: Flat, p: nat, f: seq<byte>, t: Trailer, v: Plist)
    requires Flattened(g, st) && p in st.objtable && p < |g.nodes| && g.nodes[p] == LeafNode(v)
    requires f == FileBytes(g, st) && t == TrailerOf(g, st) && Accepted(f, t)
    ensures ShapeAt(f, t, Home(g, st, p)) == Some(Finished(LowWord(v)))
  {
    hide ObjectBytes, FileBytes, TrailerOf, Accepted, ShapeAt, EncodeLeaf, GraphOk, Inv, Closed, AllEncodable, Home;
    EncodedAtHome(g, st, p, f);
    LeafBack(f, t, Home(g, st, p), v);
  }

  lemma RefsAtHome(g: Graph, st: Flat, p: nat, f: seq<byte>, t: Trailer, kind: Kind)
    requires Flattened(g, st) && p in st.objtable && p < |g.nodes|
    requires f == FileBytes(g, st) && t == TrailerOf(g, st) && Accepted(f, t)
    requires (kind == ArrayKind && g.nodes[p].ArrayNode?) || (kind == DictKind && g.nodes[p].DictNode?)
    requires forall k: nat :: k < |Items(g.nodes[p])| ==> Items(g.nodes[p])[k] in st.objtable
    ensures var s := ShapeAt(f, t, Home(g, st, p));
            && s.Some? && s.value.Refs? && s.value.kind == kind && s.value.n == |Items(g.nodes[p])|
            && forall k: nat :: k < |Items(g.nodes[p])| ==>
                 ChildOffset(f, t, s.value.refPos, k) == Home(g, st, Items(g.nodes[p])[k])
  {
    hide ObjectBytes, FileBytes, Accepted, ShapeAt, EncodeCount, ConcatBE, ByteCount, Pow256, ChildOffset,
         OffsetEntry, Inv, Closed, AllEncodable, GraphOk, Home, StartOf;
    var items: seq<nat> := Items(g.nodes[p]);
    var refs := RefsOf(st.objtable, items);
    ItemsNumbered(g, st, p);
    EncodedAtHome(g, st, p, f);
    ByteCountHolds(|st.objlist|);
    forall k: nat | k < |items|
      ensures refs[k] == st.objtable[items[k]] && refs[k] < |st.objlist|
      ensures TrailerFits(f, t) && OffsetEntry(f, t, refs[k]) == Home(g, st, items[k])
    {
      RefIsHome(g, st, items[k], f);
    }
    RefsBack(f, t, Home(g, st, p), kind, refs);
  }

  lemma HomeHolds(g: Graph, st: Flat, p: nat, f: seq<byte>, t: Trailer)
    requires Flattened(g, st) && p in st.objtable
    requires f == FileBytes(g, st) && t == TrailerOf(g, st) && Accepted(f, t)
    ensures Holds(TableOf(f, t), g, HomeMap(g, st), p)
  {
    hide ObjectBytes, FileBytes, TrailerOf, TableOf, Accepted, ShapeAt, Inv, Closed, AllEncodable, GraphOk, Home,
         ChildOffset;
    ItemsNumbered(g, st, p);
    var home, items := HomeMap(g, st), Items(g.nodes[p]);
    TableAt(f, t, Home(g, st, p));
    match g.nodes[p]
    case LeafNode(v) =>
      LeafAtHome(g, st, p, f, t, v);
    case ArrayNode(_) =>
      RefsAtHome(g, st, p, f, t, ArrayKind);
      assert Resolve(f, t, ShapeAt(f, t, Home(g, st, p)).value).kids == Homes(home, items);
    case DictNode(_) =>
      RefsAtHome(g, st, p, f, t, DictKind);
      assert Resolve(f, t, ShapeAt(f, t, Home(g, st, p)).value).kids == Homes(home, items);
  }

  // ---- The tree reads back ----

  /** Every object of a table that holds the graph denotes its tree, low words only, provided no dictionary in the
      tree has a collection for a key; otherwise it denotes nothing. */
  lemma {:induction false} TreeReadsBack(tab: ObjectTable, g: Graph, home: map<nat, nat>, p: nat)
    requires GraphOk(g) && p in home
    requires forall q :: q in home ==> Holds(tab, g, home, q)
    ensures p < |g.nodes|
    ensures KeysOk(TreeOf(g, p)) ==> Decodes(tab, home[p], LowWords(TreeOf(g, p)))
    ensures Denotes(tab, home[p]) ==> KeysOk(TreeOf(g, p))
    decreases p
  {
    assert Holds(tab, g, home, p);
    if !g.nodes[p].LeafNode? {
      var items: seq<nat> := Items(g.nodes[p]);
      assert NodeOk(g.nodes[p], p);
      forall k: nat | k < |items|
        ensures TreeAgrees(tab, g, home, items[k])
      {
        TreeReadsBack(tab, g, home, items[k]);
      }
      CollectionDecodes(tab, g, home, p);
      CollectionKeysOk(tab, g, home, p);
    }
  }

  ghost predicate TreeAgrees(tab: ObjectTable, g: Graph, home: map<nat, nat>, p: nat)
    requires GraphOk(g) && p in home
  {
    && p < |g.nodes|
    && (KeysOk(TreeOf(g, p)) ==> Decodes(tab, home[p], LowWords(TreeOf(g, p))))
    && (Denotes(tab, home[p]) ==> KeysOk(TreeOf(g, p)))
  }

  lemma CollectionDecodes(tab: ObjectTable, g: Graph, home: map<nat, nat>, p: nat)
    requires GraphOk(g) && p in home && Holds(tab, g, home, p) && !g.nodes[p].LeafNode?
    requires forall k: nat :: k < |Items(g.nodes[p])| ==> TreeAgrees(tab, g, home, Items(g.nodes[p])[k])
    ensures KeysOk(TreeOf(g, p)) ==> Decodes(tab, home[p], LowWords(TreeOf(g, p)))
  {
    hide GraphOk, Homes;
    var items: seq<nat> := Items(g.nodes[p]);
    var v := TreeOf(g, p);
    var kids := Homes(home, items);
    var keys := KeyCount(tab[home[p]].kind, |kids|);
    if KeysOk(v) {
      forall k: nat | k < |items|
        ensures Decodes(tab, kids[k], LowWords(v).items[k])
        ensures k < keys ==> IsPrimitive(LowWords(v).items[k])
      {
        assert TreeAgrees(tab, g, home, items[k]);
        HomesAt(home, items, k);
      }
      AllDecodeFrom(tab, keys, kids, LowWords(v).items);
    }
  }

  lemma HomesAt(home: map<nat, nat>, cs: seq<nat>, k: nat)
    requires k < |cs| && forall i: nat :: i < |cs| ==> cs[i] in home
    ensures Homes(home, cs)[k] == home[cs[k]]
  {
  }

  lemma CollectionKeysOk(tab: ObjectTable, g: Graph, home: map<nat, nat>, p: nat)
    requires GraphOk(g) && p in home && Holds(tab, g, home, p) && !g.nodes[p].LeafNode?
    requires forall k: nat :: k < |Items(g.nodes[p])| ==> TreeAgrees(tab, g, home, Items(g.nodes[p])[k])
    ensures Denotes(tab, home[p]) ==> KeysOk(TreeOf(g, p))
  {
    hide GraphOk, Homes;
    var items: seq<nat> := Items(g.nodes[p]);
    var v := TreeOf(g, p);
    var kids := Homes(home, items);
    if Denotes(tab, home[p]) {
      var w := Denotation(tab, home[p]);
      forall k: nat | k < |items|
        ensures KeysOk(v.items[k])
        ensures v.Dict? && k < |items| / 2 ==> IsPrimitive(v.items[k])
      {
        assert TreeAgrees(tab, g, home, items[k]);
        HomesAt(home, items, k);
        KidDenotesPart(tab, home[p], w, k);
        ItemDecodes(tab, KeyCount(tab[home[p]].kind, |kids|), kids, w.items, k);
        DecodesIsDeterministic(tab, kids[k], w.items[k], LowWords(v.items[k]));
      }
    }
  }

  /** The round trip. Whatever shared acyclic graph is written, the file passes the trailer check, and parsing it gives
      back the tree the graph unfolds to, with 128-bit integers cut to their low word; it fails exactly when some
      dictionary has a collection for a key. */
  lemma WriteThenParse(g: Graph, root: nat)
    requires GraphOk(g) && root < |g.nodes|
    requires Writable(g, Flatten(g, root, EMPTY))
    ensures PlistReader.Parse(FileBytes(g, Flatten(g, root, EMPTY)))
         == if KeysOk(TreeOf(g, root)) then Some(LowWords(TreeOf(g, root))) else None
  {
    hide ObjectBytes, FileBytes, TrailerOf, TableOf, Accepted, Inv, Closed, AllEncodable, GraphOk, OffsetEntry, Flatten,
         TrailerFits;
    var st := Flatten(g, root, EMPTY);
    FlattenNumbersTheGraph(g, root);
    assert Flattened(g, st);
    var f, t := FileBytes(g, st), TrailerOf(g, st);
    FileIsAccepted(g, st);
    var tab, home := TableOf(f, t), HomeMap(g, st);
    forall q | q in home
      ensures Holds(tab, g, home, q)
    {
      HomeHolds(g, st, q, f, t);
    }
    TreeReadsBack(tab, g, home, root);
    RootIsHome(g, st, root, f, t);
    if KeysOk(TreeOf(g, root)) {
      ReadIffDecodes(tab, home[root], LowWords(TreeOf(g, root)));
    } else if Read(tab, home[root], 0, None).Some? {
      ReadIsSound(tab, home[root], 0, None);
    }
  }

  lemma RootIsHome(g: Graph, st: Flat, root: nat, f: seq<byte>, t: Trailer)
    requires Flattened(g, st) && root in st.objtable && st.objtable[root] == 0
    requires f == FileBytes(g, st) && t == TrailerOf(g, st)
    ensures t.topObject == 0 && TrailerFits(f, t)
    ensures OffsetEntry(f, t, t.topObject) == Home(g, st, root)
  {
    hide ObjectBytes, FileBytes, OffsetEntry, TrailerFits, GraphOk, AllEncodable, Inv, Closed;
    RefIsHome(g, st, root, f);
  }

  // ---- When the round trip is exact ----

  /** No 128-bit integer in the tree needs its high word. */
  ghost predicate NoHighWords(v: Plist)
    decreases v
  {
    if IsPrimitive(v) then v.Int128? ==> v.high == 0
    else forall i: nat :: i < |v.items| ==> NoHighWords(v.items[i])
  }

  lemma {:induction false} LowWordsKeepIff(v: Plist)
    ensures LowWords(v) == v <==> NoHighWords(v)
    decreases v
  {
    if !IsPrimitive(v) {
      forall i: nat | i < |v.items|
        ensures LowWords(v).items[i] == LowWords(v.items[i])
        ensures LowWords(v.items[i]) == v.items[i] <==> NoHighWords(v.items[i])
      {
        LowWordsKeepIff(v.items[i]);
      }
      assert NoHighWords(v) ==> LowWords(v).items == v.items;
    }
  }

  /** Writing and parsing is the identity on exactly the graphs without a collection for a dictionary key and without
      a 128-bit integer whose high word is not zero. */
  lemma RoundTripIsExactIff(g: Graph, root: nat)
    requires GraphOk(g) && root < |g.nodes|
    requires Writable(g, Flatten(g, root, EMPTY))
    ensures PlistReader.Parse(FileBytes(g, Flatten(g, root, EMPTY))) == Some(TreeOf(g, root))
            <==> KeysOk(TreeOf(g, root)) && NoHighWords(TreeOf(g, root))
  {
    hide FileBytes, Writable, GraphOk, Flatten, PlistReader.Parse;
    WriteThenParse(g, root);
    LowWordsKeepIff(TreeOf(g, root));
  }

  /** A file that does not round-trip: the single 128-bit integer 2^64 comes back as 0. */
  lemma HighWordIsLost()
    ensures var g := Graph([LeafNode(Int128(1, 0))], [0]);
            && GraphOk(g) && Writable(g, Flatten(g, 0, EMPTY))
            && PlistReader.Parse(FileBytes(g, Flatten(g, 0, EMPTY))) == Some(Int128(0, 0))
  {
    var g := Graph([LeafNode(Int128(1, 0))], [0]);
    assert NodeOk(g.nodes[0], 0);
    var st := Flatten(g, 0, EMPTY);
    assert st.objlist == [0];
    assert ObjectBytes(g, st, 1) == ObjectBytes(g, st, 0) + EncodeNode(g.nodes[0], st.objtable, RefSize(st));
    assert |ObjectBytes(g, st, 1)| == 17;
    WriteThenParse(g, 0);
  }

  /** A file that does not parse: an array is the key of a dictionary. */
  lemma ArrayKeyIsRejected()
    ensures var g := Graph([ArrayNode([]), DictNode([0, 0])], [0, 1]);
            && GraphOk(g) && Writable(g, Flatten(g, 1, EMPTY))
            && PlistReader.Parse(FileBytes(g, Flatten(g, 1, EMPTY))) == None
  {
    hide ObjectBytes, FileBytes, PlistReader.Parse, Flatten, TreeOf;
    var g := Graph([ArrayNode([]), DictNode([0, 0])], [0, 1]);
    assert NodeOk(g.nodes[0], 0) && NodeOk(g.nodes[1], 1);
    FlattenArrayKey(g);
    ThreeSmallObjects(g, Flatten(g, 1, EMPTY));
    ArrayKeyTree(g);
    WriteThenParse(g, 1);
  }

  lemma ArrayKeyTree(g: Graph)
    requires g.nodes == [ArrayNode([]), DictNode([0, 0])] && GraphOk(g)
    ensures !KeysOk(TreeOf(g, 1))
  {
  }

  /** The empty array is reached twice and listed twice. */
  lemma FlattenArrayKey(g: Graph)
    requires g.nodes == [ArrayNode([]), DictNode([0, 0])] && GraphOk(g)
    ensures Flatten(g, 1, EMPTY).objlist == [1, 0, 0]
  {
  }

  lemma ThreeSmallObjects(g: Graph, st: Flat)
    requires g.nodes == [ArrayNode([]), DictNode([0, 0])] && st.objlist == [1, 0, 0]
    ensures AllEncodable(g, st) && |ObjectBytes(g, st, 3)| == 5
  {
    var e := EncodeNode(g.nodes[0], st.objtable, RefSize(st));
    var d := EncodeNode(g.nodes[1], st.objtable, RefSize(st));
    ConcatBELength(RefsOf(st.objtable, [0, 0]), 1);
    ConcatBELength(RefsOf(st.objtable, []), 1);
    assert |e| == 1 && |d| == 3;
    assert ObjectBytes(g, st, 1) == ObjectBytes(g, st, 0) + d;
    assert ObjectBytes(g, st, 2) == ObjectBytes(g, st, 1) + e;
    assert ObjectBytes(g, st, 3) == ObjectBytes(g, st, 2) + e;
  }

  // ---- A file whose data is lost ----

  /** 256 bytes that write 1. */
  function LongOne(): (s: seq<byte>)
    ensures |s| == 256
  {
    seq(255, _ => 0) + [1]
  }

  const LONG_TRAILER := Trailer(2, 1, 1, 0, 267)

  /** One data object: its marker, a count of 1 as an integer of 256 bytes, and the byte 2A. */
  function LongCountFile(): (s: seq<byte>)
    ensures |s| == 301
  {
    HEADER + ([0x4F, 0x18] + (LongOne() + ([0x2A, 0, 8] + EncodeTrailer(LONG_TRAILER))))
  }

  lemma LongCountParts()
    ensures var f := LongCountFile();
            && HEADER <= f && f[8] == 0x4F && f[9] == 0x18 && f[10..266] == LongOne()
            && f[266..267] == [0x2A] && f[267..269] == [0, 8] && At(f, 269, EncodeTrailer(LONG_TRAILER))
  {
    hide LongOne, EncodeTrailer;
    var f, one, end := LongCountFile(), LongOne(), EncodeTrailer(LONG_TRAILER);
    assert At(f, 0, f);
    AtSplit(f, 0, HEADER, [0x4F, 0x18] + (one + ([0x2A, 0, 8] + end)));
    AtSplit(f, 8, [0x4F, 0x18], one + ([0x2A, 0, 8] + end));
    AtSplit(f, 10, one, [0x2A, 0, 8] + end);
    AtSplit(f, 266, [0x2A, 0, 8], end);
    AtByte(f, 8, [0x4F, 0x18], 0);
    AtByte(f, 8, [0x4F, 0x18], 1);
    assert f[266..267] == f[266..269][..1] && f[267..269] == f[266..269][1..];
  }

  lemma LongCountIsAccepted()
    ensures var f, t := LongCountFile(), LONG_TRAILER;
            ParseTrailer(f) == t && Accepted(f, t) && OffsetEntry(f, t, 0) == 8
  {
    hide LongCountFile, EncodeTrailer;
    var f, t := LongCountFile(), LONG_TRAILER;
    LongCountParts();
    TrailerBack(f, t);
    Pow256Values();
    assert SizedInt([0, 8]) == 8 by {
      assert [0, 8][..1] == [0] && [0][..0] == [];
      assert SizedInt([0]) == 0;
    }
    assert TrailerFits(f, t);
    assert OffsetEntry(f, t, 0) == 8;
  }

  /** The reader accepts the file, which stores the one byte 2A, and makes empty data of it. */
  lemma LongCountLosesData()
    ensures var f, t := LongCountFile(), LONG_TRAILER;
            && ParseTrailer(f) == t && Accepted(f, t)
            && Value(f[10..266]) == 1 && f[266..267] == [0x2A]
            && ReadInt(f, 9, t.offsetTableOffset - 1) == Some((0, 266))
            && PlistReader.Parse(f) == Some(Data([]))
  {
    hide LongCountFile, LongOne, Accepted, OffsetEntry, ParseTrailer, ShapeAt, TableOf;
    var f, t := LongCountFile(), LONG_TRAILER;
    LongCountParts();
    LongCountIsAccepted();
    LongOneIsOne();
    assert Pow2(4) == 16 && Pow2(8) == 16 * Pow2(4);
    LongCountReadsAsEmpty(f, t, 8);
    TableAt(f, t, 8);
  }

  lemma LongOneIsOne()
    ensures Value(LongOne()) == 1
  {
    ZerosThenOne(255);
  }

  // ---- The price of listing shared collections at every visit ----

  /** How often the unfolding of p comes to an object of s. */
  ghost function VisitsTo(g: Graph, p: nat, s: iset<nat>): nat
    requires GraphOk(g) && p < |g.nodes|
    decreases p + 1, 0
  {
    assert NodeOk(g.nodes[p], p);
    (if p in s then 1 else 0) + VisitsFrom(g, p, Items(g.nodes[p]), s)
  }

  ghost function VisitsFrom(g: Graph, bound: nat, cs: seq<nat>, s: iset<nat>): nat
    requires GraphOk(g) && bound <= |g.nodes|
    requires forall i: nat :: i < |cs| ==> cs[i] < bound
    decreases bound, |cs|
  {
    if cs == [] then 0 else VisitsTo(g, cs[0], s) + VisitsFrom(g, bound, cs[1..], s)
  }

  /** How many places of the list hold an object of s. */
  ghost function Entries(list: seq<nat>, s: iset<nat>): (n: nat)
    ensures n <= |list|
  {
    if list == [] then 0
    else Entries(list[..|list| - 1], s) + (if list[|list| - 1] in s then 1 else 0)
  }

  ghost predicate NoneUniqued(g: Graph, s: iset<nat>) {
    forall q :: q in s && q < |g.nodes| ==> !IsUniqued(g.nodes[q])
  }

  /** The uniqued leaves of class c. */
  ghost function ClassMembers(g: Graph, c: nat): iset<nat>
    requires |g.classes| == |g.nodes|
  {
    iset q: nat | q < |g.nodes| && IsUniqued(g.nodes[q]) && g.classes[q] == c
  }

  lemma AppendEntries(g: Graph, p: nat, st: Flat, s: iset<nat>)
    requires p < |g.nodes| == |g.classes|
    ensures Entries(Append(g, p, st).objlist, s) == Entries(st.objlist, s) + if p in s then 1 else 0
  {
    assert (st.objlist + [p])[..|st.objlist|] == st.objlist;
  }

  /** Objects that are not uniqued are listed once a visit. */
  lemma {:induction false} ListedOnceAVisit(g: Graph, p: nat, st: Flat, s: iset<nat>)
    requires GraphOk(g) && p < |g.nodes| && NoneUniqued(g, s)
    ensures Entries(Flatten(g, p, st).objlist, s) == Entries(st.objlist, s) + VisitsTo(g, p, s)
    decreases p + 1, 0
  {
    assert NodeOk(g.nodes[p], p);
    AppendEntries(g, p, st, s);
    if !(IsUniqued(g.nodes[p]) && g.classes[p] in st.unique) {
      AllListedOnceAVisit(g, p, Items(g.nodes[p]), Append(g, p, st), s);
    }
  }

  lemma {:induction false} AllListedOnceAVisit(g: Graph, bound: nat, cs: seq<nat>, st: Flat, s: iset<nat>)
    requires GraphOk(g) && bound <= |g.nodes| && NoneUniqued(g, s)
    requires forall i: nat :: i < |cs| ==> cs[i] < bound
    ensures Entries(FlattenAll(g, bound, cs, st).objlist, s) == Entries(st.objlist, s) + VisitsFrom(g, bound, cs, s)
    decreases bound, |cs|
  {
    if cs != [] {
      ListedOnceAVisit(g, cs[0], st, s);
      AllListedOnceAVisit(g, bound, cs[1..], Flatten(g, cs[0], st), s);
    }
  }

  /** What uniquing does for one class: `next` follows `st` over some visits to its members. */
  ghost predicate ClassAfter(g: Graph, c: nat, st: Flat, next: Flat, visits: nat)
    requires |g.classes| == |g.nodes|
  {
    && (c in next.unique <==> c in st.unique || visits > 0)
    && Entries(next.objlist, ClassMembers(g, c))
       == Entries(st.objlist, ClassMembers(g, c)) + if c !in st.unique && visits > 0 then 1 else 0
  }

  /** A class of uniqued leaves is listed once, at the first visit to any of its members. */
  lemma {:induction false} ListedOnceAClass(g: Graph, p: nat, st: Flat, c: nat)
    requires GraphOk(g) && p < |g.nodes|
    ensures ClassAfter(g, c, st, Flatten(g, p, st), VisitsTo(g, p, ClassMembers(g, c)))
    decreases p + 1, 0
  {
    assert NodeOk(g.nodes[p], p);
    AppendEntries(g, p, st, ClassMembers(g, c));
    if !(IsUniqued(g.nodes[p]) && g.classes[p] in st.unique) {
      AllListedOnceAClass(g, p, Items(g.nodes[p]), Append(g, p, st), c);
    }
  }

  lemma {:induction false} AllListedOnceAClass(g: Graph, bound: nat, cs: seq<nat>, st: Flat, c: nat)
    requires GraphOk(g) && bound <= |g.nodes|
    requires forall i: nat :: i < |cs| ==> cs[i] < bound
    ensures ClassAfter(g, c, st, FlattenAll(g, bound, cs, st), VisitsFrom(g, bound, cs, ClassMembers(g, c)))
    decreases bound, |cs|
  {
    if cs != [] {
      ListedOnceAClass(g, cs[0], st, c);
      AllListedOnceAClass(g, bound, cs[1..], Flatten(g, cs[0], st), c);
    }
  }

  ghost function Times(list: seq<nat>, q: nat): nat {
    multiset(list)[q]
  }

  lemma {:induction false} EntriesCount(list: seq<nat>, q: nat, s: iset<nat>)
    ensures Entries(list, iset{q}) == Times(list, q)
    ensures q in s ==> Times(list, q) <= Entries(list, s)
    decreases |list|
  {
    if list != [] {
      var init := list[..|list| - 1];
      EntriesCount(init, q, s);
      assert list == init + [list[|list| - 1]];
    }
  }

  /** No walk from p leads up. */
  lemma {:induction false} VisitsNothingAbove(g: Graph, p: nat, q: nat)
    requires GraphOk(g) && p < |g.nodes| && p < q
    ensures VisitsTo(g, p, iset{q}) == 0
    decreases p + 1, 0
  {
    assert NodeOk(g.nodes[p], p);
    AllVisitNothingAbove(g, p, Items(g.nodes[p]), q);
  }

  lemma {:induction false} AllVisitNothingAbove(g: Graph, bound: nat, cs: seq<nat>, q: nat)
    requires GraphOk(g) && bound <= |g.nodes| && bound <= q
    requires forall i: nat :: i < |cs| ==> cs[i] < bound
    ensures VisitsFrom(g, bound, cs, iset{q}) == 0
    decreases bound, |cs|
  {
    if cs != [] {
      VisitsNothingAbove(g, cs[0], q);
      AllVisitNothingAbove(g, bound, cs[1..], q);
    }
  }

  /** How often the written list holds each object of the graph. */
  lemma TimesListed(g: Graph, root: nat, q: nat)
    requires GraphOk(g) && root < |g.nodes|
    ensures var times := Times(Flatten(g, root, EMPTY).objlist, q);
            && (q >= |g.nodes| ==> times == 0)
            && (q < |g.nodes| && !IsUniqued(g.nodes[q]) ==> times == VisitsTo(g, root, iset{q}))
            && (q < |g.nodes| && IsUniqued(g.nodes[q]) ==> times <= 1)
  {
    hide Flatten, VisitsTo;
    var list := Flatten(g, root, EMPTY).objlist;
    if q < |g.nodes| && IsUniqued(g.nodes[q]) {
      ListedOnceAClass(g, root, EMPTY, g.classes[q]);
      EntriesCount(list, q, ClassMembers(g, g.classes[q]));
    } else {
      ListedOnceAVisit(g, root, EMPTY, iset{q});
      EntriesCount(list, q, iset{});
      if q >= |g.nodes| {
        VisitsNothingAbove(g, root, q);
      }
    }
  }

  /** The list is free of repetition exactly when every collection, boolean and UID is come to at most once. */
  lemma RepeatsIffShared(g: Graph, root: nat)
    requires GraphOk(g) && root < |g.nodes|
    ensures (forall q: nat :: Times(Flatten(g, root, EMPTY).objlist, q) <= 1)
            <==> forall q: nat :: q < |g.nodes| && !IsUniqued(g.nodes[q]) ==> VisitsTo(g, root, iset{q}) <= 1
  {
    hide Flatten, VisitsTo;
    var list := Flatten(g, root, EMPTY).objlist;
    forall q: nat
      ensures q >= |g.nodes| || IsUniqued(g.nodes[q]) ==> Times(list, q) <= 1
      ensures q < |g.nodes| && !IsUniqued(g.nodes[q]) ==> Times(list, q) == VisitsTo(g, root, iset{q})
    {
      TimesListed(g, root, q);
    }
  }

  ghost const EVERYTHING := iset q: nat | true

  /** Each array holds the one before it twice. */
  ghost predicate SharedChain(g: Graph) {
    forall q: nat :: q < |g.nodes| ==> g.nodes[q] == ArrayNode(if q == 0 then [] else [q - 1, q - 1])
  }

  /** A chain of k + 1 arrays, each holding the one before it twice, is written as 2^(k + 1) - 1 objects. */
  lemma SharedChainDoubles(g: Graph, k: nat)
    requires GraphOk(g) && SharedChain(g) && k < |g.nodes|
    ensures |Flatten(g, k, EMPTY).objlist| == Pow2(k + 1) - 1
  {
    hide Flatten, VisitsTo;
    ListedOnceAVisit(g, k, EMPTY, EVERYTHING);
    EveryEntry(Flatten(g, k, EMPTY).objlist);
    ChainVisits(g, k);
  }

  lemma {:induction false} EveryEntry(list: seq<nat>)
    ensures Entries(list, EVERYTHING) == |list|
    decreases |list|
  {
    if list != [] {
      EveryEntry(list[..|list| - 1]);
    }
  }

  lemma {:induction false} ChainVisits(g: Graph, k: nat)
    requires GraphOk(g) && SharedChain(g) && k < |g.nodes|
    ensures VisitsTo(g, k, EVERYTHING) == Pow2(k + 1) - 1
  {
    assert NodeOk(g.nodes[k], k);
    if k > 0 {
      ChainVisits(g, k - 1);
      assert Items(g.nodes[k]) == [k - 1, k - 1];
      assert VisitsFrom(g, k, [k - 1, k - 1][1..][1..], EVERYTHING) == 0;
      assert VisitsFrom(g, k, [k - 1, k - 1][1..], EVERYTHING) == VisitsTo(g, k - 1, EVERYTHING);
      assert VisitsFrom(g, k, [k - 1, k - 1], EVERYTHING) == 2 * VisitsTo(g, k - 1, EVERYTHING);
    }
  }
}
