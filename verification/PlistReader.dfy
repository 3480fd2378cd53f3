/** Reading with the offset-to-object table: the recursive method that mutates the table and the path set, proved
    against plain reading (__CFBinaryPlistCreateObjectFiltered without key paths, and __CFTryParseBinaryPlist). */
module PlistReader {
  import opened Bytes
  import opened PlistTree
  import opened PlistFormat

  datatype Mutability = Immutable | MutableContainers | MutableContainersAndLeaves

  /** A mutable set of offsets; the source allocates one when it first needs it. */
  class OffsetSet {
    var elems: set<nat>

    constructor ()
      ensures elems == {}
    {
      elems := {};
    }
  }

  ghost function PathOf(path: OffsetSet?): Option<set<nat>>
    reads path
  {
    if path == null then None else Some(path.elems)
  }

  /** What the reference loop still has to deliver, with what it has delivered in front. */
  ghost function Rest(tab: ObjectTable, keys: nat, kids: seq<nat>, depth: nat, path: Option<set<nat>>,
                      list: seq<Plist>): Option<seq<Plist>>
    requires path.None? ==> depth <= 16
    requires |list| <= |kids|
  {
    match ReadAll(tab, if |list| < keys then keys - |list| else 0, kids[|list|..], depth, path)
    case None => None
    case Some(rest) => Some(list + rest)
  }

  /** One turn of the loop. */
  lemma RestStep(tab: ObjectTable, keys: nat, kids: seq<nat>, depth: nat, path: Option<set<nat>>, list: seq<Plist>)
    requires path.None? ==> depth <= 16
    requires |list| < |kids|
    ensures Rest(tab, keys, kids, depth, path, list)
         == match Read(tab, kids[|list|], depth, path)
            case None => None
            case Some(v) =>
              if |list| < keys && !IsPrimitive(v) then None else Rest(tab, keys, kids, depth, path, list + [v])
  {
    var tail := kids[|list|..];
    assert tail[0] == kids[|list|] && tail[1..] == kids[|list| + 1..];
    if Read(tab, tail[0], depth, path).Some? {
      var v := Read(tab, tail[0], depth, path).value;
      var more := ReadAll(tab, if |list| + 1 < keys then keys - |list| - 1 else 0, tail[1..], depth, path);
      assert more.Some? ==> list + ([v] + more.value) == list + [v] + more.value;
    }
  }

  lemma RestEnds(tab: ObjectTable, keys: nat, kids: seq<nat>, depth: nat, path: Option<set<nat>>, list: seq<Plist>)
    requires path.None? ==> depth <= 16
    requires |list| <= |kids|
    ensures list == [] ==> Rest(tab, keys, kids, depth, path, list) == ReadAll(tab, keys, kids, depth, path)
    ensures |list| == |kids| ==> Rest(tab, keys, kids, depth, path, list) == Some(list)
  {
    if list == [] {
      assert kids[0..] == kids;
      var all := ReadAll(tab, keys, kids, depth, path);
      assert all.Some? ==> list + all.value == all.value;
    }
    if |list| == |kids| {
      assert kids[|list|..] == [] && list + [] == list;
    }
  }

  /** Plain reading of a collection that is not on the path is the reading of its references, one level down. */
  lemma ReadNode(tab: ObjectTable, off: nat, depth: nat, path: Option<set<nat>>)
    requires path.None? ==> depth <= 16
    requires off in tab && tab[off].Node? && (path.Some? ==> off !in path.value)
    ensures var n := tab[off];
            Read(tab, off, depth, path)
            == match ReadAll(tab, KeyCount(n.kind, |n.kids|), n.kids, depth + 1, Enter(path, depth, off))
               case None => None
               case Some(items) => Some(Build(n.kind, items))
  {
  }

  ghost predicate NoRepeats(s: seq<nat>) {
    forall i: nat, j: nat :: i < j < |s| ==> s[i] != s[j]
  }

  lemma {:induction false} NoRepeatsFit(s: seq<nat>, within: set<nat>)
    requires NoRepeats(s) && forall i: nat :: i < |s| ==> s[i] in within
    ensures |s| <= |within|
    decreases |s|
  {
    if s != [] {
      NoRepeatsFit(s[..|s| - 1], within - {s[|s| - 1]});
    }
  }

  /** A table that only grew, by objects of values with n nodes at most. */
  ghost predicate Grew(before: map<nat, Plist>, after: map<nat, Plist>, n: nat) {
    && (forall o :: o in before ==> o in after && after[o] == before[o])
    && (forall o :: o in after && o !in before ==> Size(after[o]) <= n)
  }

  lemma GrewNone(objects: map<nat, Plist>)
    ensures Grew(objects, objects, SizeOfAll([]))
  {
  }

  lemma GrewTwice(before: map<nat, Plist>, mid: map<nat, Plist>, after: map<nat, Plist>, n: nat, more: nat)
    requires Grew(before, mid, n) && Grew(mid, after, more)
    ensures Grew(before, after, n + more)
  {
  }

  /** No collection is among the parts read for it: they are all smaller. */
  lemma NotAmongItsParts(tab: ObjectTable, off: nat, v: Plist, before: map<nat, Plist>, after: map<nat, Plist>)
    requires Decodes(tab, off, v) && off !in before && Grew(before, after, Size(v) - 1)
    requires off in after ==> Decodes(tab, off, after[off])
    ensures off !in after
  {
    if off in after {
      DecodesIsDeterministic(tab, off, after[off], v);
    }
  }

  /** A collection at o is among those built. */
  ghost predicate IsBuilt(tab: ObjectTable, o: nat, built: seq<nat>) {
    o in tab && tab[o].Node? ==> o in built
  }

  ghost predicate KidsAreBuilt(tab: ObjectTable, o: nat, built: seq<nat>) {
    o in tab && tab[o].Node? ==> forall k: nat :: k < |tab[o].kids| ==> IsBuilt(tab, tab[o].kids[k], built)
  }

  /** No collection is built twice, and every one that references lead to from the root is built. */
  ghost predicate BuiltOnceEach(tab: ObjectTable, root: nat, built: seq<nat>) {
    && NoRepeats(built)
    && forall w {:trigger Walk(tab, w)} :: Walk(tab, w) && w[0] == root ==> IsBuilt(tab, w[|w| - 1], built)
  }

  lemma StaysBuilt(tab: ObjectTable, before: seq<nat>, after: seq<nat>)
    requires before <= after
    ensures forall o {:trigger IsBuilt(tab, o, after)} :: IsBuilt(tab, o, before) ==> IsBuilt(tab, o, after)
    ensures forall o {:trigger KidsAreBuilt(tab, o, after)} ::
              KidsAreBuilt(tab, o, before) ==> KidsAreBuilt(tab, o, after)
  {
    assert forall o: nat :: o in before ==> o in after;
  }

  /** A table that takes collections has exactly those that were built, each of them built once and after its parts. */
  ghost predicate CachedAsBuilt(tab: ObjectTable, objects: map<nat, Plist>, built: seq<nat>) {
    && NoRepeats(built)
    && (forall i: nat {:trigger built[i]} :: i < |built| ==>
          built[i] in objects && built[i] in tab && KidsAreBuilt(tab, built[i], built))
    && forall o {:trigger IsBuilt(tab, o, built)} :: o in objects ==> IsBuilt(tab, o, built)
  }

  lemma BuildsOneMore(tab: ObjectTable, objects: map<nat, Plist>, built: seq<nat>, off: nat, v: Plist)
    requires CachedAsBuilt(tab, objects, built) && off in tab && off !in objects && KidsAreBuilt(tab, off, built)
    ensures CachedAsBuilt(tab, objects[off := v], built + [off])
  {
    hide KidsAreBuilt;
    StaysBuilt(tab, built, built + [off]);
  }

  lemma LeafChangesNothing(tab: ObjectTable, objects: map<nat, Plist>, built: seq<nat>, off: nat, v: Plist)
    requires CachedAsBuilt(tab, objects, built) && off in tab && tab[off].Leaf?
    ensures CachedAsBuilt(tab, objects[off := v], built)
  {
  }

  lemma CachedIsBuilt(tab: ObjectTable, objects: map<nat, Plist>, built: seq<nat>, off: nat)
    requires CachedAsBuilt(tab, objects, built) && off in objects
    ensures IsBuilt(tab, off, built)
  {
  }

  lemma {:induction false} WalkIsBuilt(tab: ObjectTable, built: seq<nat>, w: seq<nat>)
    requires Walk(tab, w) && IsBuilt(tab, w[0], built)
    requires forall i: nat {:trigger built[i]} :: i < |built| ==> KidsAreBuilt(tab, built[i], built)
    ensures IsBuilt(tab, w[|w| - 1], built)
    decreases |w|
  {
    if |w| > 1 {
      var init := w[..|w| - 1];
      forall i: nat | i + 1 < |init|
        ensures Step(tab, init[i], init[i + 1])
      {
        assert Step(tab, w[i], w[i + 1]);
      }
      WalkIsBuilt(tab, built, init);
      assert Step(tab, w[|w| - 2], w[|w| - 1]);
    }
  }

  class Reader {
    const data: seq<byte>
    const trailer: Trailer
    const mutability: Mutability
    const hasTable: bool
    var objects: map<nat, Plist>
    ghost const tab: ObjectTable  // what the file holds
    ghost var built: seq<nat>     // the collections built, by offset

    constructor (data: seq<byte>, trailer: Trailer, mutability: Mutability, hasTable: bool)
      requires Accepted(data, trailer)
      ensures Valid() && objects == map[] && built == []
      ensures this.data == data && this.trailer == trailer
      ensures this.mutability == mutability && this.hasTable == hasTable
    {
      this.data := data;
      this.trailer := trailer;
      this.mutability := mutability;
      this.hasTable := hasTable;
      tab := TableOf(data, trailer);
      objects := map[];
      built := [];
    }

    predicate CachesCollections() {
      hasTable && mutability == Immutable
    }

    /** Every cached object is what its offset denotes. */
    ghost predicate Valid()
      reads this
    {
      && Accepted(data, trailer)
      && tab == TableOf(data, trailer)
      && (forall o :: o in objects ==> Decodes(tab, o, objects[o]))
      && (CachesCollections() ==> CachedAsBuilt(tab, objects, built))
    }

    /** Which finished objects go into the table: numbers, dates and UIDs always, data and strings unless leaves
        are to be mutable, collections only when everything is immutable, null and booleans never. */
    predicate Cached(v: Plist) {
      match v
      case Null => false
      case Bool(_) => false
      case Data(_) => mutability != MutableContainersAndLeaves
      case Str(_) => mutability != MutableContainersAndLeaves
      case Array(_) => mutability == Immutable
      case Set(_) => mutability == Immutable
      case Dict(_) => mutability == Immutable
      case _ => true
    }

    /** Null and booleans are never cached; data and strings are unless they are to be mutable; collections only when
        nothing is; everything else is, whatever is to be mutable. */
    lemma CachesWhat(v: Plist)
      ensures Cached(v) <==> && v != Null && v != Bool(false) && v != Bool(true)
                             && (v.Data? || v.Str? ==> mutability in {Immutable, MutableContainers})
                             && (v.Array? || v.Set? || v.Dict? ==> mutability == Immutable)
    {
    }

    method Remember(off: nat, v: Plist)
      modifies this`objects
      ensures objects == if hasTable && Cached(v) then old(objects)[off := v] else old(objects)
    {
      if hasTable && Cached(v) {
        objects := objects[off := v];
      }
    }

    /** All references of a collection are read: it is built, taken off the path and remembered. */
    method Complete(off: nat, ghost start: map<nat, Plist>, inner: OffsetSet?, kind: Kind, list: seq<Plist>)
      returns (v: Plist)
      requires Valid() && off in tab && Decodes(tab, off, Build(kind, list))
      requires Grew(start, objects, SizeOfAll(list)) && (hasTable ==> off !in start)
      requires CachesCollections() ==> KidsAreBuilt(tab, off, built)
      modifies this`objects, this`built, inner
      ensures Valid() && Grew(start, objects, Size(v))
      ensures v == Build(kind, list) && built == old(built) + [off] && IsBuilt(tab, off, built)
      ensures inner != null ==> inner.elems == old(inner.elems) - {off}
    {
      hide TableOf, Accepted, Decodes, AllDecode, Size, SizeOfAll, CachedAsBuilt, KidsAreBuilt;
      v := Build(kind, list);
      SizeOfBuild(kind, list);
      if inner != null {
        inner.elems := inner.elems - {off};
      }
      if hasTable {
        NotAmongItsParts(tab, off, v, start, objects);
      }
      if CachesCollections() {
        BuildsOneMore(tab, objects, built, off, v);
      }
      Remember(off, v);
      built := built + [off];
    }

    /** Reading with the table on gives, below every path, what plain reading gives with no table at all; on
        success the path set is handed back unchanged. */
    method CreateObject(off: nat, depth: nat, path: OffsetSet?) returns (r: Option<Plist>)
      requires Valid()
      requires path == null ==> depth <= 16
      requires Above(tab, Offsets(PathOf(path)), off)
      modifies this`objects, this`built, path
      ensures Valid() && (r.Some? ==> Grew(old(objects), objects, Size(r.value)))
      ensures r == Read(tab, off, depth, old(PathOf(path)))
      ensures r.Some? ==> PathOf(path) == old(PathOf(path))
      ensures old(built) <= built && (r.Some? && CachesCollections() ==> IsBuilt(tab, off, built))
      decreases if path == null then 17 - depth else 0, Room(tab, PathOf(path)), 1
    {
      hide CachedAsBuilt, KidsAreBuilt, NoRepeats, Above, Room, SizeOfAll;
      if hasTable && off in objects {
        if CachesCollections() {
          CachedIsBuilt(tab, objects, built, off);
        }
        ReadIsComplete(tab, off, depth, PathOf(path), objects[off]);
        return Some(objects[off]);
      }
      if path != null && off in path.elems {
        return None;
      }
      TableAt(data, trailer, off);
      match ShapeAt(data, trailer, off)
      case None =>
        return None;
      case Some(Finished(v)) =>
        if CachesCollections() {
          LeafChangesNothing(tab, objects, built, off, v);
        }
        Remember(off, v);
        return Some(v);
      case Some(Refs(kind, pos, n)) =>
        r := CreateCollection(off, depth, path, kind, pos, n);
    }

    /** The path set inside a collection: the one there is, or a new one more than 15 levels down, with the offset. */
    method EnterPath(path: OffsetSet?, depth: nat, off: nat) returns (inner: OffsetSet?)
      modifies path
      ensures PathOf(inner) == Enter(old(PathOf(path)), depth, off)
      ensures inner == path || (path == null && fresh(inner))
    {
      inner := path;
      if inner == null && 15 < depth {
        inner := new OffsetSet();
      }
      if inner != null {
        inner.elems := inner.elems + {off};
        assert path == null ==> inner.elems == {off};
      }
    }

    method CreateCollection(off: nat, depth: nat, path: OffsetSet?, kind: Kind, pos: nat, n: nat)
      returns (r: Option<Plist>)
      requires Valid()
      requires path == null ==> depth <= 16
      requires Above(tab, Offsets(PathOf(path)), off)
      requires off in tab && tab[off] == Resolve(data, trailer, Refs(kind, pos, n))
      requires path != null ==> off !in path.elems
      requires hasTable ==> off !in objects
      modifies this`objects, this`built, path
      ensures Valid() && (r.Some? ==> Grew(old(objects), objects, Size(r.value)))
      ensures r == Read(tab, off, depth, old(PathOf(path)))
      ensures r.Some? ==> PathOf(path) == old(PathOf(path))
      ensures old(built) <= built && (r.Some? && CachesCollections() ==> IsBuilt(tab, off, built))
      decreases if path == null then 17 - depth else 0, Room(tab, PathOf(path)), 0
    {
      hide TableOf, Accepted, Decodes, Size, SizeOfAll, Above, Grew, Valid, CachedAsBuilt, KidsAreBuilt, IsBuilt,
           Read, ReadAll, Room;
      ghost var before := PathOf(path);
      ReadNode(tab, off, depth, before);
      var inner := EnterPath(path, depth, off);
      if before.Some? {
        RoomShrinks(tab, before.value, off);
      }
      var list := ReadList(off, depth, before, inner, kind, pos, n);
      if list.None? {
        return None;
      }
      ReadIsSound(tab, off, depth, before);
      var v := Complete(off, old(objects), inner, kind, list.value);
      return Some(v);
    }

    /** One reference of a collection, read. */
    method ReadRef(off: nat, depth: nat, ghost before: Option<set<nat>>, inner: OffsetSet?,
                   kind: Kind, pos: nat, n: nat, idx: nat) returns (r: Option<Plist>)
      requires Valid()
      requires off in tab && tab[off] == Resolve(data, trailer, Refs(kind, pos, n)) && idx < n
      requires before.None? ==> depth <= 16
      requires PathOf(inner) == Enter(before, depth, off)
      requires Above(tab, Offsets(before), off)
      modifies this`objects, this`built, inner
      ensures Valid() && (r.Some? ==> Grew(old(objects), objects, Size(r.value)))
      ensures r == Read(tab, tab[off].kids[idx], depth + 1, old(PathOf(inner)))
      ensures r.Some? ==> PathOf(inner) == old(PathOf(inner))
      ensures old(built) <= built && (r.Some? && CachesCollections() ==> IsBuilt(tab, tab[off].kids[idx], built))
      decreases if inner == null then 16 - depth else 0, Room(tab, PathOf(inner)), 2
    {
      hide TableOf, Decodes, Size, CachedAsBuilt, Grew, Read, IsBuilt;
      AboveChild(tab, Offsets(before), off, idx);
      r := CreateObject(ChildOffset(data, trailer, pos, idx), depth + 1, inner);
    }

    /** The loop over the references of one collection. */
    method ReadList(off: nat, depth: nat, ghost before: Option<set<nat>>, inner: OffsetSet?,
                    kind: Kind, pos: nat, n: nat) returns (r: Option<seq<Plist>>)
      requires Valid()
      requires off in tab && tab[off] == Resolve(data, trailer, Refs(kind, pos, n))
      requires before.None? ==> depth <= 16
      requires PathOf(inner) == Enter(before, depth, off)
      requires Above(tab, Offsets(before), off)
      modifies this`objects, this`built, inner
      ensures Valid() && (r.Some? ==> Grew(old(objects), objects, SizeOfAll(r.value)))
      ensures r == ReadAll(tab, KeyCount(kind, n), tab[off].kids, depth + 1, old(PathOf(inner)))
      ensures r.Some? ==> PathOf(inner) == old(PathOf(inner))
      ensures old(built) <= built && (r.Some? && CachesCollections() ==> KidsAreBuilt(tab, off, built))
      decreases if inner == null then 16 - depth else 0, Room(tab, PathOf(inner)), 3
    {
      hide TableOf, Decodes, Size, SizeOfAll, Accepted, Above, CachedAsBuilt, Grew, Read, ReadAll, Rest, Room;
      ghost var kids := tab[off].kids;
      ghost var within := PathOf(inner);
      var keys := KeyCount(kind, n);
      var list: seq<Plist> := [];
      GrewNone(objects);
      RestEnds(tab, keys, kids, depth + 1, within, list);
      for idx := 0 to n
        invariant Valid() && |list| == idx && Grew(old(objects), objects, SizeOfAll(list))
        invariant PathOf(inner) == within
        invariant old(built) <= built
        invariant CachesCollections() ==> forall k: nat :: k < idx ==> IsBuilt(tab, kids[k], built)
        invariant Rest(tab, keys, kids, depth + 1, within, list) == ReadAll(tab, keys, kids, depth + 1, within)
      {
        RestStep(tab, keys, kids, depth + 1, within, list);
        ghost var soFar, mid := built, objects;
        var pl := ReadRef(off, depth, before, inner, kind, pos, n, idx);
        if pl.None? || (idx < keys && !IsPrimitive(pl.value)) {
          return None;
        }
        SizeOfSnoc(list, pl.value);
        GrewTwice(old(objects), mid, objects, SizeOfAll(list), Size(pl.value));
        StaysBuilt(tab, soFar, built);
        list := list + [pl.value];
      }
      RestEnds(tab, keys, kids, depth + 1, within, list);
      return Some(list);
    }
  }

  /** What a file means: nothing when the trailer check or the reading of the root fails. */
  ghost function Parse(data: seq<byte>): Option<Plist> {
    if |data| < TRAILER_SIZE + 8 + 1 || !Accepted(data, ParseTrailer(data)) then None
    else
      var t := ParseTrailer(data);
      Read(TableOf(data, t), OffsetEntry(data, t, t.topObject), 0, None)
  }

  /** The entry point: one table serves the whole file, for every mutability option. When everything is to be
      immutable, each collection that references lead to is built exactly once, however often it is referred to. */
  method TryParse(data: seq<byte>, mutability: Mutability) returns (r: Option<Plist>, ghost built: seq<nat>)
    ensures r == Parse(data)
    ensures mutability == Immutable ==> |built| <= |data|
    ensures r.Some? && mutability == Immutable ==>
              var t := ParseTrailer(data);
              Accepted(data, t) && BuiltOnceEach(TableOf(data, t), OffsetEntry(data, t, t.topObject), built)
  {
    var info := GetTopLevelInfo(data);
    if info.None? {
      return None, [];
    }
    var reader := new Reader(data, info.value.0, mutability, true);
    r := reader.CreateObject(info.value.1, 0, null);
    built := reader.built;
    if mutability == Immutable {
      NoRepeatsFit(built, reader.tab.Keys);
      SubsetIsSmaller(reader.tab.Keys, Below(info.value.0.offsetTableOffset));
      if r.Some? {
        EveryWalkIsBuilt(reader.tab, reader.objects, built, info.value.1);
      }
    }
  }

  lemma EveryWalkIsBuilt(tab: ObjectTable, objects: map<nat, Plist>, built: seq<nat>, root: nat)
    requires CachedAsBuilt(tab, objects, built) && IsBuilt(tab, root, built)
    ensures BuiltOnceEach(tab, root, built)
  {
    forall w | Walk(tab, w) && w[0] == root
      ensures IsBuilt(tab, w[|w| - 1], built)
    {
      WalkIsBuilt(tab, built, w);
    }
  }

  /** A parsed file is a value its root denotes, and a file parses exactly when no cycle, no unreadable object and no
      collection used as a dictionary key can be reached from the root. */
  lemma ParseSucceedsIff(data: seq<byte>, t: Trailer)
    requires |data| >= TRAILER_SIZE + 8 + 1 && t == ParseTrailer(data) && Accepted(data, t)
    ensures Parse(data).Some? <==> WellFormedFrom(TableOf(data, t), OffsetEntry(data, t, t.topObject))
    ensures Parse(data).Some? ==> Decodes(TableOf(data, t), OffsetEntry(data, t, t.topObject), Parse(data).value)
  {
    TableLeavesArePrimitive(data, t);
    ReadSucceedsIff(TableOf(data, t), OffsetEntry(data, t, t.topObject));
    if Parse(data).Some? {
      ReadIsSound(TableOf(data, t), OffsetEntry(data, t, t.topObject), 0, None);
    }
  }
}
