/** Property list values, the object table as a graph of offsets, and the recursive object reader on it:
    what an offset denotes, plain reading, and when plain reading succeeds. */
module PlistTree {
  import opened Bytes

  /** A property list value. A dictionary is the list of its keys followed by the list of its values, which is
      what the reader hands to the dictionary constructor; reals and dates are their big-endian bytes. */
  datatype Plist =
    | Null
    | Bool(b: bool)
    | Int(bits: u64)
    | Int128(high: u64, low: u64)
    | Real(bytes: seq<byte>)
    | Date(bytes: seq<byte>)
    | Data(bytes: seq<byte>)
    | Str(chars: seq<u16>)
    | Uid(id: u32)
    | Array(items: seq<Plist>)
    | Set(items: seq<Plist>)
    | Dict(items: seq<Plist>)

  /** _plistIsPrimitive: anything that is not a collection. */
  predicate IsPrimitive(v: Plist) {
    !v.Array? && !v.Set? && !v.Dict?
  }

  datatype Kind = ArrayKind | SetKind | DictKind

  function Build(kind: Kind, items: seq<Plist>): Plist {
    match kind
    case ArrayKind => Array(items)
    case SetKind => Set(items)
    case DictKind => Dict(items)
  }

  /** The number of nodes of a value. */
  function Size(v: Plist): (n: nat)
    ensures n > 0
    decreases v
  {
    if IsPrimitive(v) then 1 else 1 + SizeOfAll(v.items)
  }

  function SizeOfAll(vs: seq<Plist>): nat
    decreases vs
  {
    if vs == [] then 0 else Size(vs[0]) + SizeOfAll(vs[1..])
  }

  lemma {:induction false} ItemIsSmaller(vs: seq<Plist>, k: nat)
    requires k < |vs|
    ensures Size(vs[k]) <= SizeOfAll(vs)
    decreases vs
  {
    if k > 0 {
      assert vs[1..][k - 1] == vs[k];
      ItemIsSmaller(vs[1..], k - 1);
    }
  }

  lemma SizeOfBuild(kind: Kind, vs: seq<Plist>)
    ensures Size(Build(kind, vs)) == 1 + SizeOfAll(vs) && !IsPrimitive(Build(kind, vs))
  {
  }

  lemma {:induction false} SizeOfSnoc(vs: seq<Plist>, v: Plist)
    ensures SizeOfAll(vs + [v]) == SizeOfAll(vs) + Size(v)
    decreases vs
  {
    if vs == [] {
      assert vs + [v] == [v];
    } else {
      assert (vs + [v])[1..] == vs[1..] + [v];
      SizeOfSnoc(vs[1..], v);
    }
  }

  // ---- The object table ----

  /** One object: a finished leaf value, or a collection of references, each given by the offset it leads to. */
  datatype Item = Leaf(v: Plist) | Node(kind: Kind, kids: seq<nat>)

  /** The readable objects by offset. An offset outside the table holds nothing the reader understands. */
  type ObjectTable = map<nat, Item>

  ghost predicate LeavesArePrimitive(tab: ObjectTable) {
    forall o :: o in tab && tab[o].Leaf? ==> IsPrimitive(tab[o].v)
  }

  /** How many of a collection's references are dictionary keys: the first half of a dictionary's. */
  function KeyCount(kind: Kind, n: nat): (keys: nat) {
    if kind == DictKind then n / 2 else 0
  }

  function Less(keys: nat): nat {
    if keys == 0 then 0 else keys - 1
  }

  /** The object at off stands for v: the reference definition of reading, by structure of the value alone.
      It knows nothing of depths, path sets or caches. */
  ghost predicate Decodes(tab: ObjectTable, off: nat, v: Plist)
    decreases v
  {
    && off in tab
    && match tab[off]
       case Leaf(w) => v == w
       case Node(kind, kids) =>
         && !IsPrimitive(v)
         && v == Build(kind, v.items)
         && AllDecode(tab, KeyCount(kind, |kids|), kids, v.items)
  }

  /** Each reference stands for the matching value, and the first `keys` values are no collections. */
  ghost predicate AllDecode(tab: ObjectTable, keys: nat, kids: seq<nat>, vs: seq<Plist>)
    decreases vs
  {
    && |vs| == |kids|
    && (vs != [] ==>
          && Decodes(tab, kids[0], vs[0])
          && (keys > 0 ==> IsPrimitive(vs[0]))
          && AllDecode(tab, Less(keys), kids[1..], vs[1..]))
  }

  lemma {:induction false} ItemDecodes(tab: ObjectTable, keys: nat, kids: seq<nat>, vs: seq<Plist>, k: nat)
    requires AllDecode(tab, keys, kids, vs) && k < |kids|
    ensures Decodes(tab, kids[k], vs[k])
    ensures k < keys ==> IsPrimitive(vs[k])
    decreases vs
  {
    if k > 0 {
      ItemDecodes(tab, Less(keys), kids[1..], vs[1..], k - 1);
      assert vs[1..][k - 1] == vs[k];
    }
  }

  lemma {:induction false} AllDecodeFrom(tab: ObjectTable, keys: nat, kids: seq<nat>, vs: seq<Plist>)
    requires |vs| == |kids|
    requires forall k: nat :: k < |kids| ==> Decodes(tab, kids[k], vs[k]) && (k < keys ==> IsPrimitive(vs[k]))
    ensures AllDecode(tab, keys, kids, vs)
    decreases vs
  {
    if vs != [] {
      forall k: nat | k < |kids| - 1
        ensures Decodes(tab, kids[1..][k], vs[1..][k]) && (k < Less(keys) ==> IsPrimitive(vs[1..][k]))
      {
        assert Decodes(tab, kids[k + 1], vs[k + 1]);
      }
      AllDecodeFrom(tab, Less(keys), kids[1..], vs[1..]);
    }
  }

  /** An offset denotes at most one value. */
  lemma {:induction false} DecodesIsDeterministic(tab: ObjectTable, off: nat, v: Plist, w: Plist)
    requires Decodes(tab, off, v) && Decodes(tab, off, w)
    ensures v == w
    decreases v
  {
    if tab[off].Node? {
      var kids := tab[off].kids;
      AllDecodeIsDeterministic(tab, KeyCount(tab[off].kind, |kids|), kids, v.items, w.items);
    }
  }

  lemma {:induction false} AllDecodeIsDeterministic(tab: ObjectTable, keys: nat, kids: seq<nat>,
                                                    vs: seq<Plist>, ws: seq<Plist>)
    requires AllDecode(tab, keys, kids, vs) && AllDecode(tab, keys, kids, ws)
    ensures vs == ws
    decreases vs
  {
    if vs != [] {
      DecodesIsDeterministic(tab, kids[0], vs[0], ws[0]);
      AllDecodeIsDeterministic(tab, Less(keys), kids[1..], vs[1..], ws[1..]);
      assert vs == [vs[0]] + vs[1..] && ws == [ws[0]] + ws[1..];
    }
  }

  // ---- Plain reading ----

  /** The objects of the table that the path set does not hold yet. */
  ghost function Room(tab: ObjectTable, path: Option<set<nat>>): nat {
    if path.None? then 0 else |tab.Keys - path.value|
  }

  lemma RoomShrinks(tab: ObjectTable, path: set<nat>, off: nat)
    requires off !in path && off in tab
    ensures Room(tab, Some(path + {off})) < Room(tab, Some(path))
  {
    assert tab.Keys - (path + {off}) == (tab.Keys - path) - {off};
  }

  /** The path set inside a collection at off: it is created only for a collection more than 15 levels down. */
  function Enter(path: Option<set<nat>>, depth: nat, off: nat): Option<set<nat>> {
    if path.Some? then Some(path.value + {off})
    else if 15 < depth then Some({off})
    else None
  }

  /** There is no path set down to the collection at depth 15; the one at depth 16 starts it. */
  lemma PathStartsAtSixteen(depth: nat, off: nat)
    ensures depth <= 15 ==> Enter(None, depth, off) == None
    ensures depth >= 16 ==> Enter(None, depth, off) == Some({off})
  {
  }

  /** Reading with no cache. The measure is the depth left before a path set exists, then the room left in it. */
  ghost function Read(tab: ObjectTable, off: nat, depth: nat, path: Option<set<nat>>): Option<Plist>
    requires path.None? ==> depth <= 16
    decreases if path.None? then 17 - depth else 0, Room(tab, path), 0
  {
    if path.Some? && off in path.value then None
    else if off !in tab then None
    else
      match tab[off]
      case Leaf(v) => Some(v)
      case Node(kind, kids) =>
        assert path.Some? ==> Room(tab, Enter(path, depth, off)) < Room(tab, path) by {
          if path.Some? { RoomShrinks(tab, path.value, off); }
        }
        match ReadAll(tab, KeyCount(kind, |kids|), kids, depth + 1, Enter(path, depth, off))
        case None => None
        case Some(items) => Some(Build(kind, items))
  }

  /** The references of a collection, in order; the first failure fails the whole, and so does a collection among
      the first `keys` values. */
  ghost function ReadAll(tab: ObjectTable, keys: nat, kids: seq<nat>, depth: nat, path: Option<set<nat>>)
    : (r: Option<seq<Plist>>)
    requires path.None? ==> depth <= 16
    decreases if path.None? then 17 - depth else 0, Room(tab, path), 1 + |kids|
  {
    if kids == [] then Some([])
    else
      match Read(tab, kids[0], depth, path)
      case None => None
      case Some(v) =>
        if keys > 0 && !IsPrimitive(v) then None
        else
          match ReadAll(tab, Less(keys), kids[1..], depth, path)
          case None => None
          case Some(rest) => Some([v] + rest)
  }

  /** Whatever plain reading returns is what the offset denotes. */
  lemma {:induction false} ReadIsSound(tab: ObjectTable, off: nat, depth: nat, path: Option<set<nat>>)
    requires path.None? ==> depth <= 16
    requires Read(tab, off, depth, path).Some?
    ensures Decodes(tab, off, Read(tab, off, depth, path).value)
    decreases if path.None? then 17 - depth else 0, Room(tab, path), 0
  {
    if tab[off].Node? {
      var kids := tab[off].kids;
      if path.Some? { RoomShrinks(tab, path.value, off); }
      ReadAllIsSound(tab, KeyCount(tab[off].kind, |kids|), kids, depth + 1, Enter(path, depth, off));
    }
  }

  lemma {:induction false} ReadAllIsSound(tab: ObjectTable, keys: nat, kids: seq<nat>,
                                          depth: nat, path: Option<set<nat>>)
    requires path.None? ==> depth <= 16
    requires ReadAll(tab, keys, kids, depth, path).Some?
    ensures AllDecode(tab, keys, kids, ReadAll(tab, keys, kids, depth, path).value)
    decreases if path.None? then 17 - depth else 0, Room(tab, path), 1 + |kids|
  {
    if kids != [] {
      ReadIsSound(tab, kids[0], depth, path);
      ReadAllIsSound(tab, Less(keys), kids[1..], depth, path);
      assert ReadAll(tab, keys, kids, depth, path).value[1..]
          == ReadAll(tab, Less(keys), kids[1..], depth, path).value;
    }
  }

  /** off denotes a proper part of u. */
  ghost predicate DenotesPartOf(tab: ObjectTable, off: nat, u: Plist) {
    exists w :: Decodes(tab, off, w) && Size(w) < Size(u)
  }

  /** Every offset of the path leads down to off: if it denotes anything, off denotes a proper part of that. */
  ghost predicate Above(tab: ObjectTable, path: set<nat>, off: nat) {
    forall p, u :: p in path && Decodes(tab, p, u) ==> DenotesPartOf(tab, off, u)
  }

  ghost function Offsets(path: Option<set<nat>>): set<nat> {
    if path.None? then {} else path.value
  }

  /** What a reference of a collection denotes is a proper part of what the collection denotes. */
  lemma KidDenotesPart(tab: ObjectTable, off: nat, v: Plist, k: nat)
    requires Decodes(tab, off, v) && tab[off].Node? && k < |tab[off].kids|
    ensures !IsPrimitive(v) && k < |v.items|
    ensures Decodes(tab, tab[off].kids[k], v.items[k]) && Size(v.items[k]) < Size(v)
  {
    ItemIsSmaller(v.items, k);
    ItemDecodes(tab, KeyCount(tab[off].kind, |tab[off].kids|), tab[off].kids, v.items, k);
  }

  /** Going down one reference keeps the path above the child. */
  lemma AboveChild(tab: ObjectTable, path: set<nat>, off: nat, k: nat)
    requires Above(tab, path, off)
    requires off in tab && tab[off].Node? && k < |tab[off].kids|
    ensures Above(tab, path + {off}, tab[off].kids[k])
  {
    var kid := tab[off].kids[k];
    forall p, u | p in path + {off} && Decodes(tab, p, u)
      ensures DenotesPartOf(tab, kid, u)
    {
      var w :| Decodes(tab, off, w) && Size(w) <= Size(u);
      KidDenotesPart(tab, off, w, k);
    }
  }

  /** An offset that denotes a value is not on a path above itself. */
  lemma NotOnPath(tab: ObjectTable, path: set<nat>, off: nat, v: Plist)
    requires Above(tab, path, off) && Decodes(tab, off, v)
    ensures off !in path
  {
    if off in path {
      assert DenotesPartOf(tab, off, v);
      var w :| Decodes(tab, off, w) && Size(w) < Size(v);
      DecodesIsDeterministic(tab, off, v, w);
    }
  }

  /** Whatever an offset denotes, plain reading returns it, from every depth and below every path. */
  lemma {:induction false} ReadIsComplete(tab: ObjectTable, off: nat, depth: nat, path: Option<set<nat>>, v: Plist)
    requires Decodes(tab, off, v)
    requires path.None? ==> depth <= 16
    requires Above(tab, Offsets(path), off)
    ensures Read(tab, off, depth, path) == Some(v)
    decreases v
  {
    NotOnPath(tab, Offsets(path), off, v);
    if tab[off].Node? {
      var kids := tab[off].kids;
      var inner := Enter(path, depth, off);
      forall k: nat | k < |kids|
        ensures Above(tab, Offsets(inner), kids[k])
      {
        AboveChild(tab, Offsets(path), off, k);
      }
      ReadAllIsComplete(tab, KeyCount(tab[off].kind, |kids|), kids, depth + 1, inner, v.items);
    }
  }

  lemma {:induction false} ReadAllIsComplete(tab: ObjectTable, keys: nat, kids: seq<nat>, depth: nat,
                                             path: Option<set<nat>>, vs: seq<Plist>)
    requires AllDecode(tab, keys, kids, vs)
    requires path.None? ==> depth <= 16
    requires forall k: nat :: k < |kids| ==> Above(tab, Offsets(path), kids[k])
    ensures ReadAll(tab, keys, kids, depth, path) == Some(vs)
    decreases vs
  {
    if vs != [] {
      ReadIsComplete(tab, kids[0], depth, path, vs[0]);
      ReadAllIsComplete(tab, Less(keys), kids[1..], depth, path, vs[1..]);
      assert vs == [vs[0]] + vs[1..];
    }
  }

  /** From the root, plain reading returns v exactly when the root denotes v. */
  lemma ReadIffDecodes(tab: ObjectTable, root: nat, v: Plist)
    ensures Read(tab, root, 0, None) == Some(v) <==> Decodes(tab, root, v)
  {
    if Decodes(tab, root, v) {
      ReadIsComplete(tab, root, 0, None, v);
    }
    if Read(tab, root, 0, None) == Some(v) {
      ReadIsSound(tab, root, 0, None);
    }
  }

  // ---- When reading succeeds ----

  ghost predicate Step(tab: ObjectTable, a: nat, b: nat) {
    a in tab && tab[a].Node? && b in tab[a].kids
  }

  /** A walk along references. */
  ghost predicate Walk(tab: ObjectTable, w: seq<nat>) {
    |w| > 0 && forall i: nat :: i + 1 < |w| ==> Step(tab, w[i], w[i + 1])
  }

  ghost predicate Repeats(w: seq<nat>) {
    exists i: nat, j: nat :: i < j < |w| && w[i] == w[j]
  }

  /** Along a walk from an offset that denotes v, every offset denotes a value, and it shrinks at each step. */
  lemma {:induction false} WalkDescends(tab: ObjectTable, w: seq<nat>, i: nat, v: Plist) returns (u: Plist)
    requires Walk(tab, w) && i < |w| && Decodes(tab, w[0], v)
    ensures Decodes(tab, w[i], u) && Size(u) + i <= Size(v)
    decreases i
  {
    if i == 0 {
      u := v;
    } else {
      var a := WalkDescends(tab, w, i - 1, v);
      assert Step(tab, w[i - 1], w[i - 1 + 1]);
      var kids := tab[w[i - 1]].kids;
      var k: nat :| k < |kids| && kids[k] == w[i];
      KidDenotesPart(tab, w[i - 1], a, k);
      u := a.items[k];
    }
  }

  /** Reading never succeeds when a reference cycle can be reached from the root, although the path set that
      detects cycles starts only below depth 15. */
  lemma CyclesNeverRead(tab: ObjectTable, root: nat, w: seq<nat>)
    requires Walk(tab, w) && w[0] == root && Repeats(w)
    ensures Read(tab, root, 0, None) == None
  {
    if Read(tab, root, 0, None).Some? {
      ReadIsSound(tab, root, 0, None);
      var v := Read(tab, root, 0, None).value;
      var i: nat, j: nat :| i < j < |w| && w[i] == w[j];
      var a := WalkDescends(tab, w, i, v);
      var tail := w[i..];
      assert Walk(tab, tail) by {
        forall x: nat | x + 1 < |tail|
          ensures Step(tab, tail[x], tail[x + 1])
        {
          assert Step(tab, w[i + x], w[(i + x) + 1]);
        }
      }
      var b := WalkDescends(tab, tail, j - i, a);
      DecodesIsDeterministic(tab, w[i], a, b);
    }
  }

  /** The object at off is understood, and if it is a dictionary its keys are leaves. */
  ghost predicate Sound(tab: ObjectTable, off: nat) {
    && off in tab
    && (tab[off].Node? && tab[off].kind == DictKind ==>
          forall k: nat :: k < |tab[off].kids| / 2 ==> tab[off].kids[k] in tab && tab[tab[off].kids[k]].Leaf?)
  }

  /** Every walk from the root is free of repetition and ends at a sound object. */
  ghost predicate WellFormedFrom(tab: ObjectTable, root: nat) {
    forall w :: Walk(tab, w) && w[0] == root ==> !Repeats(w) && Sound(tab, w[|w| - 1])
  }

  ghost predicate Denotes(tab: ObjectTable, off: nat) {
    exists v :: Decodes(tab, off, v)
  }

  ghost function Denotation(tab: ObjectTable, off: nat): (v: Plist)
    requires Denotes(tab, off)
    ensures Decodes(tab, off, v)
  {
    var v :| Decodes(tab, off, v);
    v
  }

  lemma ExtendWalk(tab: ObjectTable, w: seq<nat>, kid: nat)
    requires Walk(tab, w) && Step(tab, w[|w| - 1], kid)
    ensures Walk(tab, w + [kid])
  {
  }

  /** In a well-formed table the end of every walk from the root denotes a value: the walk can only grow into
      offsets it does not hold yet. */
  lemma {:induction false} WalkEndDenotes(tab: ObjectTable, w: seq<nat>)
    requires Walk(tab, w) && WellFormedFrom(tab, w[0]) && LeavesArePrimitive(tab)
    ensures Denotes(tab, w[|w| - 1])
    decreases |tab.Keys - (set o | o in w)|
  {
    var off := w[|w| - 1];
    assert Sound(tab, off);
    match tab[off]
    case Leaf(v) =>
      assert Decodes(tab, off, v);
    case Node(kind, kids) =>
      forall k: nat | k < |kids|
        ensures Denotes(tab, kids[k])
      {
        KidDenotes(tab, w, kids[k]);
      }
      var items := seq(|kids|, k requires 0 <= k < |kids| => Denotation(tab, kids[k]));
      AllDecodeFrom(tab, KeyCount(kind, |kids|), kids, items);
      assert Decodes(tab, off, Build(kind, items));
  }

  lemma NoRepeatIsFresh(w: seq<nat>, kid: nat)
    ensures kid in w ==> Repeats(w + [kid])
  {
    if kid in w {
      var i: nat :| i < |w| && w[i] == kid;
      var x := w + [kid];
      assert x[i] == x[|w|];
    }
  }

  lemma {:induction false} KidDenotes(tab: ObjectTable, w: seq<nat>, kid: nat)
    requires Walk(tab, w) && WellFormedFrom(tab, w[0]) && LeavesArePrimitive(tab)
    requires Step(tab, w[|w| - 1], kid)
    ensures Denotes(tab, kid)
    decreases |tab.Keys - (set o | o in w)|, 0
  {
    var x := w + [kid];
    ExtendWalk(tab, w, kid);
    assert x[0] == w[0];
    assert !Repeats(x) && Sound(tab, x[|x| - 1]);
    NoRepeatIsFresh(w, kid);
    var seen, more := set o | o in w, set o | o in x;
    assert more == seen + {kid};
    assert tab.Keys - more == (tab.Keys - seen) - {kid};
    WalkEndDenotes(tab, x);
  }

  /** Reading succeeds exactly when no reference cycle, no object that is not understood and no dictionary with a
      collection for a key can be reached from the root. */
  lemma ReadSucceedsIff(tab: ObjectTable, root: nat)
    requires LeavesArePrimitive(tab)
    ensures Read(tab, root, 0, None).Some? <==> WellFormedFrom(tab, root)
  {
    if WellFormedFrom(tab, root) {
      assert Walk(tab, [root]);
      WalkEndDenotes(tab, [root]);
      ReadIffDecodes(tab, root, Denotation(tab, root));
    }
    if Read(tab, root, 0, None).Some? {
      var v := Read(tab, root, 0, None).value;
      ReadIsSound(tab, root, 0, None);
      forall w | Walk(tab, w) && w[0] == root
        ensures !Repeats(w) && Sound(tab, w[|w| - 1])
      {
        if Repeats(w) {
          CyclesNeverRead(tab, root, w);
        }
        var u := WalkDescends(tab, w, |w| - 1, v);
        DecodedIsSound(tab, w[|w| - 1], u);
      }
    }
  }

  lemma DecodedIsSound(tab: ObjectTable, off: nat, v: Plist)
    requires Decodes(tab, off, v)
    ensures Sound(tab, off)
  {
    if tab[off].Node? && tab[off].kind == DictKind {
      var kids := tab[off].kids;
      forall k: nat | k < |kids| / 2
        ensures kids[k] in tab && tab[kids[k]].Leaf?
      {
        KidDenotesPart(tab, off, v, k);
        ItemDecodes(tab, |kids| / 2, kids, v.items, k);
      }
    }
  }
}
