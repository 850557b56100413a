/** The dictionary of value arrays: nodes point either at an array of their own or into one arena
    that was read from a stream. */
module Dicts {
  import opened Memory
  import opened DsUtil
  import opened HashBuckets
  import opened Arenas

  /** Where a node's values lie. */
  datatype Ptr<V> = Ptr(block: array<V>, off: nat, size: nat)

  // ---- memory ------------------------------------------------------------------------------

  /** A pointer into the arena, or at the whole of an array of its own. */
  ghost predicate Placed<V>(p: Ptr<V>, arena: array<V>) {
    && p.size > 0 && p.off + p.size <= p.block.Length
    && (p.block != arena ==> p.off == 0 && p.size == p.block.Length)
  }

  ghost predicate Apart<V>(p: Ptr<V>, q: Ptr<V>) {
    p.block != q.block || p.off + p.size <= q.off || q.off + q.size <= p.off
  }

  /** Every pointer well placed, and no two of them overlapping. */
  ghost predicate Laid<V>(ptrs: map<int, Ptr<V>>, arena: array<V>) {
    && (forall k :: k in ptrs ==> Placed(ptrs[k], arena))
    && (forall j, k :: j in ptrs && k in ptrs && j != k ==> Apart(ptrs[j], ptrs[k]))
  }

  ghost predicate Reads<V>(p: Ptr<V>, v: seq<V>)
    reads p.block
  {
    p.off + p.size <= p.block.Length && v == p.block[p.off..p.off + p.size]
  }

  ghost function Blocks<V>(ptrs: map<int, Ptr<V>>): set<array<V>> {
    set k | k in ptrs :: ptrs[k].block
  }

  /** What the pointers read is what view says. */
  ghost predicate Shows<V>(ptrs: map<int, Ptr<V>>, view: map<int, seq<V>>)
    reads Blocks(ptrs)
  {
    && (forall k :: k in ptrs <==> k in view)
    && (forall k :: k in ptrs ==> Reads(ptrs[k], view[k]))
  }

  /** Nothing that is pointed at has been freed. */
  ghost predicate Alive<V>(ptrs: map<int, Ptr<V>>, freed: set<array<V>>) {
    forall k :: k in ptrs ==> ptrs[k].block !in freed
  }

  lemma LaidAdded<V>(ptrs: map<int, Ptr<V>>, arena: array<V>, k: int, p: Ptr<V>)
    requires Laid(ptrs, arena) && Placed(p, arena) && forall j :: j in ptrs ==> ptrs[j].block != p.block
    ensures Laid(ptrs[k := p], arena)
  {
  }

  /** An array of a node's own is shared with no other node. */
  lemma OwnBlock<V>(ptrs: map<int, Ptr<V>>, arena: array<V>, j: int, k: int)
    requires Laid(ptrs, arena) && j in ptrs && k in ptrs && j != k && ptrs[k].block != arena
    ensures ptrs[j].block != ptrs[k].block
  {
    assert Placed(ptrs[j], arena) && Placed(ptrs[k], arena) && Apart(ptrs[j], ptrs[k]);
  }

  /** `memcpy` into a node's place. */
  method Overwrite<V>(p: Ptr<V>, v: seq<V>)
    requires |v| == p.size && p.off + p.size <= p.block.Length
    modifies p.block
    ensures Reads(p, v)
    ensures forall i :: 0 <= i < p.off || p.off + p.size <= i < p.block.Length ==> p.block[i] == old(p.block[i])
  {
    forall i | 0 <= i < |v| {
      p.block[p.off + i] := v[i];
    }
  }

  /** A slice apart from the overwritten one keeps its elements. */
  lemma SliceKept<V>(before: seq<V>, after: seq<V>, p: Ptr<V>, q: Ptr<V>)
    requires |after| == |before| && p.off + p.size <= |before| && q.off + q.size <= |before|
    requires p.off + p.size <= q.off || q.off + q.size <= p.off
    requires forall i :: 0 <= i < p.off || p.off + p.size <= i < |before| ==> after[i] == before[i]
    ensures after[q.off..q.off + q.size] == before[q.off..q.off + q.size]
  {
  }

  /** Overwriting one key's place: the other pointers read what they read before. */
  method OverwriteShown<V>(p: Ptr<V>, v: seq<V>, ghost ptrs: map<int, Ptr<V>>, ghost view: map<int, seq<V>>,
                           ghost arena: array<V>, ghost k: int)
    requires Laid(ptrs, arena) && Shows(ptrs, view) && k in ptrs && ptrs[k] == p && p.size == |v|
    modifies p.block
    ensures Shows(ptrs, view[k := v])
  {
    hide Laid;
    PlacedWell(ptrs, arena, k);
    ghost var before := p.block[..];
    Overwrite(p, v);
    ghost var after := p.block[..];
    forall j | j in ptrs && j != k ensures Reads(ptrs[j], view[j]) {
      assert old(Reads(ptrs[j], view[j]));
      PairApart(ptrs, arena, k, j);
      if ptrs[j].block == p.block { SliceKept(before, after, p, ptrs[j]); }
    }
  }

  /** `new V[size]` filled by `memcpy`. */
  method Copy<V(0)>(v: seq<V>) returns (p: Ptr<V>)
    ensures fresh(p.block) && p.off == 0 && p.size == |v| == p.block.Length && Reads(p, v)
  {
    var block := new V[|v|];
    forall i | 0 <= i < |v| {
      block[i] := v[i];
    }
    p := Ptr(block, 0, |v|);
  }

  class Dict<V(0)> {
    const hash: Hash
    var size: nat
    var total: U64
    var datas: Table<Ptr<V>>
    var values: array<V>                   // the arena
    ghost var ptrs: map<int, Ptr<V>>
    ghost var view: map<int, seq<V>>       // the value array of every key
    ghost var freed: set<array<V>>         // what `delete[]` was applied to

    ghost predicate Valid()
      reads this, Blocks(ptrs)
    {
      && |datas| == size && Represents(hash, datas, ptrs) && total == |ptrs|
      && Laid(ptrs, values) && Shows(ptrs, view) && Alive(ptrs, freed) && values !in freed
    }

    constructor (hash: Hash, n: U32)
      requires HasBasket(ToInt32(n))
      ensures Valid() && view == map[] && ptrs == map[] && this.hash == hash && size == Basket(ToInt32(n))
      ensures fresh(values) && freed == {}
    {
      this.hash := hash;
      this.size := Basket(ToInt32(n));
      total, datas, values := 0, seq(Basket(ToInt32(n)), i => []), new V[0];
      ptrs, view, freed := map[], map[], {};
    }

    /** `inValues`: whether the pointer lies in the arena. */
    predicate InValues(p: Ptr<V>)
      reads this
    {
      values.Length != 0 && p.block == values && p.off <= values.Length - 1
    }

    method Get(k: int) returns (r: Option<seq<V>>)
      requires Valid()
      ensures r == if k in view then Some(view[k]) else None
    {
      Found(hash, datas, ptrs, k);
      match Lookup(hash, datas, k)
      case None =>
        return None;
      case Some(ptr) =>
        return Some(ptr.block[ptr.off..ptr.off + ptr.size]);
    }

    method Exists(k: int) returns (r: bool)
      requires Valid()
      ensures r == (k in view)
    {
      Find(hash, datas, ptrs, k);
      var b := datas[Pos(hash, size, k)];
      r := BinarySearch(b, k) != |b|;
    }

    /** `delete[]`, unless the pointer lies in the arena. Nothing is freed twice. */
    method Free(p: Ptr<V>)
      requires p.block !in freed
      modifies this`freed
      ensures freed == old(freed) + if InValues(p) then {} else {p.block}
    {
      if !InValues(p) {
        freed := freed + {p.block};
      }
    }

    /** Stores an array under a key; storing an empty one does nothing. */
    method Insert(k: int, v: seq<V>)
      requires Valid() && CanRehash(total, size) && total < 0xFFFF_FFFF_FFFF_FFFF
      modifies this, Blocks(ptrs)
      ensures Valid() && view == if v == [] then old(view) else old(view)[k := v]
      ensures values == old(values) && total == old(total) + if v == [] || k in old(ptrs) then 0 else 1
      ensures k in old(ptrs) && old(ptrs)[k].size == |v| ==> ptrs == old(ptrs)
      ensures freed == old(freed) +
        if v != [] && k in old(ptrs) && old(ptrs)[k].size != |v| && old(ptrs)[k].block != values
        then {old(ptrs)[k].block} else {}
      ensures fresh(Blocks(ptrs) - old(Blocks(ptrs)))
      ensures v == [] ==> size == old(size) && ptrs == old(ptrs)
      ensures v != [] && old(total) <= 16 * old(size) ==> size == old(size)
      ensures v != [] && 16 * old(size) < old(total) ==> size == Basket(ToInt32(old(total)))
      ensures v != [] && 16 * old(size) < old(total) < 0x4000_0000 ==> old(total) < size <= 2 * old(total)
      ensures old(TableSize(size)) ==> TableSize(size)
      ensures v != [] && old(TableSize(size) && total <= 16 * size + 1) ==>
        (total <= 16 * size + 1 <==> old(size) < 0x1000_0000 || old(total) <= 16 * old(size))
    {
      hide Represents, Laid, Shows, Alive, Basket, TableSize;
      if |v| == 0 {
        return;
      }
      RepresentsSize(hash, datas, ptrs);
      if Crowded(total, size) {
        Rehash();
      }
      Store(k, v);
      Regrown(old(total), old(size), total, size);
    }

    method Store(k: int, v: seq<V>)
      requires Valid() && v != [] && total < 0xFFFF_FFFF_FFFF_FFFF
      modifies this`datas, this`total, this`ptrs, this`view, this`freed, Blocks(ptrs)
      ensures Valid() && view == old(view)[k := v]
      ensures k in old(ptrs) && old(ptrs)[k].size == |v| ==> ptrs == old(ptrs)
      ensures total == old(total) + if k in old(ptrs) then 0 else 1
      ensures freed == old(freed) +
        if k in old(ptrs) && old(ptrs)[k].size != |v| && old(ptrs)[k].block != values then {old(ptrs)[k].block} else {}
      ensures fresh(Blocks(ptrs) - old(Blocks(ptrs)))
    {
      hide Represents, Laid, Shows, Alive;
      Find(hash, datas, ptrs, k);
      var pos := Pos(hash, size, k);
      var p := BinarySearch(datas[pos], k);
      if p == |datas[pos]| {
        InsertNew(k, v);
      } else if datas[pos][p].val.size == |v| {
        InsertInPlace(k, datas[pos][p].val, v);
      } else {
        InsertInstead(k, v);
      }
    }

    method InsertNew(k: int, v: seq<V>)
      requires Valid() && k !in ptrs && v != [] && total < 0xFFFF_FFFF_FFFF_FFFF
      modifies this`datas, this`total, this`ptrs, this`view
      ensures Valid() && view == old(view)[k := v] && total == old(total) + 1
      ensures fresh(Blocks(ptrs) - old(Blocks(ptrs)))
    {
      hide Represents, Laid, Alive, Reads;
      var ptr := Copy(v);
      var table := PutIn(hash, datas, ptrs, Node(k, ptr));
      LaidAdded(ptrs, values, k, ptr);
      More(ptrs, view, freed, k, ptr, v);
      Install(table, total + 1, ptrs[k := ptr], view[k := v]);
    }

    /** The same number of values: written over the old ones, wherever they lie. */
    method InsertInPlace(k: int, ptr: Ptr<V>, v: seq<V>)
      requires Valid() && k in ptrs && ptrs[k] == ptr && ptr.size == |v|
      modifies this`view, ptr.block
      ensures Valid() && view == old(view)[k := v]
    {
      hide Represents, Alive, Laid;
      OverwriteShown(ptr, v, ptrs, view, values, k);
      view := view[k := v];
    }

    /** Another number of values: a new array, and the old one freed if it was the node's own. */
    method InsertInstead(k: int, v: seq<V>)
      requires Valid() && k in ptrs && v != []
      modifies this`datas, this`total, this`ptrs, this`view, this`freed
      ensures Valid() && view == old(view)[k := v] && total == old(total)
      ensures freed == old(freed) + if old(ptrs)[k].block != values then {old(ptrs)[k].block} else {}
      ensures fresh(Blocks(ptrs) - old(Blocks(ptrs)))
    {
      hide Represents, Laid;
      var ptr := Copy(v);
      Find(hash, datas, ptrs, k);
      Overwritten(hash, datas, ptrs, k, ptr);
      SizeGrows(ptrs, k, ptr);
      LaidAdded(ptrs, values, k, ptr);
      LetGo(ptrs, values, k, freed);
      var pos := Pos(hash, size, k);
      var p := BinarySearch(datas[pos], k);
      Free(datas[pos][p].val);
      Install(datas[pos := datas[pos][p := Node(datas[pos][p].key, ptr)]], total, ptrs[k := ptr], view[k := v]);
    }

    method Del(k: int) returns (found: bool)
      requires Valid()
      modifies this`datas, this`total, this`ptrs, this`view, this`freed
      ensures Valid() && view == old(view) - {k} && found == (k in old(view)) && values == old(values)
      ensures freed == old(freed) + if k in old(ptrs) && old(ptrs)[k].block != values then {old(ptrs)[k].block} else {}
      ensures fresh(Blocks(ptrs) - old(Blocks(ptrs)))
    {
      hide Represents, Laid, Shows, Alive;
      Find(hash, datas, ptrs, k);
      var pos := Pos(hash, size, k);
      found := BinarySearch(datas[pos], k) != |datas[pos]|;
      Keys(ptrs, view, k);
      if found {
        Remove(k);
      }
    }

    method Remove(k: int)
      requires Valid() && k in ptrs
      modifies this`datas, this`total, this`ptrs, this`view, this`freed
      ensures Valid() && view == old(view) - {k} && values == old(values)
      ensures freed == old(freed) + if old(ptrs)[k].block != values then {old(ptrs)[k].block} else {}
      ensures fresh(Blocks(ptrs) - old(Blocks(ptrs)))
    {
      hide Represents, Laid, Alive, Shows, Sorted;
      Find(hash, datas, ptrs, k);
      LetGo(ptrs, values, k, freed);
      FewerBlocks(ptrs, k);
      var table := CutOut(hash, datas, ptrs, k);
      Free(datas[Pos(hash, size, k)][BinarySearch(datas[Pos(hash, size, k)], k)].val);
      Less(ptrs, values, view, old(freed), freed, k);
      Install(table, total - 1, ptrs - {k}, view - {k});
    }

    /** New buckets and what they mean. */
    method Install(table: Table<Ptr<V>>, n: U64, ghost p: map<int, Ptr<V>>, ghost w: map<int, seq<V>>)
      requires |table| == size && Represents(hash, table, p) && n == |p|
      requires Laid(p, values) && Shows(p, w) && Alive(p, freed) && values !in freed
      modifies this`datas, this`total, this`ptrs, this`view
      ensures Valid() && ptrs == p && view == w
    {
      hide Represents, Laid, Alive;
      datas, total, ptrs, view := table, n, p, w;
    }

    /** Nothing that a key's pointer leads to has been freed. */
    lemma NeverFreed()
      requires Valid()
      ensures forall k :: k in view ==> k in ptrs && ptrs[k].block !in freed
    {
      hide Represents, Laid;
    }

    /** Every node lies in the bucket of its hash modulo the number of buckets, and buckets are in
        key order. */
    lemma Homed()
      requires Valid()
      ensures forall i, x :: 0 <= i < |datas| && x in datas[i] ==> hash(x.key) % |datas| == i
      ensures forall i, a, b :: 0 <= i < |datas| && 0 <= a < b < |datas[i]| ==> datas[i][a].key < datas[i][b].key
    {
      Homes(hash, datas, ptrs);
    }

    method Rehash()
      requires Valid() && CanRehash(total, size)
      modifies this`datas, this`size
      ensures Valid()
      ensures size == if total > 16 * old(size) then Basket(ToInt32(total)) else old(size)
    {
      hide Represents, Laid, Alive, Basket;
      datas := Rehashed(hash, datas, total, ptrs);
      size := |datas|;
    }

    /** Writes the table size, all values behind each other, and the nodes with offsets for
        pointers. */
    method WriteTo() returns (image: Image<V>)
      requires Valid()
      ensures image.size == size && |image.nodes| == total
      ensures Tiled(image.nodes, |image.values|) && Carries(image.nodes, image.values, view)
      ensures forall i :: 0 <= i < |image.nodes| ==>
        image.nodes[i].val.off == if i == 0 then 0 else image.nodes[i - 1].val.off + image.nodes[i - 1].val.size
      ensures forall x :: x in image.nodes ==>
        && x.val.off + x.val.size <= |image.values| && x.key in view
        && view[x.key] == image.values[x.val.off..x.val.off + x.val.size]
      ensures |image.values| == if image.nodes == [] then 0 else var x := image.nodes[|image.nodes| - 1]; x.val.off + x.val.size
      ensures forall k :: k in view ==> exists i :: 0 <= i < |image.nodes| && image.nodes[i].key == k
      ensures forall a, b :: 0 <= a < b < |image.nodes| ==>
        var i, j := hash(image.nodes[a].key) % size, hash(image.nodes[b].key) % size;
        i < j || (i == j && image.nodes[a].key < image.nodes[b].key)
    {
      assert Represents(hash, datas, ptrs) && |datas| == size;
      hide *;
      ghost var all;
      image, all := WriteNodes();
      ImageParts(image.nodes, image.values, view);
      RepresentsSize(hash, datas, ptrs);
      FlatOrdered(hash, datas, ptrs);
      OrderCopied(hash, size, all, image.nodes);
      OrderParts(hash, size, image.nodes);
    }

    method WriteNodes() returns (image: Image<V>, ghost list: seq<Node<Ptr<V>>>)
      requires Valid()
      ensures image.size == size && |image.nodes| == total
      ensures Tiled(image.nodes, |image.values|) && Carries(image.nodes, image.values, view)
      ensures list == Flat(datas) && |image.nodes| == |list|
      ensures forall i :: 0 <= i < |list| ==> image.nodes[i].key == list[i].key
    {
      hide Represents, Laid, Alive, Spans, Tiled, Lists, Flat;
      var all := Collect(datas);
      FlatLists(hash, datas, ptrs);
      var vs: seq<V>, ns: seq<Node<Span>> := [], [];
      NoTiles();
      var i := 0;
      while i < |all|
        invariant i == |ns| <= |all| && Tiled(ns, |vs|)
        invariant forall j :: 0 <= j < i ==> ns[j].key == all[j].key && Spans(ns[j], vs, view)
      {
        Listed(all, ptrs, i);
        PlacedWell(ptrs, values, all[i].key);
        var ptr := all[i].val;
        var more := ptr.block[ptr.off..ptr.off + ptr.size];
        NextTile(ns, vs, all[i].key, more, view);
        ns := ns + [Node(all[i].key, Span(|vs|, ptr.size))];
        vs := vs + more;
        i := i + 1;
      }
      AllCarried(all, ptrs, ns, vs, view);
      return Image(size, vs, ns), all;
    }

    /** `freeDatas`: frees every node's own array. */
    method FreeAll()
      requires Valid()
      modifies this`freed
      ensures old(freed) <= freed <= old(freed) + Blocks(ptrs) && values !in freed
      ensures forall k :: k in ptrs && ptrs[k].block != values ==> ptrs[k].block in freed
    {
      hide Represents, Shows, Laid, Lists, Alive;
      var all := Collect(datas);
      FlatLists(hash, datas, ptrs);
      AliveListed(all, ptrs, freed);
      var i := 0;
      while i < |all|
        invariant i <= |all| && old(freed) <= freed <= old(freed) + Blocks(ptrs) && values !in freed
        invariant forall j :: 0 <= j < i && all[j].val.block != values ==> all[j].val.block in freed
        invariant forall j :: i <= j < |all| ==> all[j].val.block !in freed
      {
        Listed(all, ptrs, i);
        PlacedWell(ptrs, values, all[i].key);
        LaterBlocks(all, ptrs, values, i);
        Free(all[i].val);
        i := i + 1;
      }
      FreedListed(all, ptrs, values, freed);
    }

    /** Reads an image that a dictionary wrote, or fails on a stream that ends early: the values
        become the arena, offsets become pointers into it, and the nodes are spread over the
        buckets. */
    method ReadFrom(stream: Option<Image<V>>, ghost written: map<int, seq<V>>) returns (ok: bool)
      requires Valid()
      requires stream.Some? ==> stream.value.size >= 1 && |stream.value.nodes| <= 0xFFFF_FFFF_FFFF_FFFF
      requires stream.Some? ==>
        Tiled(stream.value.nodes, |stream.value.values|) && Carries(stream.value.nodes, stream.value.values, written)
      modifies this
      ensures ok == stream.Some?
      ensures ok ==> Valid() && view == written && size == stream.value.size && total == |stream.value.nodes|
      ensures ok ==> fresh(values) && Blocks(ptrs) <= {values}
      ensures forall k :: k in old(ptrs) && old(ptrs)[k].block != old(values) ==> old(ptrs)[k].block in freed
    {
      hide Represents, Laid, Alive, Shows, Tiled, Carries;
      FreeAll();
      if stream.None? {
        datas := [];
        return false;
      }
      Rebuild(stream.value, written);
      return true;
    }

    method Rebuild(image: Image<V>, ghost written: map<int, seq<V>>)
      requires image.size >= 1 && |image.nodes| <= 0xFFFF_FFFF_FFFF_FFFF
      requires Tiled(image.nodes, |image.values|) && Carries(image.nodes, image.values, written)
      modifies this`datas, this`size, this`total, this`values, this`ptrs, this`view
      ensures Valid() && view == written && size == image.size && total == |image.nodes|
      ensures fresh(values) && Blocks(ptrs) <= {values}
    {
      hide Represents, Laid, Tiled, Carries, Lists, Shows, Alive, FromImage;
      var arena := Loaded(image.values);
      var ns := PointAll(image.nodes, arena);
      PointedLists(image.nodes, ns, arena, image.values, written);
      ghost var w := Entries(ns);
      FreshAlive(w, freed, arena);
      OneBlock(w, arena);
      ListSize(ns, w);
      var table := Spread(hash, image.size, ns, w);
      size, values := image.size, arena;
      Install(table, |ns|, w, written);
    }
  }

  /** A node read from a stream: the offset becomes a pointer. */
  function Pointed<V>(x: Node<Span>, arena: array<V>): Node<Ptr<V>> {
    Node(x.key, Ptr(arena, x.val.off, x.val.size))
  }

  /** The arena filled from the stream. */
  method Loaded<V(0)>(values: seq<V>) returns (arena: array<V>)
    ensures fresh(arena) && arena[..] == values
  {
    arena := new V[|values|];
    forall i | 0 <= i < |values| {
      arena[i] := values[i];
    }
  }

  /** Turns every node's offset into a pointer. */
  method PointAll<V>(nodes: seq<Node<Span>>, arena: array<V>) returns (ns: seq<Node<Ptr<V>>>)
    ensures FromImage(nodes, ns, arena)
  {
    ns := [];
    var i := 0;
    while i < |nodes|
      invariant i == |ns| <= |nodes|
      invariant forall j :: 0 <= j < i ==> ns[j] == Pointed(nodes[j], arena)
    {
      ns := ns + [Pointed(nodes[i], arena)];
      i := i + 1;
    }
  }

  lemma OneBlock<V>(ptrs: map<int, Ptr<V>>, arena: array<V>)
    requires forall k :: k in ptrs ==> ptrs[k].block == arena
    ensures Blocks(ptrs) <= {arena}
  {
  }

  lemma FewerBlocks<V>(ptrs: map<int, Ptr<V>>, k: int)
    ensures Blocks(ptrs - {k}) <= Blocks(ptrs)
  {
  }

  lemma FreshAlive<V>(ptrs: map<int, Ptr<V>>, freed: set<array<V>>, arena: array<V>)
    requires arena !in freed && forall k :: k in ptrs ==> ptrs[k].block == arena
    ensures Alive(ptrs, freed)
  {
  }

  /** A list of nodes with different keys lists the map it builds. */
  lemma {:induction false} EntriesListed<P>(ns: seq<Node<P>>)
    requires Unique(ns)
    ensures Lists(ns, Entries(ns))
  {
    if ns != [] {
      var n := |ns| - 1;
      EntriesListed(ns[..n]);
      assert ns == ns[..n] + [ns[n]];
      forall x | x in ns[..n] ensures x.key != ns[n].key {
        var j :| 0 <= j < n && ns[..n][j] == x;
        assert ns[j] == x;
      }
    }
  }

  /** A list of nodes read from an image: each with the pointer of its span. */
  ghost predicate FromImage<V>(nodes: seq<Node<Span>>, ns: seq<Node<Ptr<V>>>, arena: array<V>) {
    |ns| == |nodes| && forall j :: 0 <= j < |ns| ==> ns[j] == Pointed(nodes[j], arena)
  }

  /** The span behind a key of the map the nodes build. */
  lemma SpanOf<V>(nodes: seq<Node<Span>>, ns: seq<Node<Ptr<V>>>, arena: array<V>, ptrs: map<int, Ptr<V>>, k: int)
    returns (i: nat)
    requires FromImage(nodes, ns, arena) && Lists(ns, ptrs) && k in ptrs
    ensures i < |nodes| && nodes[i].key == k && ptrs[k] == Ptr(arena, nodes[i].val.off, nodes[i].val.size)
  {
    assert Node(k, ptrs[k]) in ns;
    i :| 0 <= i < |ns| && ns[i] == Node(k, ptrs[k]);
  }

  lemma LaidFromImage<V>(nodes: seq<Node<Span>>, ns: seq<Node<Ptr<V>>>, arena: array<V>, vs: seq<V>,
                         view: map<int, seq<V>>, ptrs: map<int, Ptr<V>>)
    requires Tiled(nodes, |vs|) && Carries(nodes, vs, view) && arena.Length == |vs|
    requires FromImage(nodes, ns, arena) && Lists(ns, ptrs)
    ensures Laid(ptrs, arena)
  {
    hide Tiled, FromImage, Lists, Unique;
    forall k | k in ptrs ensures Placed(ptrs[k], arena) {
      var i := SpanOf(nodes, ns, arena, ptrs, k);
      assert Spans(nodes[i], vs, view);
    }
    forall j, k | j in ptrs && k in ptrs && j != k ensures Apart(ptrs[j], ptrs[k]) {
      var a := SpanOf(nodes, ns, arena, ptrs, j);
      var b := SpanOf(nodes, ns, arena, ptrs, k);
      if a < b { TilesApart(nodes, |vs|, a, b); } else { TilesApart(nodes, |vs|, b, a); }
    }
  }

  lemma ShowsFromImage<V>(nodes: seq<Node<Span>>, ns: seq<Node<Ptr<V>>>, arena: array<V>, vs: seq<V>,
                          view: map<int, seq<V>>, ptrs: map<int, Ptr<V>>)
    requires Carries(nodes, vs, view) && arena[..] == vs
    requires FromImage(nodes, ns, arena) && Lists(ns, ptrs)
    ensures Shows(ptrs, view)
  {
    hide FromImage, Lists, Unique;
    forall k | k in ptrs ensures k in view && Reads(ptrs[k], view[k]) {
      var i := SpanOf(nodes, ns, arena, ptrs, k);
      assert Spans(nodes[i], vs, view);
    }
    forall k | k in view ensures k in ptrs {
      var i :| 0 <= i < |nodes| && nodes[i].key == k;
      KeyListed(nodes, ns, arena, ptrs, i);
    }
  }

  lemma KeyListed<V>(nodes: seq<Node<Span>>, ns: seq<Node<Ptr<V>>>, arena: array<V>, ptrs: map<int, Ptr<V>>, i: nat)
    requires FromImage(nodes, ns, arena) && Lists(ns, ptrs) && i < |nodes|
    ensures nodes[i].key in ptrs
  {
    Listed(ns, ptrs, i);
  }

  lemma PointedUnique<V>(nodes: seq<Node<Span>>, ns: seq<Node<Ptr<V>>>, arena: array<V>)
    requires FromImage(nodes, ns, arena) && Unique(nodes)
    ensures Unique(ns)
  {
  }

  /** Pointers made from the spans of an image are well laid in the arena and read what was
      written. */
  lemma PointedLists<V>(nodes: seq<Node<Span>>, ns: seq<Node<Ptr<V>>>, arena: array<V>, vs: seq<V>, view: map<int, seq<V>>)
    requires Tiled(nodes, |vs|) && Carries(nodes, vs, view) && arena[..] == vs
    requires FromImage(nodes, ns, arena)
    ensures Lists(ns, Entries(ns)) && Laid(Entries(ns), arena) && Shows(Entries(ns), view)
    ensures forall k :: k in Entries(ns) ==> Entries(ns)[k].block == arena
  {
    hide Tiled, FromImage, Lists, Unique, Entries, Spans, Laid, Shows;
    var ptrs := Entries(ns);
    PointedUnique(nodes, ns, arena);
    EntriesListed(ns);
    LaidFromImage(nodes, ns, arena, vs, view, ptrs);
    ShowsFromImage(nodes, ns, arena, vs, view, ptrs);
    forall k | k in ptrs ensures ptrs[k].block == arena {
      var _ := SpanOf(nodes, ns, arena, ptrs, k);
    }
  }

  lemma Listed<V>(ns: seq<Node<Ptr<V>>>, ptrs: map<int, Ptr<V>>, i: nat)
    requires Lists(ns, ptrs) && i < |ns|
    ensures ns[i].key in ptrs && ptrs[ns[i].key] == ns[i].val
  {
    assert ns[i] in ns;
  }

  lemma AliveListed<V>(ns: seq<Node<Ptr<V>>>, ptrs: map<int, Ptr<V>>, freed: set<array<V>>)
    requires Lists(ns, ptrs) && Alive(ptrs, freed)
    ensures forall i :: 0 <= i < |ns| ==> ns[i].val.block !in freed
  {
    forall i | 0 <= i < |ns| ensures ns[i].val.block !in freed {
      Listed(ns, ptrs, i);
    }
  }

  lemma FreedListed<V>(ns: seq<Node<Ptr<V>>>, ptrs: map<int, Ptr<V>>, arena: array<V>, freed: set<array<V>>)
    requires Lists(ns, ptrs)
    requires forall i :: 0 <= i < |ns| && ns[i].val.block != arena ==> ns[i].val.block in freed
    ensures forall k :: k in ptrs && ptrs[k].block != arena ==> ptrs[k].block in freed
  {
    hide Unique;
    forall k | k in ptrs && ptrs[k].block != arena ensures ptrs[k].block in freed {
      ListedAt(ns, ptrs, k);
    }
  }

  lemma ListedAt<V>(ns: seq<Node<Ptr<V>>>, ptrs: map<int, Ptr<V>>, k: int)
    requires Lists(ns, ptrs) && k in ptrs
    ensures exists i :: 0 <= i < |ns| && ns[i].val == ptrs[k]
  {
    assert Node(k, ptrs[k]) in ns;
    var i :| 0 <= i < |ns| && ns[i] == Node(k, ptrs[k]);
    assert ns[i].val == ptrs[k];
  }

  lemma PairApart<V>(ptrs: map<int, Ptr<V>>, arena: array<V>, j: int, k: int)
    requires Laid(ptrs, arena) && j in ptrs && k in ptrs && j != k
    ensures Apart(ptrs[j], ptrs[k])
  {
  }

  lemma PlacedWell<V>(ptrs: map<int, Ptr<V>>, arena: array<V>, k: int)
    requires Laid(ptrs, arena) && k in ptrs
    ensures Placed(ptrs[k], arena)
  {
  }

  lemma LaterBlocks<V>(ns: seq<Node<Ptr<V>>>, ptrs: map<int, Ptr<V>>, arena: array<V>, i: nat)
    requires Lists(ns, ptrs) && Laid(ptrs, arena) && i < |ns|
    ensures forall j :: i < j < |ns| && ns[i].val.block != arena ==> ns[j].val.block != ns[i].val.block
  {
    forall j | i < j < |ns| && ns[i].val.block != arena ensures ns[j].val.block != ns[i].val.block {
      Listed(ns, ptrs, i);
      Listed(ns, ptrs, j);
      OwnBlock(ptrs, arena, ns[j].key, ns[i].key);
    }
  }

  lemma AllCarried<V>(all: seq<Node<Ptr<V>>>, ptrs: map<int, Ptr<V>>, ns: seq<Node<Span>>, vs: seq<V>, view: map<int, seq<V>>)
    requires Lists(all, ptrs) && |ns| == |all| && forall k :: k in view <==> k in ptrs
    requires forall j :: 0 <= j < |ns| ==> ns[j].key == all[j].key && Spans(ns[j], vs, view)
    ensures Carries(ns, vs, view)
  {
    hide Spans;
    forall k | k in view ensures exists i :: 0 <= i < |ns| && ns[i].key == k {
      assert Node(k, ptrs[k]) in all;
      var i :| 0 <= i < |all| && all[i] == Node(k, ptrs[k]);
      assert ns[i].key == k;
    }
  }

  /** Letting go of a key's pointer: its block is freed if it is not the arena, and was not before. */
  lemma LetGo<V>(ptrs: map<int, Ptr<V>>, arena: array<V>, k: int, freed: set<array<V>>)
    requires Laid(ptrs, arena) && Alive(ptrs, freed) && k in ptrs
    ensures ptrs[k].block !in freed && Placed(ptrs[k], arena)
    ensures forall j :: j in ptrs && j != k ==>
      ptrs[j].block !in freed && (ptrs[k].block != arena ==> ptrs[j].block != ptrs[k].block)
  {
    forall j | j in ptrs && j != k && ptrs[k].block != arena ensures ptrs[j].block != ptrs[k].block {
      OwnBlock(ptrs, arena, j, k);
    }
  }

  lemma More<V>(ptrs: map<int, Ptr<V>>, view: map<int, seq<V>>, freed: set<array<V>>, k: int, p: Ptr<V>, v: seq<V>)
    requires Shows(ptrs, view) && Alive(ptrs, freed) && Reads(p, v) && p.block !in freed
    ensures Shows(ptrs[k := p], view[k := v]) && Alive(ptrs[k := p], freed)
  {
  }

  lemma Keys<V>(ptrs: map<int, Ptr<V>>, view: map<int, seq<V>>, k: int)
    requires Shows(ptrs, view)
    ensures (k in ptrs <==> k in view) && (k !in view ==> view - {k} == view)
  {
  }

  /** The state without a key, whose own block may have been freed. */
  lemma Less<V>(ptrs: map<int, Ptr<V>>, arena: array<V>, view: map<int, seq<V>>,
                before: set<array<V>>, freed: set<array<V>>, k: int)
    requires Laid(ptrs, arena) && Shows(ptrs, view) && Alive(ptrs, before) && k in ptrs
    requires freed == before || (ptrs[k].block != arena && freed == before + {ptrs[k].block})
    ensures Laid(ptrs - {k}, arena) && Shows(ptrs - {k}, view - {k}) && Alive(ptrs - {k}, freed) && k in view
  {
    hide Placed, Apart, Reads;
    LetGo(ptrs, arena, k, before);
  }

  /** Writing one dictionary and reading it into another, or into itself: the same array for every
      key, the same number of keys, the same table size. */
  method RoundTrip<V(0)>(d: Dict<V>, e: Dict<V>)
    requires d.Valid() && e.Valid()
    modifies e
    ensures e.Valid() && e.view == old(d.view) && e.total == old(d.total) && e.size == old(d.size)
    ensures fresh(e.values) && Blocks(e.ptrs) <= {e.values}
  {
    hide Represents, Laid, Alive, Tiled, Carries;
    RepresentsSize(d.hash, d.datas, d.ptrs);
    var image := d.WriteTo();
    var _ := e.ReadFrom(Some(image), d.view);
  }

  /** An array stored after reading changes its own key alone, although the arrays of all keys lie
      in one arena; one of the same size is written into the arena. */
  method RestoreAndInsert<V(0)>(d: Dict<V>, e: Dict<V>, k: int, v: seq<V>)
    requires d.Valid() && e.Valid() && CanRehash(d.total, d.size) && d.total < 0xFFFF_FFFF_FFFF_FFFF && v != []
    modifies e
    ensures e.Valid() && e.view == old(d.view)[k := v] && fresh(Blocks(e.ptrs))
    ensures k in old(d.view) && |old(d.view)[k]| == |v| ==> Blocks(e.ptrs) <= {e.values}
  {
    hide Represents, Laid, Alive, Shows;
    RoundTrip(d, e);
    if k in e.view { SizesShown(e.ptrs, e.view, k); }
    e.Insert(k, v);
  }

  lemma SizesShown<V>(ptrs: map<int, Ptr<V>>, view: map<int, seq<V>>, k: int)
    requires Shows(ptrs, view) && k in view
    ensures k in ptrs && ptrs[k].size == |view[k]|
  {
  }
}
