/** The hash map: buckets of nodes, changed in place, refining a finite map. */
module HashMaps {
  import opened Memory
  import opened DsUtil
  import opened HashBuckets

  /** What `writeTo` puts on the stream: the table size and the nodes in bucket order. */
  datatype Image<V> = Image(size: nat, nodes: seq<Node<V>>)

  class HashMap<V> {
    const hash: Hash
    var size: nat
    var total: U64
    var datas: Table<V>
    ghost var view: map<int, V>

    ghost predicate Valid()
      reads this
    {
      |datas| == size && TableSize(size) && Represents(hash, datas, view) && total == |view|
    }

    constructor (hash: Hash, n: U32)
      requires HasBasket(ToInt32(n))
      ensures Valid() && view == map[] && this.hash == hash
      ensures size == Basket(ToInt32(n)) && Balanced(total, size)
    {
      this.hash := hash;
      this.size := Basket(ToInt32(n));
      BasketIsSize(ToInt32(n));
      total, datas, view := 0, seq(Basket(ToInt32(n)), i => []), map[];
    }

    method Get(k: int) returns (r: Option<V>)
      requires Valid()
      ensures r == if k in view then Some(view[k]) else None
    {
      Found(hash, datas, view, k);
      return Lookup(hash, datas, k);
    }

    method Exists(k: int) returns (r: bool)
      requires Valid()
      ensures r == (k in view)
    {
      Find(hash, datas, view, k);
      var b := datas[Pos(hash, size, k)];
      r := BinarySearch(b, k) != |b|;
    }

    /** Sets a value, after a rehash if one is due; returns whether the key is new. */
    method Set(k: int, v: V) returns (isNew: bool)
      requires Valid() && CanRehash(total, size) && total < 0xFFFF_FFFF_FFFF_FFFF
      modifies this
      ensures Valid() && view == old(view)[k := v] && isNew == (k !in old(view))
      ensures old(total) <= 16 * old(size) ==> size == old(size)
      ensures 16 * old(size) < old(total) ==> size == Basket(ToInt32(old(total)))
      ensures 16 * old(size) < old(total) < 0x4000_0000 ==> old(total) < size <= 2 * old(total)
      ensures old(total <= 16 * size + 1) ==>
        (total <= 16 * size + 1 <==> old(size) < 0x1000_0000 || old(total) <= 16 * old(size))
    {
      hide Represents, Basket, TableSize, ToInt32;
      TableNonEmpty(size);
      if Crowded(total, size) {
        Rehash();
      }
      SizeGrows(view, k, v);
      Find(hash, datas, view, k);
      var pos := Pos(hash, size, k);
      var p := BinarySearch(datas[pos], k);
      if p == |datas[pos]| {
        datas := PutIn(hash, datas, view, Node(k, v));
        total := total + 1;
        isNew := true;
      } else {
        Overwritten(hash, datas, view, k, v);
        datas := datas[pos := datas[pos][p := Node(datas[pos][p].key, v)]];
        isNew := false;
      }
      view := view[k := v];
      Regrown(old(total), old(size), total, size);
    }

    method Del(k: int) returns (found: bool)
      requires Valid()
      modifies this
      ensures Valid() && view == old(view) - {k} && found == (k in old(view))
      ensures size == old(size) && total == old(total) - if found then 1 else 0
    {
      hide Represents;
      Find(hash, datas, view, k);
      var b := datas[Pos(hash, size, k)];
      if BinarySearch(b, k) == |b| {
        assert view - {k} == view;
        return false;
      }
      datas := CutOut(hash, datas, view, k);
      total := total - 1;
      view := view - {k};
      return true;
    }

    /** Every node lies in the bucket of its hash modulo the number of buckets, and buckets are in
        key order. */
    lemma Homed()
      requires Valid()
      ensures forall i, x :: 0 <= i < |datas| && x in datas[i] ==> hash(x.key) % |datas| == i
      ensures forall i, a, b :: 0 <= i < |datas| && 0 <= a < b < |datas[i]| ==> datas[i][a].key < datas[i][b].key
    {
      Homes(hash, datas, view);
    }

    /** Spreads the nodes over a table of the size `basket` names, if the load test still holds. */
    method Rehash()
      requires Valid() && CanRehash(total, size)
      modifies this`datas, this`size
      ensures Valid()
      ensures size == if total > 16 * old(size) then Basket(ToInt32(total)) else old(size)
      ensures total < 0x8000_0000 ==> total <= 16 * size
      ensures 16 * old(size) < total < 0x4000_0000 ==> total < size <= 2 * total
      ensures total == 16 * old(size) + 1 ==>
        if old(size) < 0x1000_0000 then total <= 16 * size else size == 2
    {
      hide Represents, Basket, TableSize, ToInt32;
      if Crowded(total, size) {
        RepresentsSize(hash, datas, view);
        BasketIsSize(ToInt32(total));
        if total < 0x8000_0000 { ReliefBelow(total); }
        if total < 0x4000_0000 { Regrown(total, size, total, Basket(ToInt32(total))); }
        if Balanced(total, size) { ReliefIff(total, size); }
      }
      datas := Rehashed(hash, datas, total, view);
      size := |datas|;
    }

    /** Sets every entry of another map, gathered first. */
    method Merge(oth: HashMap<V>)
      requires Valid() && oth.Valid()
      requires |view| + |oth.view| < 0x8000_0000 || (total <= 16 * size + 1 && |view| + |oth.view| <= 0x1_0000_0001)
      modifies this
      ensures Valid() && view == old(view) + old(oth.view)
      ensures old(total <= 16 * size + 1) && |old(view)| + |old(oth.view)| <= 0x1_0000_0001 ==> total <= 16 * size + 1
    {
      hide Represents, Lists, Entries;
      var tmp := Collect(oth.datas);
      FlatLists(oth.hash, oth.datas, oth.view);
      EntriesOf(tmp, oth.view);
      SetAll(tmp);
    }

    /** With n more keys every rehash on the way has a defined table size: few enough keys, or a
        table that keeps its load bound and stays below 2^28 buckets. */
    ghost predicate Mergeable(n: nat)
      reads this
    {
      Roomy(|view|, total, size, n)
    }

    /** The load bound holds, and with n more keys no rehash will break it. */
    ghost predicate Bounded(n: nat)
      reads this
    {
      Balanced(total, size) && |view| + n <= 0x1_0000_0001
    }

    /** One of n entries to come. */
    method SetNext(x: Node<V>, ghost n: nat)
      requires Valid() && n > 0 && Mergeable(n)
      modifies this
      ensures Valid() && view == old(view)[x.key := x.val] && Mergeable(n - 1)
      ensures old(Bounded(n)) ==> Bounded(n - 1)
    {
      hide Represents, TableSize, CanRehash, Roomy;
      ghost var t, s := total, size;
      SizeGrows(view, x.key, x.val);
      RoomToSet(t, s, n);
      var _ := Set(x.key, x.val);
      RoomAfter(t, s, n, total, size);
    }

    method SetAll(ns: seq<Node<V>>)
      requires Valid() && Mergeable(|ns|)
      modifies this
      ensures Valid() && Overlaid(view, old(view), Entries(ns))
      ensures old(Bounded(|ns|)) ==> Bounded(0)
    {
      hide *;
      ghost var from := view;
      ghost var bounded := Bounded(|ns|);
      OverlaidNone(from, ns);
      for i := 0 to |ns|
        invariant Valid() && Mergeable(|ns| - i) && (bounded ==> Bounded(|ns| - i))
        invariant Overlaid(view, from, Entries(ns[..i]))
      {
        ghost var before := view;
        SetNext(ns[i], |ns| - i);
        OverlaidNext(before, view, from, ns, i);
      }
      OverlaidAll(view, from, ns);
    }

    method WriteTo() returns (image: Image<V>)
      requires Valid()
      ensures image.size == size && Lists(image.nodes, view) && image.nodes == Flat(datas)
      ensures |image.nodes| == |view|
      ensures forall x :: x in image.nodes ==> x.key in view && view[x.key] == x.val
      ensures forall a, b :: 0 <= a < b < |image.nodes| ==>
        var i, j := hash(image.nodes[a].key) % size, hash(image.nodes[b].key) % size;
        i < j || (i == j && image.nodes[a].key < image.nodes[b].key)
    {
      hide Represents, Lists, Flat;
      var ns := Collect(datas);
      FlatLists(hash, datas, view);
      FlatOrdered(hash, datas, view);
      ListsParts(ns, view);
      return Image(size, ns);
    }

    /** Reads an image that a map wrote, or fails on a stream that ends early. */
    method ReadFrom(stream: Option<Image<V>>, ghost written: map<int, V>) returns (ok: bool)
      requires stream.Some? ==> TableSize(stream.value.size) && Lists(stream.value.nodes, written)
      requires |written| <= 0xFFFF_FFFF_FFFF_FFFF
      modifies this
      ensures ok == stream.Some?
      ensures ok ==> Valid() && view == written && size == stream.value.size && total == |stream.value.nodes|
    {
      hide Represents, Lists;
      TableNonEmpty(if stream.Some? then stream.value.size else 2);
      datas := [];
      if stream.None? {
        return false;
      }
      size := stream.value.size;
      ListSize(stream.value.nodes, written);
      total := |stream.value.nodes|;
      datas := Spread(hash, size, stream.value.nodes, written);
      view := written;
      return true;
    }
  }

  /** Writing one map and reading it into another, or into itself: the same entries, number and
      table size, and with the same hash the same buckets. */
  method RoundTrip<V>(d: HashMap<V>, e: HashMap<V>)
    requires d.Valid()
    modifies e
    ensures e.Valid() && e.view == old(d.view) && e.total == old(d.total) && e.size == old(d.size)
    ensures e.hash == d.hash ==> e.datas == old(d.datas)
  {
    hide Represents, Lists;
    RepresentsSize(d.hash, d.datas, d.view);
    ghost var before, view := d.datas, d.view;
    var image := d.WriteTo();
    ListSize(image.nodes, view);
    var _ := e.ReadFrom(Some(image), view);
    if e.hash == d.hash { TableUnique(d.hash, before, e.datas, view); }
  }

  /** v is m with the entries of e set. */
  ghost predicate Overlaid<V>(v: map<int, V>, m: map<int, V>, e: map<int, V>) {
    v == m + e
  }

  lemma OverlaidNone<V>(m: map<int, V>, ns: seq<Node<V>>)
    ensures Overlaid(m, m, Entries(ns[..0]))
  {
  }

  lemma OverlaidNext<V>(v: map<int, V>, w: map<int, V>, m: map<int, V>, ns: seq<Node<V>>, i: nat)
    requires i < |ns| && Overlaid(v, m, Entries(ns[..i])) && w == v[ns[i].key := ns[i].val]
    ensures Overlaid(w, m, Entries(ns[..i + 1]))
  {
    hide Entries;
    EntriesNext(ns, i);
  }

  lemma OverlaidAll<V>(v: map<int, V>, m: map<int, V>, ns: seq<Node<V>>)
    requires Overlaid(v, m, Entries(ns[..|ns|]))
    ensures Overlaid(v, m, Entries(ns))
  {
    EntriesAll(ns);
  }

  ghost predicate Roomy(count: nat, total: U64, size: nat, n: nat) {
    count + n < 0x8000_0000 || (Balanced(total, size) && count + n <= 0x1_0000_0001)
  }

  lemma RoomToSet(total: U64, size: nat, n: nat)
    requires TableSize(size) && n > 0 && Roomy(total, total, size, n)
    ensures CanRehash(total, size) && total < 0xFFFF_FFFF_FFFF_FFFF
    ensures Balanced(total, size) && Crowded(total, size) && total <= 0x1_0000_0000 ==> size < 0x1000_0000
  {
    hide TableSize, HasBasket, ToInt32, Basket;
    if Crowded(total, size) && Balanced(total, size) { ReliefIff(total, size); }
    if Crowded(total, size) && total < 0x8000_0000 { ReliefBelow(total); }
  }

  /** After one entry is set there is room for the rest, and the load bound is kept. */
  lemma RoomAfter(total: U64, size: nat, n: nat, total': U64, size': nat)
    requires TableSize(size) && n > 0 && Roomy(total, total, size, n) && total' <= total + 1
    requires Balanced(total, size) ==> (Balanced(total', size') <==> size < 0x1000_0000 || !Crowded(total, size))
    ensures Roomy(total', total', size', n - 1)
    ensures Balanced(total, size) && total + n <= 0x1_0000_0001 ==> Balanced(total', size')
  {
    hide TableSize;
    RoomToSet(total, size, n);
  }

  lemma TableNonEmpty(size: nat)
    ensures TableSize(size) ==> size >= 1
  {
  }
}
