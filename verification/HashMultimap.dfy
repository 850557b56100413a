/** The hash multimap: under each key a sorted array of values, with counters for keys and values. */
module HashMultimaps {
  import opened Memory
  import opened DsUtil
  import opened HashBuckets
  import opened Arenas

  /** Values are ordered as keys are, and carry nothing else. */
  type Value = Node<()>

  type Values = seq<Value>

  // ---- counting values --------------------------------------------------------------------------

  /** The number of values in all arrays. */
  ghost function SizeSum<K>(m: map<K, Values>): nat
    decreases |m|
  {
    if m == map[] then 0 else
    HasKey(m);
    var k :| k in m.Keys;
    SizeShrinks(m, k);
    |m[k]| + SizeSum(m - {k})
  }

  lemma HasElement<T>(s: set<T>)
    requires |s| > 0
    ensures exists x :: x in s
  {
    var x :| x in s;
  }

  lemma HasKey<K>(m: map<K, Values>)
    requires m != map[]
    ensures exists k :: k in m.Keys
  {
    assert |m| > 0 && |m.Keys| == |m|;
    HasElement(m.Keys);
  }

  /** The sum does not depend on the order in which keys are taken. */
  lemma {:induction false} SumAny<K>(m: map<K, Values>, k: K)
    requires k in m
    ensures SizeSum(m) == |m[k]| + SizeSum(m - {k})
    decreases |m|
  {
    var j :| j in m.Keys && SizeSum(m) == |m[j]| + SizeSum(m - {j});
    if j != k {
      SizeShrinks(m, j);
      SizeShrinks(m, k);
      SumAny(m - {j}, k);
      SumAny(m - {k}, j);
      assert m - {j} - {k} == m - {k} - {j};
    }
  }

  /** Setting one array changes the sum by its size. */
  lemma SumSet<K>(m: map<K, Values>, k: K, v: Values)
    ensures SizeSum(m[k := v]) == SizeSum(m - {k}) + |v|
    ensures SizeSum(m) == SizeSum(m - {k}) + if k in m then |m[k]| else 0
  {
    SumAny(m[k := v], k);
    assert m[k := v] - {k} == m - {k};
    if k in m { SumAny(m, k); } else { assert m - {k} == m; }
  }

  ghost function NonEmpty<K>(m: map<K, Values>): map<K, Values> {
    map k | k in m && m[k] != [] :: m[k]
  }

  lemma {:induction false} SumNonEmpty<K>(m: map<K, Values>)
    ensures SizeSum(NonEmpty(m)) == SizeSum(m)
    decreases |m|
  {
    if m == map[] {
      assert NonEmpty(m) == m;
    } else {
      HasKey(m);
      var k :| k in m.Keys;
      SizeShrinks(m, k);
      SumNonEmpty(m - {k});
      SumAny(m, k);
      if m[k] != [] {
        SumAny(NonEmpty(m), k);
        assert NonEmpty(m) - {k} == NonEmpty(m - {k});
      } else {
        assert NonEmpty(m) == NonEmpty(m - {k});
      }
    }
  }

  ghost function ListSum(ns: seq<Node<Values>>): nat {
    if ns == [] then 0 else ListSum(ns[..|ns| - 1]) + |ns[|ns| - 1].val|
  }

  lemma {:induction false} ListSumIs(ns: seq<Node<Values>>, m: map<int, Values>)
    requires Lists(ns, m)
    ensures ListSum(ns) == SizeSum(m)
  {
    if ns == [] {
      ListSize(ns, m);
    } else {
      var n := |ns| - 1;
      DropsLast(ns, m);
      ListSumIs(ns[..n], m - {ns[n].key});
      assert ns[n] in ns;
      SumAny(m, ns[n].key);
    }
  }

  // ---- one array ------------------------------------------------------------------------------------

  /** The values of vs that are not in `have`, each once. */
  ghost function News(have: Values, vs: Values): multiset<Value> {
    multiset(set v | v in vs && v !in have)
  }

  /** The values not yet in the array, each once, in order: what the set of new values holds. */
  method Gather(have: Values, vs: Values) returns (news: Values)
    requires Sorted(have)
    ensures multiset(news) == News(have, vs) && Sorted(news)
  {
    hide Sorted;
    news := [];
    var i := 0;
    NewsNone(have, vs);
    NothingSorted();
    while i < |vs|
      invariant i <= |vs| && multiset(news) == News(have, vs[..i]) && Sorted(news)
    {
      NewsNext(have, vs, i, news);
      if BinarySearch(have, vs[i].key) == |have| {
        if vs[i] !in news {
          news := Sort(news + [vs[i]]);
        }
      }
      i := i + 1;
    }
    assert vs[..i] == vs;
  }

  lemma NewsNone(a: Values, vs: Values)
    ensures multiset([]) == News(a, vs[..0])
  {
    assert (set v | v in vs[..0] && v !in a) == {};
  }

  lemma NewsNext(a: Values, vs: Values, i: nat, news: Values)
    requires Sorted(a) && i < |vs| && multiset(news) == News(a, vs[..i])
    ensures var found := BinarySearch(a, vs[i].key) < |a|;
      && (found <==> vs[i] in a)
      && News(a, vs[..i + 1]) == if found || vs[i] in news then multiset(news) else multiset(news + [vs[i]])
  {
    var v := vs[i];
    ValueFound(a, v);
    var s, t := set x | x in vs[..i] && x !in a, set x | x in vs[..i + 1] && x !in a;
    assert vs[..i + 1] == vs[..i] + [v];
    assert v in news <==> v in multiset(news);
    if v in a || v in s {
      assert t == s;
    } else {
      assert t == s + {v};
      assert multiset(t) == multiset(s) + multiset{v};
    }
  }

  /** In a sorted array the search decides membership. */
  lemma ValueFound(a: Values, v: Value)
    requires Sorted(a)
    ensures BinarySearch(a, v.key) < |a| <==> v in a
  {
    var p := BinarySearch(a, v.key);
    if p < |a| {
      assert a[p].val == () == v.val;
    }
    if v in a {
      var i :| 0 <= i < |a| && a[i] == v;
      SearchFinds(a, i);
    }
  }

  // ---- the multimap -------------------------------------------------------------------------------

  ghost predicate AllSorted(m: map<int, Values>) {
    forall k :: k in m ==> Sorted(m[k])
  }

  class HashMultimap {
    const hash: Hash
    var size: nat
    var total: U64
    var elements: U64
    var datas: Table<Values>
    ghost var view: map<int, Values>

    ghost predicate Valid()
      reads this
    {
      && |datas| == size && Represents(hash, datas, view) && total == |view|
      && elements == SizeSum(view) && AllSorted(view)
    }

    constructor (hash: Hash, n: U32)
      requires HasBasket(ToInt32(n))
      ensures Valid() && view == map[] && this.hash == hash && size == Basket(ToInt32(n))
      ensures total == elements == 0
    {
      this.hash := hash;
      this.size := Basket(ToInt32(n));
      total, elements, datas, view := 0, 0, seq(Basket(ToInt32(n)), i => []), map[];
    }

    /** A copy of the array under a key, empty for an absent key. */
    method Get(k: int) returns (r: Values)
      requires Valid()
      ensures r == if k in view then view[k] else []
    {
      Found(hash, datas, view, k);
      match Lookup(hash, datas, k)
      case None =>
        return [];
      case Some(vals) =>
        return vals;
    }

    method Exists(k: int, v: Value) returns (r: bool)
      requires Valid()
      ensures r == (k in view && v in view[k])
    {
      Find(hash, datas, view, k);
      var b := datas[Pos(hash, size, k)];
      var p := BinarySearch(b, k);
      if p == |b| {
        return false;
      }
      ValueFound(view[k], v);
      r := BinarySearch(b[p].val, v.key) != |b[p].val|;
    }

    /** Adds one value; a value that is there already is not added again. */
    method Insert(k: int, v: Value)
      requires Valid() && CanRehash(total, size) && total < 0xFFFF_FFFF_FFFF_FFFF && elements < 0xFFFF_FFFF_FFFF_FFFF
      modifies this
      ensures Valid() && k in view && view - {k} == old(view) - {k}
      ensures var s := if k in old(view) then old(view)[k] else [];
        && multiset(view[k]) == multiset(s) + (if v in s then multiset{} else multiset{v})
        && elements == old(elements) + (if v in s then 0 else 1)
      ensures forall i, j :: 0 <= i < j < |view[k]| ==> view[k][i].key <= view[k][j].key
      ensures total == old(total) + if k in old(view) then 0 else 1
      ensures old(total) <= 16 * old(size) ==> size == old(size)
      ensures 16 * old(size) < old(total) ==> size == Basket(ToInt32(old(total)))
      ensures 16 * old(size) < old(total) < 0x4000_0000 ==> old(total) < size <= 2 * old(total)
      ensures old(TableSize(size)) ==> TableSize(size)
      ensures old(TableSize(size) && total <= 16 * size + 1) ==>
        (total <= 16 * size + 1 <==> old(size) < 0x1000_0000 || old(total) <= 16 * old(size))
    {
      hide Represents, Basket, Sorted, TableSize, AllSorted;
      RepresentsSize(hash, datas, view);
      if Crowded(total, size) {
        Rehash();
      }
      Put(k, v);
      Regrown(old(total), old(size), total, size);
    }

    method Put(k: int, v: Value)
      requires Valid() && total < 0xFFFF_FFFF_FFFF_FFFF && elements < 0xFFFF_FFFF_FFFF_FFFF
      modifies this`datas, this`total, this`elements, this`view
      ensures Valid() && k in view && view - {k} == old(view) - {k}
      ensures var s := if k in old(view) then old(view)[k] else [];
        && multiset(view[k]) == multiset(s) + (if v in s then multiset{} else multiset{v})
        && elements == old(elements) + (if v in s then 0 else 1)
      ensures forall i, j :: 0 <= i < j < |view[k]| ==> view[k][i].key <= view[k][j].key
      ensures total == old(total) + if k in old(view) then 0 else 1
    {
      hide Represents, Sorted, AllSorted;
      Find(hash, datas, view, k);
      var b := datas[Pos(hash, size, k)];
      var p := BinarySearch(b, k);
      if p == |b| {
        SingleSorted(v);
        assert multiset([v]) == multiset{v};
        AddKey(k, [v]);
      } else {
        ArraySorted(view, k);
        var vals := b[p].val;
        ValueFound(vals, v);
        if BinarySearch(vals, v.key) == |vals| {
          assert (vals + [v])[..|vals|] == vals;
          var more := SortLast(vals + [v]);
          Replace(k, more);
        }
      }
      ArraySorted(view, k);
      SortedParts(view[k]);
    }

    /** Adds many values: under a new key all of them, repetitions included; under an old key those
        not there yet, each once. */
    method InsertAll(k: int, vs: Values)
      requires Valid() && CanRehash(total, size) && total < 0xFFFF_FFFF_FFFF_FFFF
      requires elements + |vs| <= 0xFFFF_FFFF_FFFF_FFFF
      modifies this
      ensures Valid() && k in view && view - {k} == old(view) - {k}
      ensures k !in old(view) ==> multiset(view[k]) == multiset(vs)
      ensures k in old(view) ==>
        var s := old(view)[k];
        forall x :: multiset(view[k])[x] == multiset(s)[x] + if x in vs && x !in s then 1 else 0
      ensures forall i, j :: 0 <= i < j < |view[k]| ==> view[k][i].key <= view[k][j].key
      ensures total == old(total) + if k in old(view) then 0 else 1
      ensures elements == old(elements) + |view[k]| - if k in old(view) then |old(view)[k]| else 0
      ensures old(total) <= 16 * old(size) ==> size == old(size)
      ensures 16 * old(size) < old(total) ==> size == Basket(ToInt32(old(total)))
      ensures 16 * old(size) < old(total) < 0x4000_0000 ==> old(total) < size <= 2 * old(total)
      ensures old(TableSize(size)) ==> TableSize(size)
      ensures old(TableSize(size) && total <= 16 * size + 1) ==>
        (total <= 16 * size + 1 <==> old(size) < 0x1000_0000 || old(total) <= 16 * old(size))
    {
      hide Represents, Basket, Sorted, TableSize, AllSorted;
      RepresentsSize(hash, datas, view);
      if Crowded(total, size) {
        Rehash();
      }
      PutAll(k, vs);
      Regrown(old(total), old(size), total, size);
    }

    method PutAll(k: int, vs: Values)
      requires Valid() && total < 0xFFFF_FFFF_FFFF_FFFF && elements + |vs| <= 0xFFFF_FFFF_FFFF_FFFF
      modifies this`datas, this`total, this`elements, this`view
      ensures Valid() && k in view && view - {k} == old(view) - {k}
      ensures k !in old(view) ==> multiset(view[k]) == multiset(vs)
      ensures k in old(view) ==>
        var s := old(view)[k];
        forall x :: multiset(view[k])[x] == multiset(s)[x] + if x in vs && x !in s then 1 else 0
      ensures forall i, j :: 0 <= i < j < |view[k]| ==> view[k][i].key <= view[k][j].key
      ensures total == old(total) + if k in old(view) then 0 else 1
      ensures elements == old(elements) + |view[k]| - if k in old(view) then |old(view)[k]| else 0
    {
      hide Represents, Sorted, AllSorted, News;
      Find(hash, datas, view, k);
      var b := datas[Pos(hash, size, k)];
      var p := BinarySearch(b, k);
      if p == |b| {
        var vals := Sort(vs);
        AddKey(k, vals);
      } else {
        ArraySorted(view, k);
        var vals := b[p].val;
        var news := Gather(vals, vs);
        FewNews(vals, vs, news);
        var more := Sort(vals + news);
        NewsAt(vals, vs, news);
        Replace(k, more);
      }
      ArraySorted(view, k);
      SortedParts(view[k]);
    }

    /** A node for a new key. */
    method AddKey(k: int, vals: Values)
      requires Valid() && k !in view && Sorted(vals)
      requires total < 0xFFFF_FFFF_FFFF_FFFF && elements + |vals| <= 0xFFFF_FFFF_FFFF_FFFF
      modifies this`datas, this`total, this`elements, this`view
      ensures Valid() && view == old(view)[k := vals] && view - {k} == old(view) - {k}
      ensures total == old(total) + 1 && elements == old(elements) + |vals|
    {
      hide Represents, Sorted, AllSorted;
      var table := PutIn(hash, datas, view, Node(k, vals));
      ArraySet(view, k, vals);
      SumSet(view, k, vals);
      datas, view := table, view[k := vals];
      total, elements := total + 1, elements + |vals|;
    }

    /** Another array for an old key. */
    method Replace(k: int, vals: Values)
      requires Valid() && k in view && Sorted(vals) && |vals| >= |view[k]|
      requires elements + |vals| - |view[k]| <= 0xFFFF_FFFF_FFFF_FFFF
      modifies this`datas, this`elements, this`view
      ensures Valid() && view == old(view)[k := vals] && view - {k} == old(view) - {k}
      ensures elements == old(elements) + |vals| - |old(view)[k]|
    {
      hide Represents, Sorted, AllSorted;
      Find(hash, datas, view, k);
      ArraySet(view, k, vals);
      Overwritten(hash, datas, view, k, vals);
      SizeGrows(view, k, vals);
      SumSet(view, k, vals);
      var pos := Pos(hash, size, k);
      var p := BinarySearch(datas[pos], k);
      elements := elements + (|vals| - |datas[pos][p].val|);
      datas, view := datas[pos := datas[pos][p := Node(datas[pos][p].key, vals)]], view[k := vals];
    }

    method Del(k: int) returns (found: bool)
      requires Valid()
      modifies this`datas, this`total, this`elements, this`view
      ensures Valid() && view == old(view) - {k} && found == (k in old(view))
      ensures total == old(total) - if found then 1 else 0
      ensures elements == old(elements) - if found then |old(view)[k]| else 0
    {
      hide Represents, AllSorted;
      Find(hash, datas, view, k);
      SizeShrinks(view, k);
      var b := datas[Pos(hash, size, k)];
      found := BinarySearch(b, k) != |b|;
      Absent(view, k);
      if found {
        Remove(k);
      }
    }

    method Remove(k: int)
      requires Valid() && k in view
      modifies this`datas, this`total, this`elements, this`view
      ensures Valid() && view == old(view) - {k}
      ensures total == old(total) - 1 && elements == old(elements) - |old(view)[k]|
    {
      hide Represents, Sorted, AllSorted;
      Find(hash, datas, view, k);
      var table := CutOut(hash, datas, view, k);
      WithoutKey(view, k);
      elements := elements - |datas[Pos(hash, size, k)][BinarySearch(datas[Pos(hash, size, k)], k)].val|;
      datas, total, view := table, total - 1, view - {k};
    }

    /** Every node lies in the bucket of its hash modulo the number of buckets, and buckets are in
        key order. */
    lemma Homed()
      requires Valid()
      ensures forall i, x :: 0 <= i < |datas| && x in datas[i] ==> hash(x.key) % |datas| == i
      ensures forall i, a, b :: 0 <= i < |datas| && 0 <= a < b < |datas[i]| ==> datas[i][a].key < datas[i][b].key
    {
      Homes(hash, datas, view);
    }

    method Rehash()
      requires Valid() && CanRehash(total, size)
      modifies this`datas, this`size
      ensures Valid()
      ensures size == if total > 16 * old(size) then Basket(ToInt32(total)) else old(size)
    {
      hide Represents, Basket;
      datas := Rehashed(hash, datas, total, view);
      size := |datas|;
    }

    /** Writes the image; a key with an empty array is left out. */
    method WriteTo() returns (image: Image<Value>)
      requires Valid()
      ensures image.size == size && Tiled(image.nodes, |image.values|)
      ensures Carries(image.nodes, image.values, NonEmpty(view))
      ensures forall i :: 0 <= i < |image.nodes| ==>
        image.nodes[i].val.off == if i == 0 then 0 else image.nodes[i - 1].val.off + image.nodes[i - 1].val.size
      ensures forall x :: x in image.nodes ==>
        && x.val.off + x.val.size <= |image.values| && x.key in view
        && view[x.key] == image.values[x.val.off..x.val.off + x.val.size]
      ensures |image.values| == if image.nodes == [] then 0 else var x := image.nodes[|image.nodes| - 1]; x.val.off + x.val.size
      ensures forall k :: k in view && view[k] != [] ==> exists i :: 0 <= i < |image.nodes| && image.nodes[i].key == k
      ensures forall a, b :: 0 <= a < b < |image.nodes| ==>
        var i, j := hash(image.nodes[a].key) % size, hash(image.nodes[b].key) % size;
        i < j || (i == j && image.nodes[a].key < image.nodes[b].key)
    {
      assert Represents(hash, datas, view) && |datas| == size;
      hide *;
      image := WriteNodes();
      KeptParts(image.nodes, image.values, view);
      RepresentsSize(hash, datas, view);
      FlatOrdered(hash, datas, view);
      KeptOrdered(hash, size, Flat(datas));
      OrderCopied(hash, size, Kept(Flat(datas)), image.nodes);
      OrderParts(hash, size, image.nodes);
    }

    method WriteNodes() returns (image: Image<Value>)
      requires Valid()
      ensures image.size == size && Tiled(image.nodes, |image.values|)
      ensures Carries(image.nodes, image.values, NonEmpty(view))
      ensures |image.nodes| == |Kept(Flat(datas))|
      ensures forall i :: 0 <= i < |image.nodes| ==> image.nodes[i].key == Kept(Flat(datas))[i].key
    {
      hide Represents, Spans, Tiled, Lists, AllSorted, NonEmpty, Kept, Flat;
      var all := Collect(datas);
      FlatLists(hash, datas, view);
      var vs: Values, ns: seq<Node<Span>> := [], [];
      ghost var w := NonEmpty(view);
      NoTiles();
      NoneKept(all);
      var i := 0;
      while i < |all|
        invariant i <= |all| && Tiled(ns, |vs|) && |ns| == |Kept(all[..i])|
        invariant forall j :: 0 <= j < |ns| ==> ns[j].key == Kept(all[..i])[j].key && Spans(ns[j], vs, w)
      {
        KeptNext(all, i);
        if |all[i].val| != 0 {
          InNonEmpty(all, view, i);
          NextTile(ns, vs, all[i].key, all[i].val, w);
          ns := ns + [Node(all[i].key, Span(|vs|, |all[i].val|))];
          vs := vs + all[i].val;
        }
        i := i + 1;
      }
      assert all[..i] == all;
      KeptLists(all, view);
      KeptCarried(Kept(all), w, ns, vs);
      return Image(size, vs, ns);
    }

    /** Reads an image that a multimap wrote, or fails on a stream that ends early. */
    method ReadFrom(stream: Option<Image<Value>>, ghost written: map<int, Values>) returns (ok: bool)
      requires stream.Some? ==> stream.value.size >= 1 && AllSorted(written)
      requires |written| <= 0xFFFF_FFFF_FFFF_FFFF && SizeSum(written) <= 0xFFFF_FFFF_FFFF_FFFF
      requires stream.Some? ==> Carries(stream.value.nodes, stream.value.values, written)
      modifies this
      ensures ok == stream.Some?
      ensures ok ==> Valid() && view == written && size == stream.value.size && total == |stream.value.nodes|
    {
      hide Represents, Lists, AllSorted, Carries;
      datas := [];
      if stream.None? {
        return false;
      }
      var image := stream.value;
      var ns, n := LoadAll(image.nodes, image.values, written);
      ListSize(ns, written);
      ListSumIs(ns, written);
      var table := Spread(hash, image.size, ns, written);
      datas, size, total, elements, view := table, image.size, |ns|, n, written;
      return true;
    }
  }

  lemma ArraySorted(m: map<int, Values>, k: int)
    requires AllSorted(m) && k in m
    ensures Sorted(m[k])
  {
  }

  lemma SortedParts(s: Values)
    requires Sorted(s)
    ensures forall i, j :: 0 <= i < j < |s| ==> s[i].key <= s[j].key
  {
  }

  /** How often each value stands in an array with the new values added. */
  lemma NewsAt(have: Values, vs: Values, news: Values)
    requires multiset(news) == News(have, vs)
    ensures forall x :: multiset(have + news)[x] == multiset(have)[x] + if x in vs && x !in have then 1 else 0
  {
    assert multiset(have + news) == multiset(have) + multiset(news);
  }

  /** Without a key: its values are no longer counted, and all arrays are still sorted. */
  lemma WithoutKey(m: map<int, Values>, k: int)
    requires k in m && AllSorted(m)
    ensures AllSorted(m - {k}) && SizeSum(m - {k}) == SizeSum(m) - |m[k]|
  {
    hide AllSorted, SizeSum;
    SumSet(m, k, []);
    NothingSorted();
    ArraySet(m, k, []);
  }

  /** Turns the spans of an image into arrays, counting their values. */
  method LoadAll(nodes: seq<Node<Span>>, vs: Values, ghost m: map<int, Values>) returns (ns: seq<Node<Values>>, n: nat)
    requires Carries(nodes, vs, m)
    ensures Lists(ns, m) && |ns| == |nodes| && n == ListSum(ns)
  {
    hide Lists, Carries, Loaded, ListSum;
    ns, n := [], 0;
    EmptySum();
    for i := 0 to |nodes|
      invariant i == |ns| && n == ListSum(ns)
      invariant forall j :: 0 <= j < i ==> Loaded(nodes[j], vs, ns[j])
    {
      InRange(nodes, vs, m, i);
      var span := nodes[i].val;
      var x := Node(nodes[i].key, vs[span.off..span.off + span.size]);
      NextSum(ns, x);
      LoadedNode(nodes[i], vs, x);
      ns := ns + [x];
      n := n + span.size;
    }
    LoadedLists(nodes, vs, ns, m);
  }

  lemma EmptySum()
    ensures ListSum([]) == 0
  {
  }

  lemma NextSum(ns: seq<Node<Values>>, x: Node<Values>)
    ensures ListSum(ns + [x]) == ListSum(ns) + |x.val|
  {
    assert (ns + [x])[..|ns|] == ns;
  }

  lemma LoadedNode(x: Node<Span>, vs: Values, y: Node<Values>)
    requires x.val.off + x.val.size <= |vs| && y == Node(x.key, vs[x.val.off..x.val.off + x.val.size])
    ensures Loaded(x, vs, y)
  {
  }

  /** One array set: the others stay, and all stay sorted. */
  lemma ArraySet(m: map<int, Values>, k: int, v: Values)
    requires AllSorted(m) && Sorted(v)
    ensures AllSorted(m[k := v]) && m[k := v] - {k} == m - {k} && AllSorted(m - {k})
  {
  }

  lemma Absent(m: map<int, Values>, k: int)
    ensures k !in m ==> m - {k} == m
  {
  }

  lemma NothingSorted()
    ensures Sorted<()>([])
  {
  }

  lemma SingleSorted(v: Value)
    ensures Sorted([v])
  {
  }

  /** No more new values than values. */
  lemma FewNews(a: Values, vs: Values, news: Values)
    requires multiset(news) == News(a, vs)
    ensures |news| <= |vs|
  {
    var s := set v | v in vs && v !in a;
    assert |news| == |multiset(news)| == |multiset(s)| == |s|;
    DistinctFew(s, vs);
  }

  lemma {:induction false} DistinctFew<T>(s: set<T>, vs: seq<T>)
    requires forall v :: v in s ==> v in vs
    ensures |s| <= |vs|
  {
    if vs != [] {
      var n := |vs| - 1;
      DistinctFew(s - {vs[n]}, vs[..n]);
    } else {
      assert s == {};
    }
  }

  // ---- writing and reading ------------------------------------------------------------------------

  /** The nodes with values. */
  ghost function Kept(ns: seq<Node<Values>>): seq<Node<Values>> {
    if ns == [] then [] else Kept(ns[..|ns| - 1]) + if |ns[|ns| - 1].val| != 0 then [ns[|ns| - 1]] else []
  }

  lemma NoneKept(ns: seq<Node<Values>>)
    ensures Kept(ns[..0]) == []
  {
  }

  lemma KeptNext(ns: seq<Node<Values>>, i: nat)
    requires i < |ns|
    ensures Kept(ns[..i + 1]) == Kept(ns[..i]) + if |ns[i].val| != 0 then [ns[i]] else []
  {
    assert ns[..i + 1][..i] == ns[..i];
  }

  lemma NonEmptyAt(m: map<int, Values>)
    ensures forall k :: k in NonEmpty(m) <==> k in m && m[k] != []
    ensures forall k :: k in NonEmpty(m) ==> NonEmpty(m)[k] == m[k]
  {
  }

  /** An image of the keys with values, one by one. */
  lemma KeptParts(ns: seq<Node<Span>>, vs: Values, m: map<int, Values>)
    requires Tiled(ns, |vs|) && Carries(ns, vs, NonEmpty(m))
    ensures forall i :: 0 <= i < |ns| ==>
      ns[i].val.off == if i == 0 then 0 else ns[i - 1].val.off + ns[i - 1].val.size
    ensures forall x :: x in ns ==>
      && x.val.off + x.val.size <= |vs| && x.key in m
      && m[x.key] == vs[x.val.off..x.val.off + x.val.size]
    ensures |vs| == if ns == [] then 0 else var x := ns[|ns| - 1]; x.val.off + x.val.size
    ensures forall k :: k in m && m[k] != [] ==> exists i :: 0 <= i < |ns| && ns[i].key == k
  {
    hide Tiled, Carries, NonEmpty;
    ImageParts(ns, vs, NonEmpty(m));
    NonEmptyAt(m);
  }

  lemma {:induction false} KeptOrdered(h: Hash, size: nat, ns: seq<Node<Values>>)
    requires size >= 1 && InOrder(h, size, ns)
    ensures InOrder(h, size, Kept(ns))
  {
    hide Ahead;
    if ns != [] {
      var n := |ns| - 1;
      KeptOrdered(h, size, ns[..n]);
      KeptIs(ns[..n]);
      if |ns[n].val| != 0 {
        forall x | x in Kept(ns[..n]) ensures Ahead(h, size, x.key, ns[n].key) {
          var i :| 0 <= i < n && ns[..n][i] == x;
          assert ns[i] == x;
        }
        OrderJoined(h, size, Kept(ns[..n]), [ns[n]]);
      }
    }
  }

  lemma {:induction false} KeptIs(ns: seq<Node<Values>>)
    ensures forall x :: x in Kept(ns) ==> x in ns && x.val != []
    ensures forall x :: x in ns && x.val != [] ==> x in Kept(ns)
    ensures Unique(ns) ==> Unique(Kept(ns))
  {
    if ns != [] {
      var n := |ns| - 1;
      KeptIs(ns[..n]);
      assert ns == ns[..n] + [ns[n]];
      if Unique(ns) {
        forall x | x in Kept(ns[..n]) ensures x.key != ns[n].key {
          assert x in ns[..n];
        }
        UniqueConcat(Kept(ns[..n]), [ns[n]]);
      }
    }
  }

  lemma KeptLists(ns: seq<Node<Values>>, m: map<int, Values>)
    requires Lists(ns, m)
    ensures Lists(Kept(ns), NonEmpty(m))
  {
    KeptIs(ns);
  }

  lemma InNonEmpty(ns: seq<Node<Values>>, m: map<int, Values>, i: nat)
    requires Lists(ns, m) && i < |ns| && |ns[i].val| != 0
    ensures ns[i].key in NonEmpty(m) && NonEmpty(m)[ns[i].key] == ns[i].val
  {
    assert ns[i] in ns;
  }

  lemma KeptCarried(all: seq<Node<Values>>, m: map<int, Values>, ns: seq<Node<Span>>, vs: Values)
    requires Lists(all, m) && |ns| == |all|
    requires forall j :: 0 <= j < |ns| ==> ns[j].key == all[j].key && Spans(ns[j], vs, m)
    ensures Carries(ns, vs, m)
  {
    hide Spans;
    forall k | k in m ensures exists i :: 0 <= i < |ns| && ns[i].key == k {
      assert Node(k, m[k]) in all;
      var i :| 0 <= i < |all| && all[i] == Node(k, m[k]);
      assert ns[i].key == k;
    }
  }

  ghost predicate Loaded(x: Node<Span>, vs: Values, y: Node<Values>) {
    x.val.off + x.val.size <= |vs| && y == Node(x.key, vs[x.val.off..x.val.off + x.val.size])
  }

  lemma InRange(nodes: seq<Node<Span>>, vs: Values, m: map<int, Values>, i: nat)
    requires Carries(nodes, vs, m) && i < |nodes|
    ensures nodes[i].val.off + nodes[i].val.size <= |vs|
  {
    assert Spans(nodes[i], vs, m);
  }

  lemma LoadedLists(nodes: seq<Node<Span>>, vs: Values, ns: seq<Node<Values>>, m: map<int, Values>)
    requires Carries(nodes, vs, m) && |ns| == |nodes|
    requires forall j :: 0 <= j < |ns| ==> Loaded(nodes[j], vs, ns[j])
    ensures Lists(ns, m)
  {
    forall j | 0 <= j < |ns| ensures ns[j].key in m && m[ns[j].key] == ns[j].val {
      assert Spans(nodes[j], vs, m);
    }
    forall k | k in m ensures Node(k, m[k]) in ns {
      var i :| 0 <= i < |nodes| && nodes[i].key == k;
      assert ns[i] == Node(k, m[k]);
    }
    assert Unique(ns);
  }

  /** What writing keeps has all arrays sorted and no more keys. */
  lemma NonEmptyPart(m: map<int, Values>)
    requires AllSorted(m)
    ensures AllSorted(NonEmpty(m)) && |NonEmpty(m)| <= |m|
    ensures NonEmpty(m) == m <==> forall k :: k in m ==> m[k] != []
  {
    assert NonEmpty(m).Keys <= m.Keys;
    SubsetSize(NonEmpty(m).Keys, m.Keys);
    assert |NonEmpty(m).Keys| == |NonEmpty(m)| && |m.Keys| == |m|;
    if NonEmpty(m) == m {
      forall k | k in m ensures m[k] != [] { assert k in NonEmpty(m); }
    }
    if forall k :: k in m ==> m[k] != [] {
      assert NonEmpty(m) == m;
    }
  }

  /** Writing one multimap and reading it into another, or into itself, restores it exactly when no
      key has an empty array; the number of values survives in any case. */
  method RoundTrip(d: HashMultimap, e: HashMultimap)
    requires d.Valid()
    modifies e
    ensures e.Valid() && e.view == NonEmpty(old(d.view)) && e.elements == old(d.elements) && e.size == old(d.size)
    ensures e.view == old(d.view) <==> forall k :: k in old(d.view) ==> old(d.view)[k] != []
  {
    hide Represents, AllSorted, Carries, Tiled;
    ghost var view := d.view;
    RepresentsSize(d.hash, d.datas, view);
    NonEmptyPart(view);
    SumNonEmpty(view);
    var image := d.WriteTo();
    var _ := e.ReadFrom(Some(image), NonEmpty(view));
  }

  /** The loss happens: a batch of no values under a new key makes the key, and the round trip
      drops it. */
  method EmptyKeyIsLost(d: HashMultimap, e: HashMultimap, k: int)
    requires d.Valid() && d != e && CanRehash(d.total, d.size) && d.total < 0xFFFF_FFFF_FFFF_FFFF && k !in d.view
    modifies d, e
    ensures d.Valid() && e.Valid() && k in d.view && d.view[k] == [] && k !in e.view
  {
    hide Represents, AllSorted;
    d.InsertAll(k, []);
    NoValues(d.view[k]);
    RoundTrip(d, e);
  }

  lemma NoValues(s: Values)
    requires multiset(s) == multiset([])
    ensures s == []
  {
    assert |multiset(s)| == |s|;
  }
}
