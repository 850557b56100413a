/** The table behind HashMap, Dict and HashMultimap: buckets of nodes in key order, each node in
    the bucket its hash names, and how such a table stands for a finite map. */
module HashBuckets {
  import opened Memory
  import opened DsUtil

  /** A position hash, whatever it computes. */
  type Hash = int -> U32

  type Table<P> = seq<seq<Node<P>>>

  function Pos(h: Hash, size: nat, k: int): (i: nat)
    requires size >= 1
    ensures i < size
  {
    h(k) % size
  }

  /** Bucket i of `size`: in order, and holding exactly the entries of m that belong there. */
  ghost predicate Bucket<P>(h: Hash, size: nat, i: nat, b: seq<Node<P>>, m: map<int, P>)
    requires size >= 1
  {
    && Ordered(b)
    && (forall x :: x in b ==> Pos(h, size, x.key) == i && x.key in m && m[x.key] == x.val)
    && (forall k :: k in m && Pos(h, size, k) == i ==> Node(k, m[k]) in b)
  }

  ghost predicate Represents<P>(h: Hash, ds: Table<P>, m: map<int, P>) {
    |ds| >= 1 && forall i :: 0 <= i < |ds| ==> Bucket(h, |ds|, i, ds[i], m)
  }

  /** Every node lies in the bucket of its key's hash modulo the number of buckets, with the value
      the map has for the key, and each bucket is in order. */
  lemma Homes<P>(h: Hash, ds: Table<P>, m: map<int, P>)
    requires Represents(h, ds, m)
    ensures forall i, x :: 0 <= i < |ds| && x in ds[i] ==> h(x.key) % |ds| == i && x.key in m && m[x.key] == x.val
    ensures forall i, a, b :: 0 <= i < |ds| && 0 <= a < b < |ds[i]| ==> ds[i][a].key < ds[i][b].key
  {
    forall i | 0 <= i < |ds|
      ensures forall x :: x in ds[i] ==> h(x.key) % |ds| == i && x.key in m && m[x.key] == x.val
      ensures forall a, b :: 0 <= a < b < |ds[i]| ==> ds[i][a].key < ds[i][b].key
    {
      assert Bucket(h, |ds|, i, ds[i], m);
    }
  }

  /** The search in the key's bucket finds its node exactly if the map has the key. */
  lemma Find<P>(h: Hash, ds: Table<P>, m: map<int, P>, k: int)
    requires Represents(h, ds, m)
    ensures var b := ds[Pos(h, |ds|, k)];
      var p := BinarySearch(b, k);
      Ordered(b) && (p < |b| <==> k in m) && (p < |b| ==> b[p] == Node(k, m[k]))
  {
    var i := Pos(h, |ds|, k);
    var b := ds[i];
    assert Bucket(h, |ds|, i, b, m);
    var p := BinarySearch(b, k);
    if k in m {
      assert Node(k, m[k]) in b;
      var j :| 0 <= j < |b| && b[j] == Node(k, m[k]);
      SearchFinds(b, j);
    }
    if p < |b| { assert b[p] in b; }
  }

  /** Replacing a bucket with one that suits a map changed at keys of that bucket only. */
  lemma BucketReplaced<P>(h: Hash, ds: Table<P>, m: map<int, P>, i: nat, b: seq<Node<P>>, w: map<int, P>)
    requires Represents(h, ds, m) && i < |ds| && Bucket(h, |ds|, i, b, w)
    requires forall k :: Pos(h, |ds|, k) != i ==> (k in m <==> k in w) && (k in m ==> m[k] == w[k])
    ensures Represents(h, ds[i := b], w)
  {
    var t := ds[i := b];
    forall j | 0 <= j < |t| ensures Bucket(h, |t|, j, t[j], w) {
      if j != i { assert Bucket(h, |ds|, j, ds[j], m); }
    }
  }

  /** An ordered list is determined by its members. */
  lemma {:induction false} OrderedSame<P>(a: seq<Node<P>>, b: seq<Node<P>>)
    requires Ordered(a) && Ordered(b)
    requires forall x :: x in a ==> x in b
    requires forall x :: x in b ==> x in a
    ensures a == b
  {
    hide Ordered;
    assert a != [] ==> a[0] in a;
    if b != [] {
      assert b[0] in a;
      FirstSame(a, b);
      TailMembers(a, b);
      TailMembers(b, a);
      TailOrdered(a);
      TailOrdered(b);
      OrderedSame(a[1..], b[1..]);
      HeadTail(a, b);
    }
  }

  lemma HeadTail<T>(a: seq<T>, b: seq<T>)
    requires a != [] && b != [] && a[0] == b[0] && a[1..] == b[1..]
    ensures a == b
  {
    assert a == [a[0]] + a[1..] && b == [b[0]] + b[1..];
  }

  lemma FirstBelow<P>(a: seq<Node<P>>, b: seq<Node<P>>)
    requires Sorted(a) && a != [] && b != [] && forall x :: x in b ==> x in a
    ensures a[0].key <= b[0].key
  {
    assert b[0] in a;
  }

  lemma FirstSame<P>(a: seq<Node<P>>, b: seq<Node<P>>)
    requires Ordered(a) && Ordered(b) && a != [] && b != []
    requires (forall x :: x in a ==> x in b) && (forall x :: x in b ==> x in a)
    ensures a[0] == b[0]
  {
    FirstBelow(a, b);
    FirstBelow(b, a);
    assert a[0] in b;
    var j :| 0 <= j < |b| && b[j] == a[0];
    SearchFinds(b, j);
    SearchFinds(b, 0);
  }

  lemma TailMembers<P>(a: seq<Node<P>>, b: seq<Node<P>>)
    requires Ordered(a) && a != [] && b != [] && a[0] == b[0] && forall x :: x in a ==> x in b
    ensures forall x :: x in a[1..] ==> x in b[1..]
  {
    forall x | x in a[1..] ensures x in b[1..] {
      var k :| 0 <= k < |a[1..]| && a[1..][k] == x;
      assert a[k + 1] == x && a[0].key != a[k + 1].key;
      assert x in b;
    }
  }

  lemma TailOrdered<P>(a: seq<Node<P>>)
    requires Ordered(a) && a != []
    ensures Ordered(a[1..])
  {
  }

  /** A map has one table of each size: rehashing to the old size, or writing and reading back,
      gives the same buckets. */
  lemma TableUnique<P>(h: Hash, a: Table<P>, b: Table<P>, m: map<int, P>)
    requires Represents(h, a, m) && Represents(h, b, m) && |a| == |b|
    ensures a == b
  {
    forall i | 0 <= i < |a| ensures a[i] == b[i] {
      assert Bucket(h, |a|, i, a[i], m) && Bucket(h, |b|, i, b[i], m);
      OrderedSame(a[i], b[i]);
    }
  }

  // ---- the three changes of a bucket ----------------------------------------------------------

  /** A new node, appended and sorted down. */
  lemma BucketAdded<P>(h: Hash, size: nat, i: nat, b: seq<Node<P>>, m: map<int, P>, x: Node<P>, t: seq<Node<P>>)
    requires size >= 1 && Bucket(h, size, i, b, m) && x.key !in m && Pos(h, size, x.key) == i
    requires Sorted(t) && multiset(t) == multiset(b + [x])
    ensures Bucket(h, size, i, t, m[x.key := x.val])
  {
    forall j | 0 <= j < |b| ensures b[j].key != x.key { assert b[j] in b; }
    assert Unique(b + [x]);
    Rearranged(b + [x], t);
    hide Unique, Sorted;
    assert forall y :: y in b + [x] <==> y in b || y == x;
  }

  /** The value of a node overwritten. */
  lemma BucketSet<P>(h: Hash, size: nat, i: nat, b: seq<Node<P>>, m: map<int, P>, p: nat, v: P)
    requires size >= 1 && Bucket(h, size, i, b, m) && p < |b|
    ensures Bucket(h, size, i, b[p := Node(b[p].key, v)], m[b[p].key := v])
  {
    var t := b[p := Node(b[p].key, v)];
    forall x | x in t ensures x == Node(b[p].key, v) || (x in b && x.key != b[p].key) {
      var j :| 0 <= j < |t| && t[j] == x;
      if j != p { assert b[j] == x; }
    }
    forall k | k in m && k != b[p].key && Pos(h, size, k) == i ensures Node(k, m[k]) in t {
      var j :| 0 <= j < |b| && b[j] == Node(k, m[k]);
      assert t[j] == b[j];
    }
    assert t[p] in t && b[p] in b;
  }

  /** The bucket with node p swapped for the last one and the last place cut off. */
  ghost function SwappedOut<P>(b: seq<Node<P>>, p: nat): seq<Node<P>>
    requires p < |b|
  {
    b[p := b[|b| - 1]][..|b| - 1]
  }

  method SwapOut<P>(b: seq<Node<P>>, p: nat) returns (c: seq<Node<P>>)
    requires p < |b|
    ensures c == SwappedOut(b, p)
  {
    c := b;
    if |c| > 1 {
      c := c[p := c[|c| - 1]][|c| - 1 := c[p]];
    }
    c := c[..|c| - 1];
  }

  /** A node swapped to the end, cut off, and the rest sorted again. */
  lemma BucketDropped<P>(h: Hash, size: nat, i: nat, b: seq<Node<P>>, m: map<int, P>, p: nat, t: seq<Node<P>>)
    requires size >= 1 && Bucket(h, size, i, b, m) && p < |b|
    requires Sorted(t) && multiset(t) == multiset(SwappedOut(b, p))
    ensures Bucket(h, size, i, t, m - {b[p].key})
  {
    var n := |b| - 1;
    var u := b[p := b[n]][..n];
    assert b[p] in b;
    forall j | 0 <= j < n ensures u[j].key != b[p].key && u[j] in b {
      assert u[j] == b[if j == p then n else j];
    }
    forall j | 0 <= j < |b| && j != p ensures b[j] in u {
      assert u[if j == n then p else j] == b[j];
    }
    assert Unique(u) by {
      forall a, c | 0 <= a < c < |u| ensures u[a].key != u[c].key {
        assert u[a] == b[if a == p then n else a] && u[c] == b[if c == p then n else c];
      }
    }
    Rearranged(u, t);
    forall k | k in m - {b[p].key} && Pos(h, size, k) == i ensures Node(k, m[k]) in t {
      var j :| 0 <= j < |b| && b[j] == Node(k, m[k]);
    }
  }

  // ---- all entries as a list ------------------------------------------------------------------

  /** The nodes bucket by bucket. */
  ghost function Flat<P>(ds: Table<P>): seq<Node<P>> {
    if ds == [] then [] else Flat(ds[..|ds| - 1]) + ds[|ds| - 1]
  }

  /** A list with each entry of m once and nothing else. */
  ghost predicate Lists<P>(ns: seq<Node<P>>, m: map<int, P>) {
    && Unique(ns)
    && (forall x :: x in ns ==> x.key in m && m[x.key] == x.val)
    && (forall k :: k in m ==> Node(k, m[k]) in ns)
  }

  /** The nodes of the first n buckets: the entries whose position is below n, each once. */
  lemma {:induction false} FlatPrefix<P>(h: Hash, ds: Table<P>, m: map<int, P>, n: nat)
    requires Represents(h, ds, m) && n <= |ds|
    ensures Unique(Flat(ds[..n]))
    ensures forall x :: x in Flat(ds[..n]) ==> x.key in m && m[x.key] == x.val && Pos(h, |ds|, x.key) < n
    ensures forall k :: k in m && Pos(h, |ds|, k) < n ==> Node(k, m[k]) in Flat(ds[..n])
  {
    if n > 0 {
      var a, b := Flat(ds[..n - 1]), ds[n - 1];
      FlatPrefix(h, ds, m, n - 1);
      assert ds[..n][..n - 1] == ds[..n - 1];
      assert Flat(ds[..n]) == a + b;
      assert Bucket(h, |ds|, n - 1, b, m);
      hide Represents, Flat;
      UniqueConcat(a, b);
    }
  }

  lemma UniqueConcat<P>(a: seq<Node<P>>, b: seq<Node<P>>)
    requires Unique(a) && Unique(b) && forall x, y :: x in a && y in b ==> x.key != y.key
    ensures Unique(a + b)
  {
    forall i, j | 0 <= i < j < |a + b| ensures (a + b)[i].key != (a + b)[j].key {
      if i < |a| <= j { assert a[i] in a && b[j - |a|] in b; }
    }
  }

  lemma FlatLists<P>(h: Hash, ds: Table<P>, m: map<int, P>)
    requires Represents(h, ds, m)
    ensures Lists(Flat(ds), m) && |Flat(ds)| == |m|
  {
    assert ds[..|ds|] == ds;
    FlatPrefix(h, ds, m, |ds|);
    hide Represents, Flat, Unique;
    ListSize(Flat(ds), m);
  }

  /** Key j is written before key k: its bucket comes first, or it is the smaller one in the same
      bucket. */
  ghost predicate Ahead(h: Hash, size: nat, j: int, k: int)
    requires size >= 1
  {
    h(j) % size < h(k) % size || (h(j) % size == h(k) % size && j < k)
  }

  ghost predicate InOrder<P>(h: Hash, size: nat, ns: seq<Node<P>>)
    requires size >= 1
  {
    forall a, b :: 0 <= a < b < |ns| ==> Ahead(h, size, ns[a].key, ns[b].key)
  }

  lemma OrderParts<P>(h: Hash, size: nat, ns: seq<Node<P>>)
    requires size >= 1 && InOrder(h, size, ns)
    ensures forall a, b :: 0 <= a < b < |ns| ==>
      var i, j := h(ns[a].key) % size, h(ns[b].key) % size;
      i < j || (i == j && ns[a].key < ns[b].key)
  {
    forall a, b | 0 <= a < b < |ns| ensures Ahead(h, size, ns[a].key, ns[b].key) {
    }
  }

  /** The order is one of the keys alone. */
  lemma OrderCopied<P, Q>(h: Hash, size: nat, s: seq<Node<P>>, t: seq<Node<Q>>)
    requires size >= 1 && InOrder(h, size, s) && |t| == |s| && forall i :: 0 <= i < |s| ==> t[i].key == s[i].key
    ensures InOrder(h, size, t)
  {
    hide Ahead;
  }

  lemma OrderJoined<P>(h: Hash, size: nat, s: seq<Node<P>>, t: seq<Node<P>>)
    requires size >= 1 && InOrder(h, size, s) && InOrder(h, size, t)
    requires forall x, y :: x in s && y in t ==> Ahead(h, size, x.key, y.key)
    ensures InOrder(h, size, s + t)
  {
    hide Ahead;
    var u := s + t;
    forall a, b | 0 <= a < b < |u| ensures Ahead(h, size, u[a].key, u[b].key) {
      if a < |s| <= b { assert u[a] in s && u[b] in t; }
    }
  }

  lemma {:induction false} FlatOrderedTo<P>(h: Hash, ds: Table<P>, m: map<int, P>, n: nat)
    requires Represents(h, ds, m) && n <= |ds|
    ensures InOrder(h, |ds|, Flat(ds[..n]))
  {
    if n > 0 {
      FlatOrderedTo(h, ds, m, n - 1);
      FlatPrefix(h, ds, m, n - 1);
      Homes(h, ds, m);
      assert ds[..n][..n - 1] == ds[..n - 1];
      var b := ds[n - 1];
      hide Represents, Flat, Unique;
      forall i, j | 0 <= i < j < |b| ensures Ahead(h, |ds|, b[i].key, b[j].key) {
        assert b[i] in b && b[j] in b;
      }
      OrderJoined(h, |ds|, Flat(ds[..n - 1]), b);
      LastBucket(ds[..n]);
    }
  }

  lemma LastBucket<P>(ds: Table<P>)
    requires ds != []
    ensures Flat(ds) == Flat(ds[..|ds| - 1]) + ds[|ds| - 1]
  {
  }

  /** All nodes stand in the order of their buckets, and of their keys within a bucket. */
  lemma FlatOrdered<P>(h: Hash, ds: Table<P>, m: map<int, P>)
    requires Represents(h, ds, m)
    ensures InOrder(h, |ds|, Flat(ds))
  {
    assert ds[..|ds|] == ds;
    FlatOrderedTo(h, ds, m, |ds|);
  }

  lemma ListsParts<P>(ns: seq<Node<P>>, m: map<int, P>)
    requires Lists(ns, m)
    ensures forall x :: x in ns ==> x.key in m && m[x.key] == x.val
  {
  }

  lemma {:induction false} ListSize<P>(ns: seq<Node<P>>, m: map<int, P>)
    requires Lists(ns, m)
    ensures |ns| == |m|
  {
    if ns == [] {
      assert m == map[];
    } else {
      var n := |ns| - 1;
      var x := ns[n];
      var w := m - {x.key};
      assert x in ns;
      forall k | k in w ensures Node(k, w[k]) in ns[..n] {
        var j :| 0 <= j < |ns| && ns[j] == Node(k, m[k]);
        assert ns[..n][j] == ns[j];
      }
      ListSize(ns[..n], w);
      assert m.Keys == w.Keys + {x.key} && |m.Keys| == |m| && |w.Keys| == |w|;
    }
  }

  // ---- spreading a list over buckets ------------------------------------------------------------

  /** The nodes of the list that belong into bucket i, in their order. */
  ghost function Chosen<P>(h: Hash, size: nat, ns: seq<Node<P>>, i: nat): seq<Node<P>>
    requires size >= 1
  {
    if ns == [] then [] else
    Chosen(h, size, ns[..|ns| - 1], i) + if Pos(h, size, ns[|ns| - 1].key) == i then [ns[|ns| - 1]] else []
  }

  lemma {:induction false} ChosenIs<P>(h: Hash, size: nat, ns: seq<Node<P>>, i: nat)
    requires size >= 1
    ensures forall x :: x in Chosen(h, size, ns, i) ==> x in ns && Pos(h, size, x.key) == i
    ensures forall x :: x in ns && Pos(h, size, x.key) == i ==> x in Chosen(h, size, ns, i)
    ensures Unique(ns) ==> Unique(Chosen(h, size, ns, i))
  {
    if ns != [] {
      var n := |ns| - 1;
      ChosenIs(h, size, ns[..n], i);
      assert ns == ns[..n] + [ns[n]];
      if Unique(ns) {
        forall x | x in Chosen(h, size, ns[..n], i) ensures x.key != ns[n].key {
          assert x in ns[..n];
        }
        UniqueConcat(Chosen(h, size, ns[..n], i), [ns[n]]);
      }
    }
  }

  /** The buckets of a list, each sorted: they represent what the list lists. */
  lemma SpreadRepresents<P>(h: Hash, ns: seq<Node<P>>, m: map<int, P>, ds: Table<P>)
    requires Lists(ns, m) && |ds| >= 1
    requires forall i :: 0 <= i < |ds| ==> Sorted(ds[i]) && multiset(ds[i]) == multiset(Chosen(h, |ds|, ns, i))
    ensures Represents(h, ds, m)
  {
    forall i | 0 <= i < |ds| ensures Bucket(h, |ds|, i, ds[i], m) {
      ChosenIs(h, |ds|, ns, i);
      Rearranged(Chosen(h, |ds|, ns, i), ds[i]);
    }
  }

  /** Pushes every node into the bucket its hash names and sorts the buckets. */
  method Spread<P>(h: Hash, size: nat, ns: seq<Node<P>>, ghost m: map<int, P>) returns (ds: Table<P>)
    requires size >= 1 && Lists(ns, m)
    ensures |ds| == size && Represents(h, ds, m)
  {
    hide Lists, Represents, Unique;
    ds := seq(size, i => []);
    var k := 0;
    while k < |ns|
      invariant k <= |ns| && |ds| == size
      invariant forall i :: 0 <= i < size ==> ds[i] == Chosen(h, size, ns[..k], i)
    {
      assert ns[..k + 1][..k] == ns[..k];
      var p := Pos(h, size, ns[k].key);
      ds := ds[p := ds[p] + [ns[k]]];
      k := k + 1;
    }
    assert ns[..k] == ns;
    ds := SortAll(ds, h, ns);
    SpreadRepresents(h, ns, m, ds);
  }

  method SortAll<P>(s: Table<P>, ghost h: Hash, ghost ns: seq<Node<P>>) returns (ds: Table<P>)
    requires |s| >= 1 && forall i :: 0 <= i < |s| ==> s[i] == Chosen(h, |s|, ns, i)
    ensures |ds| == |s|
    ensures forall i :: 0 <= i < |ds| ==> Sorted(ds[i]) && multiset(ds[i]) == multiset(Chosen(h, |ds|, ns, i))
  {
    hide Sorted;
    ds := s;
    var k := 0;
    while k < |ds|
      invariant k <= |ds| == |s|
      invariant forall i :: 0 <= i < k ==> Sorted(ds[i]) && multiset(ds[i]) == multiset(Chosen(h, |s|, ns, i))
      invariant forall i :: k <= i < |s| ==> ds[i] == s[i]
    {
      var b := Sort(ds[k]);
      ds := ds[k := b];
      k := k + 1;
    }
  }

  /** The nodes of a table in bucket order, as the loops over all buckets visit them. */
  method Collect<P>(ds: Table<P>) returns (ns: seq<Node<P>>)
    ensures ns == Flat(ds)
  {
    ns := [];
    var i := 0;
    while i < |ds|
      invariant i <= |ds| && ns == Flat(ds[..i])
    {
      assert ds[..i + 1][..i] == ds[..i];
      var j := 0;
      while j < |ds[i]|
        invariant j <= |ds[i]| && ns == Flat(ds[..i]) + ds[i][..j]
      {
        assert ds[i][..j + 1] == ds[i][..j] + [ds[i][j]];
        ns := ns + [ds[i][j]];
        j := j + 1;
      }
      assert ds[i][..j] == ds[i];
      i := i + 1;
    }
    assert ds[..i] == ds;
  }

  // ---- a table with one entry changed ---------------------------------------------------------

  /** The map a list of nodes builds, later nodes winning. */
  ghost function Entries<P>(ns: seq<Node<P>>): map<int, P> {
    if ns == [] then map[] else Entries(ns[..|ns| - 1])[ns[|ns| - 1].key := ns[|ns| - 1].val]
  }

  lemma EntriesAll<P>(ns: seq<Node<P>>)
    ensures Entries(ns[..|ns|]) == Entries(ns)
  {
    assert ns[..|ns|] == ns;
  }

  lemma EntriesNext<P>(ns: seq<Node<P>>, i: nat)
    requires i < |ns|
    ensures Entries(ns[..i + 1]) == Entries(ns[..i])[ns[i].key := ns[i].val]
  {
    assert ns[..i + 1][..i] == ns[..i];
  }

  lemma {:induction false} EntriesOf<P>(ns: seq<Node<P>>, m: map<int, P>)
    requires Lists(ns, m)
    ensures Entries(ns) == m
  {
    if ns == [] {
      ListSize(ns, m);
    } else {
      var n := |ns| - 1;
      DropsLast(ns, m);
      EntriesOf(ns[..n], m - {ns[n].key});
      assert ns[n] in ns;
      assert m == (m - {ns[n].key})[ns[n].key := ns[n].val];
    }
  }

  lemma DropsLast<P>(ns: seq<Node<P>>, m: map<int, P>)
    requires Lists(ns, m) && ns != []
    ensures Lists(ns[..|ns| - 1], m - {ns[|ns| - 1].key})
  {
    var n := |ns| - 1;
    forall k | k in m && k != ns[n].key ensures Node(k, m[k]) in ns[..n] {
      var j :| 0 <= j < |ns| && ns[j] == Node(k, m[k]);
      assert ns[..n][j] == ns[j];
    }
    forall x | x in ns[..n] ensures x.key in m - {ns[n].key} {
      var j :| 0 <= j < n && ns[..n][j] == x;
      assert ns[j] == x && ns[j].key != ns[n].key;
    }
  }

  lemma SizeGrows<K, P>(m: map<K, P>, k: K, v: P)
    ensures |m[k := v]| == if k in m then |m| else |m| + 1
  {
    assert m[k := v].Keys == m.Keys + {k} && |m[k := v].Keys| == |m[k := v]| && |m.Keys| == |m|;
  }

  lemma SizeShrinks<K, P>(m: map<K, P>, k: K)
    ensures |m - {k}| == if k in m then |m| - 1 else |m|
  {
    assert (m - {k}).Keys == m.Keys - {k} && |(m - {k}).Keys| == |m - {k}| && |m.Keys| == |m|;
  }

  lemma RepresentsSize<P>(h: Hash, ds: Table<P>, m: map<int, P>)
    requires Represents(h, ds, m)
    ensures |ds| >= 1
  {
  }

  lemma Added<P>(h: Hash, ds: Table<P>, m: map<int, P>, x: Node<P>, b: seq<Node<P>>)
    requires Represents(h, ds, m) && x.key !in m
    requires Sorted(b) && multiset(b) == multiset(ds[Pos(h, |ds|, x.key)] + [x])
    ensures Represents(h, ds[Pos(h, |ds|, x.key) := b], m[x.key := x.val])
  {
    var i := Pos(h, |ds|, x.key);
    assert Bucket(h, |ds|, i, ds[i], m);
    BucketAdded(h, |ds|, i, ds[i], m, x, b);
    BucketReplaced(h, ds, m, i, b, m[x.key := x.val]);
  }

  lemma Overwritten<P>(h: Hash, ds: Table<P>, m: map<int, P>, k: int, v: P)
    requires Represents(h, ds, m) && k in m
    ensures var i := Pos(h, |ds|, k);
      var p := BinarySearch(ds[i], k);
      p < |ds[i]| && Represents(h, ds[i := ds[i][p := Node(ds[i][p].key, v)]], m[k := v])
  {
    var i := Pos(h, |ds|, k);
    assert Bucket(h, |ds|, i, ds[i], m);
    Find(h, ds, m, k);
    var p := BinarySearch(ds[i], k);
    BucketSet(h, |ds|, i, ds[i], m, p, v);
    BucketReplaced(h, ds, m, i, ds[i][p := Node(ds[i][p].key, v)], m[k := v]);
  }

  lemma Dropped<P>(h: Hash, ds: Table<P>, m: map<int, P>, k: int, t: seq<Node<P>>)
    requires Represents(h, ds, m) && k in m
    requires var b := ds[Pos(h, |ds|, k)];
      var p := BinarySearch(b, k);
      p < |b| && Sorted(t) && multiset(t) == multiset(SwappedOut(b, p))
    ensures Represents(h, ds[Pos(h, |ds|, k) := t], m - {k})
  {
    var i := Pos(h, |ds|, k);
    assert Bucket(h, |ds|, i, ds[i], m);
    Find(h, ds, m, k);
    BucketDropped(h, |ds|, i, ds[i], m, BinarySearch(ds[i], k), t);
    BucketReplaced(h, ds, m, i, t, m - {k});
  }

  /** A node for a new key: appended to its bucket, which is then sorted. */
  method PutIn<P>(h: Hash, ds: Table<P>, ghost m: map<int, P>, x: Node<P>) returns (t: Table<P>)
    requires Represents(h, ds, m) && x.key !in m
    ensures |t| == |ds| && Represents(h, t, m[x.key := x.val]) && |m[x.key := x.val]| == |m| + 1
  {
    hide Represents, Sorted;
    Find(h, ds, m, x.key);
    SizeGrows(m, x.key, x.val);
    var pos := Pos(h, |ds|, x.key);
    var b := SortLast(ds[pos] + [x]);
    Added(h, ds, m, x, b);
    return ds[pos := b];
  }

  /** Deleting a node: swapped to the end of its bucket, cut off, and the rest sorted. */
  method CutOut<P>(h: Hash, ds: Table<P>, ghost m: map<int, P>, k: int) returns (t: Table<P>)
    requires Represents(h, ds, m) && k in m
    ensures |t| == |ds| && Represents(h, t, m - {k}) && |m - {k}| == |m| - 1
  {
    hide Represents, SwappedOut, Sorted;
    Find(h, ds, m, k);
    SizeShrinks(m, k);
    var pos := Pos(h, |ds|, k);
    var b := SwapOut(ds[pos], BinarySearch(ds[pos], k));
    b := Sort(b);
    Dropped(h, ds, m, k, b);
    return ds[pos := b];
  }

  // ---- rehashing and looking up -----------------------------------------------------------------

  /** Spreads the nodes over a table of the size `basket` names, if the load test holds. */
  method Rehashed<P>(h: Hash, ds: Table<P>, total: U64, ghost m: map<int, P>) returns (t: Table<P>)
    requires Represents(h, ds, m) && CanRehash(total, |ds|)
    ensures Represents(h, t, m)
    ensures |t| == if total > 16 * |ds| then Basket(ToInt32(total)) else |ds|
  {
    hide Represents, Basket;
    RepresentsSize(h, ds, m);
    if !Crowded(total, |ds|) {
      return ds;
    }
    BasketAtMost(ToInt32(total));
    var n := Basket(ToInt32(total));
    if n == |ds| {
      return ds;
    }
    var ns := Collect(ds);
    FlatLists(h, ds, m);
    t := Spread(h, n, ns, m);
  }

  /** The value under a key, as `get` finds it. */
  function Lookup<P>(h: Hash, ds: Table<P>, k: int): Option<P>
    requires |ds| >= 1
  {
    var b := ds[Pos(h, |ds|, k)];
    var p := BinarySearch(b, k);
    if p == |b| then None else Some(b[p].val)
  }

  lemma Found<P>(h: Hash, ds: Table<P>, m: map<int, P>, k: int)
    requires Represents(h, ds, m)
    ensures Lookup(h, ds, k) == if k in m then Some(m[k]) else None
  {
    Find(h, ds, m, k);
  }
}
