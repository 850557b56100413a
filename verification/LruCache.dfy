/** The LRU cache as the program keeps it: a hash index into the nodes of a recency list that is
    spliced, extended and cut in place. Every operation is a step of the machine in LruSpec. */
module LruCaches {
  import opened Memory
  import opened LruSpec

  /** A list node; the index refers to nodes by identity. */
  class Node<K, V> {
    const key: K
    var val: V

    constructor (key: K, val: V)
      ensures this.key == key && this.val == val
    {
      this.key, this.val := key, val;
    }
  }

  /** The list without node n. */
  function Unlink<K, V>(keys: seq<Node<K, V>>, n: Node<K, V>): seq<Node<K, V>> {
    if keys == [] then [] else if keys[0] == n then keys[1..] else [keys[0]] + Unlink(keys[1..], n)
  }

  lemma {:induction false} UnlinkAt<K, V>(keys: seq<Node<K, V>>, i: nat)
    requires i < |keys| && forall a, b :: 0 <= a < b < |keys| ==> keys[a] != keys[b]
    ensures Unlink(keys, keys[i]) == keys[..i] + keys[i + 1..]
  {
    if i > 0 {
      assert keys[0] != keys[i];
      UnlinkAt(keys[1..], i - 1);
      Rejoin(keys, i);
    }
  }

  lemma {:induction false} WithoutIndex<K, V>(s: seq<Item<K, V>>, i: nat)
    requires Distinct(s) && i < |s|
    ensures Without(s, s[i].key) == s[..i] + s[i + 1..]
  {
    if i > 0 {
      assert s[0].key != s[i].key;
      WithoutIndex(s[1..], i - 1);
      Rejoin(s, i);
    }
  }

  lemma Rejoin<T>(s: seq<T>, i: nat)
    requires 0 < i < |s|
    ensures [s[0]] + (s[1..][..i - 1] + s[1..][i..]) == s[..i] + s[i + 1..]
  {
  }

  /** The entries beyond the first n, last one first. */
  ghost function FromBack<T>(s: seq<T>, n: nat): seq<T> {
    if |s| <= n then [] else [s[|s| - 1]] + FromBack(s[..|s| - 1], n)
  }

  /** Dropping and keeping partition the list. */
  lemma {:induction false} FromBackAt<T>(s: seq<T>, n: nat, i: nat)
    requires n <= |s| && i < |s| - n
    ensures |FromBack(s, n)| == |s| - n && FromBack(s, n)[i] == s[|s| - 1 - i]
  {
    if i > 0 {
      FromBackAt(s[..|s| - 1], n, i - 1);
    } else if |s| - 1 > n {
      FromBackAt(s[..|s| - 1], n, 0);
    }
  }

  // ---- index and list -----------------------------------------------------------------------

  /** No node is linked twice. */
  ghost predicate NoRepeats<T>(s: seq<T>) {
    forall i, j :: 0 <= i < j < |s| ==> s[i] != s[j]
  }

  /** Every linked node is the one its key leads to, and every key leads to a linked node. */
  ghost predicate Names<K, V>(cache: map<K, Node<K, V>>, keys: seq<Node<K, V>>) {
    && (forall n :: n in keys ==> n.key in cache && cache[n.key] == n)
    && (forall k :: k in cache ==> cache[k].key == k && cache[k] in keys)
  }

  /** The index maps exactly the keys of the list's nodes, each to its node. */
  ghost predicate Indexed<K, V>(cache: map<K, Node<K, V>>, keys: seq<Node<K, V>>) {
    |cache| == |keys| && NoRepeats(keys) && Names(cache, keys)
  }

  /** The list's nodes hold the entries of view, in order. */
  ghost predicate Shows<K, V>(keys: seq<Node<K, V>>, view: seq<Item<K, V>>)
    reads keys
  {
    |keys| == |view| && forall i :: 0 <= i < |keys| ==> view[i] == Item(keys[i].key, keys[i].val)
  }

  ghost function Moved<T>(s: seq<T>, i: nat): seq<T>
    requires i < |s|
  {
    [s[i]] + Removed(s, i)
  }

  ghost function Removed<T>(s: seq<T>, i: nat): seq<T>
    requires i < |s|
  {
    s[..i] + s[i + 1..]
  }

  lemma RemovedAt<T>(s: seq<T>, i: nat)
    requires i < |s|
    ensures |Removed(s, i)| == |s| - 1
    ensures forall j :: 0 <= j < |s| - 1 ==> Removed(s, i)[j] == if j < i then s[j] else s[j + 1]
  {
  }

  /** Removing an entry of a list without repeats removes exactly that entry. */
  lemma RemovedMembers<T>(s: seq<T>, i: nat)
    requires i < |s| && NoRepeats(s)
    ensures NoRepeats(Removed(s, i))
    ensures forall x :: x in Removed(s, i) <==> x in s && x != s[i]
  {
    var r := Removed(s, i);
    RemovedAt(s, i);
    forall x ensures x in r <==> x in s && x != s[i] {
      if x in s && x != s[i] {
        var j :| 0 <= j < |s| && s[j] == x;
        assert x == r[if j < i then j else j - 1];
      }
    }
  }

  lemma MovedMembers<T>(s: seq<T>, i: nat)
    requires i < |s| && NoRepeats(s)
    ensures NoRepeats(Moved(s, i)) && |Moved(s, i)| == |s|
    ensures forall x :: x in Moved(s, i) <==> x in s
  {
    RemovedMembers(s, i);
    ConsMembers(s[i], Removed(s, i));
  }

  lemma ConsMembers<T>(x: T, s: seq<T>)
    requires x !in s && NoRepeats(s)
    ensures NoRepeats([x] + s)
    ensures forall y :: y in [x] + s <==> y == x || y in s
  {
  }

  lemma IndexedRemoved<K, V>(cache: map<K, Node<K, V>>, keys: seq<Node<K, V>>, i: nat)
    requires Indexed(cache, keys) && i < |keys|
    ensures Indexed(cache - {keys[i].key}, Removed(keys, i))
    ensures forall m :: m in Removed(keys, i) ==> m in keys
  {
    hide NoRepeats;
    RemovedMembers(keys, i);
    ErasedSize(cache, keys[i].key);
  }

  lemma ErasedSize<K, W>(m: map<K, W>, k: K)
    requires k in m
    ensures |m - {k}| == |m| - 1
  {
    assert (m - {k}).Keys == m.Keys - {k};
    assert |m.Keys| == |m|;
  }

  lemma IndexedMoved<K, V>(cache: map<K, Node<K, V>>, keys: seq<Node<K, V>>, i: nat)
    requires Indexed(cache, keys) && i < |keys|
    ensures Indexed(cache, Moved(keys, i))
    ensures forall m :: m in Moved(keys, i) <==> m in keys
  {
    hide NoRepeats;
    MovedMembers(keys, i);
  }

  lemma IndexedAdded<K, V>(cache: map<K, Node<K, V>>, keys: seq<Node<K, V>>, n: Node<K, V>)
    requires Indexed(cache, keys) && n.key !in cache
    ensures Indexed(cache[n.key := n], [n] + keys)
  {
    hide NoRepeats;
    ConsMembers(n, keys);
    AddedKeySize(cache, n.key, n);
    NamesAdded(cache, keys, n);
  }

  lemma AddedKeySize<K, W>(m: map<K, W>, k: K, w: W)
    requires k !in m
    ensures |m[k := w]| == |m| + 1
  {
    assert m[k := w].Keys == m.Keys + {k};
    assert |m[k := w].Keys| == |m[k := w]| && |m.Keys| == |m|;
  }

  lemma NamesAdded<K, V>(cache: map<K, Node<K, V>>, keys: seq<Node<K, V>>, n: Node<K, V>)
    requires Names(cache, keys) && n.key !in cache
    ensures Names(cache[n.key := n], [n] + keys)
  {
  }

  lemma LastShown<K, V>(keys: seq<Node<K, V>>, view: seq<Item<K, V>>)
    requires Shows(keys, view) && keys != []
    ensures |view| == |keys| && view[|view| - 1] == Item(keys[|keys| - 1].key, keys[|keys| - 1].val)
  {
  }

  lemma ShowsRemoved<K, V>(keys: seq<Node<K, V>>, view: seq<Item<K, V>>, i: nat)
    requires Shows(keys, view) && i < |keys|
    ensures Shows(Removed(keys, i), Removed(view, i))
  {
    RemovedAt(keys, i);
    RemovedAt(view, i);
  }

  lemma ShowsMoved<K, V>(keys: seq<Node<K, V>>, view: seq<Item<K, V>>, i: nat)
    requires Shows(keys, view) && i < |keys|
    ensures Shows(Moved(keys, i), Moved(view, i))
  {
    ShowsRemoved(keys, view, i);
  }

  lemma ShowsAdded<K, V>(keys: seq<Node<K, V>>, view: seq<Item<K, V>>, n: Node<K, V>)
    requires Shows(keys, view)
    ensures Shows([n] + keys, [Item(n.key, n.val)] + view)
  {
  }

  /** The view of an indexed list has distinct keys, and looking a key up in it is reading the
      node the index names. */
  lemma Agree<K, V>(cache: map<K, Node<K, V>>, keys: seq<Node<K, V>>, view: seq<Item<K, V>>, k: K)
    requires Indexed(cache, keys) && Shows(keys, view)
    ensures Distinct(view) && (k in cache <==> Has(view, k))
    ensures k in cache ==> cache[k] in keys && Lookup(view, k) == Memory.Some(cache[k].val)
    ensures k !in cache ==> Lookup(view, k) == Memory.None
  {
    forall i, j | 0 <= i < j < |view| ensures view[i].key != view[j].key {
      assert keys[i] in keys && keys[j] in keys && keys[i] != keys[j];
    }
    if k in cache {
      var i :| 0 <= i < |keys| && keys[i] == cache[k];
      assert view[i].key == k;
      LookupIs(view, view[i]);
    }
    LookupHas(view, k);
  }

  /** Where a node of the list stands: unlinking it, and removing its entry. */
  lemma Position<K, V>(cache: map<K, Node<K, V>>, keys: seq<Node<K, V>>, view: seq<Item<K, V>>, n: Node<K, V>)
    returns (i: nat)
    requires Indexed(cache, keys) && Shows(keys, view) && n in keys
    ensures i < |keys| == |view| && keys[i] == n && view[i] == Item(n.key, n.val)
    ensures Unlink(keys, n) == Removed(keys, i) && Without(view, n.key) == Removed(view, i)
    ensures Distinct(view) && Has(view, n.key) && Lookup(view, n.key) == Memory.Some(n.val)
    ensures n.key in cache && cache[n.key] == n
    ensures forall j :: 0 <= j < |keys| && j != i ==> keys[j] != n
  {
    i :| 0 <= i < |keys| && keys[i] == n;
    Agree(cache, keys, view, n.key);
    UnlinkAt(keys, i);
    WithoutIndex(view, i);
  }

  class LruCache<K(==), V> {
    var cache: map<K, Node<K, V>>
    var keys: seq<Node<K, V>>
    var maxSize: U64
    var elasticity: U64
    ghost var view: seq<Item<K, V>>      // the recency list as values
    ghost var evicted: seq<Item<K, V>>   // the arguments of the prune callback so far

    ghost predicate Valid()
      reads this, keys
    {
      Indexed(cache, keys) && Shows(keys, view)
    }

    constructor (maxSize: U64, elasticity: U64)
      ensures Valid() && view == [] && evicted == [] && keys == []
      ensures this.maxSize == maxSize && this.elasticity == elasticity
    {
      cache, keys, view, evicted := map[], [], [], [];
      this.maxSize, this.elasticity := maxSize, elasticity;
    }

    /** Moves a node of the list to the front. */
    method Splice(n: Node<K, V>)
      requires Valid() && n in keys
      modifies this`keys, this`view
      ensures Valid() && view == [Item(n.key, n.val)] + Without(old(view), n.key)
      ensures forall m :: m in keys <==> m in old(keys)
    {
      hide Indexed, Shows, Distinct;
      ghost var i := Position(cache, keys, view, n);
      IndexedMoved(cache, keys, i);
      ShowsMoved(keys, view, i);
      keys := [n] + Unlink(keys, n);
      view := [Item(n.key, n.val)] + Without(view, n.key);
    }

    method Set(k: K, v: V)
      requires Valid()
      modifies this, keys
      ensures Valid() && maxSize == old(maxSize) && elasticity == old(elasticity)
      ensures view == Step(old(view), Op.Set(k, v), maxSize, elasticity)
      ensures Has(old(view), k) ==> evicted == old(evicted) && view == [Item(k, v)] + Without(old(view), k)
      ensures !Has(old(view), k) ==>
        var s, n := [Item(k, v)] + old(view), |old(view)| + 1;
        && view == (if maxSize == 0 || n < (maxSize + elasticity) % 0x1_0000_0000_0000_0000 || n <= maxSize then s else s[..maxSize])
        && |evicted| == |old(evicted)| + n - |view| && old(evicted) <= evicted
        && forall i :: |old(evicted)| <= i < |evicted| ==> evicted[i] == s[n - 1 - (i - |old(evicted)|)]
      ensures forall m :: m in keys ==> m in old(keys) || fresh(m)
    {
      hide Indexed, Shows, Distinct, Has, Pruned, FromBack;
      Agree(cache, keys, view, k);
      if k in cache {
        var n := cache[k];
        NamedKey(cache, keys, k);
        Overwrite(n, v);
        Splice(n);
        return;
      }
      var n := new Node(k, v);
      IndexedAdded(cache, keys, n);
      ShowsAdded(keys, view, n);
      keys := [n] + keys;
      view := [Item(k, v)] + view;
      cache := cache[k := n];
      var _ := Prune();
    }

    /** Assigns through the iterator: the node's value changes in place. */
    method Overwrite(n: Node<K, V>, v: V)
      requires Valid() && n in keys
      modifies this`view, n
      ensures Valid() && n.val == v
      ensures Without(view, n.key) == Without(old(view), n.key)
    {
      hide Indexed, Distinct;
      ghost var i := Position(cache, keys, view, n);
      n.val := v;
      view := view[i := Item(n.key, v)];
      ghost var j := Position(cache, keys, view, n);
      SetRemoved(old(view), i, Item(n.key, v));
    }

    method Get(k: K) returns (r: Option<V>)
      requires Valid()
      modifies this`keys, this`view
      ensures Valid() && r == Lookup(old(view), k)
      ensures view == Step(old(view), Op.Get(k), maxSize, elasticity)
      ensures view == if r.Some? then [Item(k, r.value)] + Without(old(view), k) else old(view)
      ensures forall m :: m in keys <==> m in old(keys)
    {
      hide Indexed, Shows, Distinct, Lookup;
      Agree(cache, keys, view, k);
      if k !in cache {
        return Memory.None;
      }
      ghost var _ := Position(cache, keys, view, cache[k]);
      NamedKey(cache, keys, k);
      Splice(cache[k]);
      return Memory.Some(cache[k].val);
    }

    method Del(k: K) returns (b: bool)
      requires Valid()
      modifies this`cache, this`keys, this`view
      ensures Valid() && b == Has(old(view), k)
      ensures view == Step(old(view), Op.Del(k), maxSize, elasticity) == Without(old(view), k)
      ensures forall m :: m in keys ==> m in old(keys)
    {
      hide Indexed, Shows, Distinct, Has;
      Agree(cache, keys, view, k);
      if k !in cache {
        return false;
      }
      ghost var i := Position(cache, keys, view, cache[k]);
      NamedKey(cache, keys, k);
      IndexedRemoved(cache, keys, i);
      ShowsRemoved(keys, view, i);
      keys := Unlink(keys, cache[k]);
      cache := cache - {k};
      view := Without(view, k);
      return true;
    }

    method Exists(k: K) returns (b: bool)
      requires Valid()
      ensures b == Has(view, k)
    {
      Agree(cache, keys, view, k);
      return k in cache;
    }

    method Size() returns (n: nat)
      requires Valid()
      ensures n == |view|
    {
      return |cache|;
    }

    method Clear()
      requires Valid()
      modifies this`cache, this`keys, this`view
      ensures Valid() && view == Step(old(view), Op.Clear, maxSize, elasticity) == [] && keys == []
    {
      cache, keys, view := map[], [], [];
    }

    /** Drops least recent entries, reporting each to the callback, once the allowed size is
        reached; returns how many. */
    method Prune() returns (count: nat)
      requires Valid()
      modifies this`cache, this`keys, this`view, this`evicted
      ensures Valid() && view == Pruned(old(view), maxSize, elasticity)
      ensures view ==
        if maxSize == 0 || |old(view)| < (maxSize + elasticity) % 0x1_0000_0000_0000_0000 || |old(view)| <= maxSize
        then old(view) else old(view)[..maxSize]
      ensures count == |old(view)| - |view| == |evicted| - |old(evicted)| && old(evicted) <= evicted
      ensures forall i :: |old(evicted)| <= i < |evicted| ==> evicted[i] == old(view)[|old(view)| - 1 - (i - |old(evicted)|)]
      ensures forall m :: m in keys ==> m in old(keys)
    {
      hide Indexed, Shows, FromBack;
      count := CutBack();
      LogParts(old(evicted), evicted, old(view), |view|);
    }

    method CutBack() returns (count: nat)
      requires Valid()
      modifies this`cache, this`keys, this`view, this`evicted
      ensures Valid() && view == Pruned(old(view), maxSize, elasticity)
      ensures evicted == old(evicted) + FromBack(old(view), |view|)
      ensures count == |old(view)| - |view|
      ensures forall m :: m in keys ==> m in old(keys)
    {
      hide Indexed, Shows, FromBack;
      Sizes();
      if maxSize == 0 || |cache| < (maxSize + elasticity) % 0x1_0000_0000_0000_0000 {
        FromBackEnd(view, |view|, evicted);
        return 0;
      }
      ghost var s, before := view, evicted;
      count := 0;
      WholeList(s);
      while |cache| > maxSize
        invariant Valid() && |cache| == |view| <= |s| && view == s[..|view|]
        invariant maxSize <= |view| || |view| == |s|
        invariant count == |s| - |view|
        invariant before + FromBack(s, maxSize) == evicted + FromBack(view, maxSize)
        invariant forall m :: m in keys ==> m in old(keys)
      {
        FromBackNext(view, maxSize, evicted);
        ShorterPrefix(s, |view|);
        PopBack();
        Sizes();
        count := count + 1;
      }
      FromBackEnd(view, maxSize, evicted);
      FromBackWhole(s, |view|, maxSize);
    }

    lemma Sizes()
      requires Valid()
      ensures |cache| == |keys| == |view|
    {
    }

    /** One round of pruning: callback, erase from the index, pop from the list. */
    method PopBack()
      requires Valid() && |cache| > 0
      modifies this`cache, this`keys, this`view, this`evicted
      ensures Valid() && old(view) != [] && view == old(view)[..|old(view)| - 1]
      ensures evicted == old(evicted) + [old(view)[|old(view)| - 1]]
      ensures forall m :: m in keys ==> m in old(keys)
    {
      hide Indexed, Shows;
      Sizes();
      var back := keys[|keys| - 1];
      LastShown(keys, view);
      evicted := evicted + [Item(back.key, back.val)];
      IndexedRemoved(cache, keys, |keys| - 1);
      ShowsRemoved(keys, view, |keys| - 1);
      LastRemoved(keys);
      LastRemoved(view);
      cache := cache - {back.key};
      keys := keys[..|keys| - 1];
      view := view[..|view| - 1];
    }
  }

  lemma SetRemoved<T>(s: seq<T>, i: nat, x: T)
    requires i < |s|
    ensures Removed(s[i := x], i) == Removed(s, i)
  {
  }

  lemma NamedKey<K, V>(cache: map<K, Node<K, V>>, keys: seq<Node<K, V>>, k: K)
    requires Indexed(cache, keys) && k in cache
    ensures cache[k].key == k
  {
  }

  lemma LastRemoved<T>(s: seq<T>)
    requires s != []
    ensures Removed(s, |s| - 1) == s[..|s| - 1]
  {
  }

  lemma WholeList<T>(s: seq<T>)
    ensures s[..|s|] == s
  {
  }

  lemma ShorterPrefix<T>(s: seq<T>, n: nat)
    requires 0 < n <= |s|
    ensures s[..n][..n - 1] == s[..n - 1]
  {
  }

  /** The log after pruning s to its first n entries, entry by entry. */
  lemma LogParts<T>(before: seq<T>, log: seq<T>, s: seq<T>, n: nat)
    requires n <= |s| && log == before + FromBack(s, n)
    ensures |log| == |before| + |s| - n && before <= log
    ensures forall i :: |before| <= i < |log| ==> log[i] == s[|s| - 1 - (i - |before|)]
  {
    hide FromBack;
    if n == |s| {
      FromBackEnd(s, n, before);
    } else {
      FromBackAt(s, n, 0);
      forall i | |before| <= i < |log| ensures log[i] == s[|s| - 1 - (i - |before|)] {
        FromBackAt(s, n, i - |before|);
      }
    }
  }

  lemma FromBackWhole<T>(s: seq<T>, n: nat, max: nat)
    requires n <= |s| && (n == max || n == |s| <= max)
    ensures FromBack(s, n) == FromBack(s, max)
  {
  }

  lemma FromBackEnd<T>(s: seq<T>, n: nat, e: seq<T>)
    requires |s| <= n
    ensures e + FromBack(s, n) == e
  {
  }

  lemma FromBackNext<T>(s: seq<T>, n: nat, e: seq<T>)
    requires |s| > n
    ensures e + FromBack(s, n) == (e + [s[|s| - 1]]) + FromBack(s[..|s| - 1], n)
  {
  }
}
