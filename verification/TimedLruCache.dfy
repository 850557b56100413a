/** The LRU cache with expiry: a hash index, a recency list and a set ordered by expiry time,
    all three referring to the same nodes. Keys are integers, since the set orders by key. */
module TimedLruCaches {
  import opened Memory
  import opened LruSpec
  import opened LruCaches

  /** What a node carries besides its key: the value and the expiry time. */
  datatype Stamped<V> = Stamped(val: V, ts: U64)

  type TimedNode<V> = Node<int, Stamped<V>>
  type TimedItem<V> = Item<int, Stamped<V>>

  // ---- the ordered set ----------------------------------------------------------------------

  /** The set's comparison: by expiry time, then by key; a node is not before itself. */
  predicate Before<V>(a: TimedNode<V>, b: TimedNode<V>)
    reads a, b
  {
    if a == b then false
    else if a.val.ts != b.val.ts then a.val.ts < b.val.ts
    else a.key < b.key
  }

  ghost predicate Ordered<V>(s: seq<TimedNode<V>>)
    reads s
  {
    forall i, j :: 0 <= i < j < |s| ==> Before(s[i], s[j])
  }

  /** `lower_bound`: the first position whose node is not before n. */
  function LowerBound<V>(s: seq<TimedNode<V>>, n: TimedNode<V>): (p: nat)
    reads s, n
    ensures p <= |s|
  {
    if s == [] || !Before(s[0], n) then 0 else 1 + LowerBound(s[1..], n)
  }

  /** `erase`: removes the node equivalent to n under the comparison, if the search finds one. */
  function Erased<V>(s: seq<TimedNode<V>>, n: TimedNode<V>): seq<TimedNode<V>>
    reads s, n
  {
    var p := LowerBound(s, n);
    if p < |s| && !Before(n, s[p]) then s[..p] + s[p + 1..] else s
  }

  /** `insert`: adds n at its place unless an equivalent node is there. */
  function Inserted<V>(s: seq<TimedNode<V>>, n: TimedNode<V>): seq<TimedNode<V>>
    reads s, n
  {
    var p := LowerBound(s, n);
    if p < |s| && !Before(n, s[p]) then s else s[..p] + [n] + s[p..]
  }

  lemma {:induction false} LowerBoundSplits<V>(s: seq<TimedNode<V>>, n: TimedNode<V>)
    ensures forall i :: 0 <= i < LowerBound(s, n) ==> Before(s[i], n)
    ensures LowerBound(s, n) < |s| ==> !Before(s[LowerBound(s, n)], n)
  {
    if s != [] && Before(s[0], n) {
      LowerBoundSplits(s[1..], n);
      var p := LowerBound(s[1..], n);
      forall i | 0 <= i < p + 1 ensures Before(s[i], n) {
        if i > 0 { assert s[i] == s[1..][i - 1]; }
      }
    }
  }

  /** In an ordered list the search finds the node itself, so erasing removes exactly it. */
  lemma ErasedExactly<V>(s: seq<TimedNode<V>>, i: nat)
    requires Ordered(s) && i < |s|
    ensures Erased(s, s[i]) == Removed(s, i)
  {
    var p := LowerBound(s, s[i]);
    LowerBoundSplits(s, s[i]);
  }

  lemma OrderedRemoved<V>(s: seq<TimedNode<V>>, i: nat)
    requires Ordered(s) && i < |s|
    ensures Ordered(Removed(s, i)) && NoRepeats(s)
  {
    RemovedAt(s, i);
    forall a, b | 0 <= a < b < |s| ensures s[a] != s[b] {
      assert Before(s[a], s[b]);
    }
  }

  /** Inserting a node whose key is not among those of the list keeps it ordered. */
  lemma OrderedInserted<V>(s: seq<TimedNode<V>>, n: TimedNode<V>)
    requires Ordered(s) && forall m :: m in s ==> m.key != n.key
    ensures Ordered(Inserted(s, n)) && |Inserted(s, n)| == |s| + 1
    ensures forall m :: m in Inserted(s, n) <==> m == n || m in s
  {
    var p := LowerBound(s, n);
    LowerBoundSplits(s, n);
    if p < |s| { assert s[p] in s; }
    var t := s[..p] + [n] + s[p..];
    forall i | p <= i < |s| ensures Before(n, s[i]) {
      assert s[i] in s;
      if i > p { assert Before(s[p], s[i]); }
    }
    PlacedOrdered(s, p, n);
    PlacedMembers(s, p, n);
  }

  lemma PlacedOrdered<V>(s: seq<TimedNode<V>>, p: nat, n: TimedNode<V>)
    requires Ordered(s) && p <= |s|
    requires forall i :: 0 <= i < p ==> Before(s[i], n)
    requires forall i :: p <= i < |s| ==> Before(n, s[i])
    ensures Ordered(s[..p] + [n] + s[p..])
  {
  }

  lemma PlacedMembers<T>(s: seq<T>, p: nat, n: T)
    requires p <= |s|
    ensures forall m :: m in s[..p] + [n] + s[p..] <==> m == n || m in s
  {
    assert s == s[..p] + s[p..];
  }

  /** Why a node must leave the set before its time changes. In a set that is ordered but for the
      node at i, whose time was changed in place, a search from the start still finds that node
      exactly if it comes after its predecessor. Else the erase does nothing, the stale entry stays,
      and inserting again puts the node into the set twice. */
  lemma ChangeBeforeErase<V>(s: seq<TimedNode<V>>, i: nat)
    requires i < |s| && Ordered(Removed(s, i))
    requires forall j :: 0 <= j < |s| && j != i ==> s[j].key != s[i].key
    ensures var found := i == 0 || Before(s[i - 1], s[i]);
      && (found ==> Erased(s, s[i]) == Removed(s, i))
      && (!found ==>
            var t := Inserted(s, s[i]);
            Erased(s, s[i]) == s && exists p, q :: 0 <= p < q < |t| && t[p] == t[q] == s[i])
  {
    var p := LowerBound(s, s[i]);
    LowerBoundSplits(s, s[i]);
    if i == 0 || Before(s[i - 1], s[i]) {
      AllBefore(s, i);
      assert p == i;
    } else {
      assert p < i && s[p].key != s[i].key;
      var t := s[..p] + [s[i]] + s[p..];
      assert Inserted(s, s[i]) == t;
      assert t[p] == t[i + 1] == s[i];
    }
  }

  lemma AllBefore<V>(s: seq<TimedNode<V>>, i: nat)
    requires i < |s| && Ordered(Removed(s, i)) && (i > 0 ==> Before(s[i - 1], s[i]))
    ensures forall j :: 0 <= j < i ==> Before(s[j], s[i])
  {
    var r := Removed(s, i);
    RemovedAt(s, i);
    forall j | 0 <= j < i ensures Before(s[j], s[i]) {
      if j < i - 1 { assert Before(r[j], r[i - 1]); }
    }
  }

  // ---- expiry as a filter on the recency list -------------------------------------------------

  /** The entries that expire later than t, in their order. */
  ghost function Unexpired<V>(s: seq<TimedItem<V>>, t: U64): seq<TimedItem<V>> {
    if s == [] then [] else (if s[0].val.ts <= t then [] else [s[0]]) + Unexpired(s[1..], t)
  }

  lemma {:induction false} UnexpiredConcat<V>(a: seq<TimedItem<V>>, b: seq<TimedItem<V>>, t: U64)
    ensures Unexpired(a + b, t) == Unexpired(a, t) + Unexpired(b, t)
  {
    if a == [] {
      assert a + b == b;
    } else {
      assert (a + b)[1..] == a[1..] + b;
      UnexpiredConcat(a[1..], b, t);
    }
  }

  lemma UnexpiredRemoved<V>(s: seq<TimedItem<V>>, i: nat, t: U64)
    requires i < |s| && s[i].val.ts <= t
    ensures Unexpired(Removed(s, i), t) == Unexpired(s, t)
  {
    var x := s[i..i + 1];
    assert s == s[..i] + (x + s[i + 1..]);
    UnexpiredConcat(s[..i], x + s[i + 1..], t);
    UnexpiredConcat(x, s[i + 1..], t);
    UnexpiredConcat(s[..i], s[i + 1..], t);
    assert Unexpired(x, t) == [];
  }

  lemma {:induction false} AllUnexpired<V>(s: seq<TimedItem<V>>, t: U64)
    requires forall i :: 0 <= i < |s| ==> s[i].val.ts > t
    ensures Unexpired(s, t) == s
  {
    if s != [] { AllUnexpired(s[1..], t); }
  }

  lemma {:induction false} UnexpiredMembers<V>(s: seq<TimedItem<V>>, t: U64, x: TimedItem<V>)
    ensures x in Unexpired(s, t) <==> x in s && x.val.ts > t
  {
    if s != [] {
      assert s == [s[0]] + s[1..];
      UnexpiredMembers(s[1..], t, x);
    }
  }

  // ---- the cache ----------------------------------------------------------------------------------

  /** The ordered set holds exactly the nodes of the recency list. */
  ghost predicate Timed<V>(keys: seq<TimedNode<V>>, timed: seq<TimedNode<V>>)
    reads timed
  {
    && Ordered(timed) && |timed| == |keys|
    && (forall n :: n in timed ==> n in keys)
    && (forall n :: n in keys ==> n in timed)
  }

  /** Erasing a node from the ordered set takes out it alone; the rest have other keys. */
  lemma TimedErased<V>(cache: map<int, TimedNode<V>>, keys: seq<TimedNode<V>>, timed: seq<TimedNode<V>>, i: nat)
    requires Timed(keys, timed) && Indexed(cache, keys) && i < |keys|
    ensures Timed(Removed(keys, i), Erased(timed, keys[i]))
    ensures forall m :: m in Erased(timed, keys[i]) ==> m != keys[i] && m.key != keys[i].key
  {
    assert keys[i] in timed;
    var j :| 0 <= j < |timed| && timed[j] == keys[i];
    hide NoRepeats, Ordered, Removed, Erased;
    ErasedExactly(timed, j);
    OrderedRemoved(timed, j);
    SameRemoved(keys, timed, i, j);
    assert Timed(Removed(keys, i), Removed(timed, j));
    assert keys[i] in keys;
  }

  lemma SameRemoved<T>(s: seq<T>, t: seq<T>, i: nat, j: nat)
    requires NoRepeats(s) && NoRepeats(t) && i < |s| == |t| && j < |t| && s[i] == t[j]
    requires forall x :: x in s <==> x in t
    ensures |Removed(s, i)| == |Removed(t, j)|
    ensures forall x :: x in Removed(s, i) <==> x in Removed(t, j)
    ensures forall x :: x in Removed(t, j) ==> x in s && x != s[i]
  {
    RemovedMembers(s, i);
    RemovedMembers(t, j);
    RemovedAt(s, i);
    RemovedAt(t, j);
  }

  /** A node put back into the ordered set with any time. */
  lemma TimedReturned<V>(keys: seq<TimedNode<V>>, timed: seq<TimedNode<V>>, i: nat)
    requires i < |keys| && NoRepeats(keys) && Timed(Removed(keys, i), timed)
    requires forall m :: m in timed ==> m.key != keys[i].key
    ensures Timed(keys, Inserted(timed, keys[i]))
  {
    OrderedInserted(timed, keys[i]);
    RemovedMembers(keys, i);
    RemovedAt(keys, i);
    hide NoRepeats, Ordered, Removed, Inserted;
  }

  lemma FrontPosition<V>(view: seq<TimedItem<V>>, i: nat)
    requires Distinct(view) && i < |view| && view[0].key == view[i].key
    ensures i == 0
  {
  }

  lemma TimedInserted<V>(cache: map<int, TimedNode<V>>, keys: seq<TimedNode<V>>, timed: seq<TimedNode<V>>, n: TimedNode<V>)
    requires Timed(keys, timed) && Indexed(cache, keys) && n.key !in cache
    ensures Timed([n] + keys, Inserted(timed, n))
  {
    OrderedInserted(timed, n);
  }

  class TimedLruCache<V> {
    var cache: map<int, TimedNode<V>>
    var keys: seq<TimedNode<V>>
    var timed: seq<TimedNode<V>>
    var maxSize: U64
    var elasticity: U64
    ghost var view: seq<TimedItem<V>>      // the recency list as values
    ghost var evicted: seq<TimedItem<V>>   // the arguments of the prune callback so far

    ghost predicate Valid()
      reads this, keys, timed
    {
      Indexed(cache, keys) && Shows(keys, view) && Timed(keys, timed)
    }

    constructor (maxSize: U64, elasticity: U64)
      ensures Valid() && view == [] && evicted == [] && keys == []
      ensures this.maxSize == maxSize && this.elasticity == elasticity
    {
      cache, keys, timed, view, evicted := map[], [], [], [], [];
      this.maxSize, this.elasticity := maxSize, elasticity;
    }

    /** Moves a node of the list to the front. */
    method Splice(n: TimedNode<V>)
      requires Valid() && n in keys
      modifies this`keys, this`view
      ensures Valid() && view == [Item(n.key, n.val)] + Without(old(view), n.key)
      ensures forall m :: m in keys <==> m in old(keys)
    {
      hide Indexed, Shows, Distinct, Ordered;
      ghost var i := Position(cache, keys, view, n);
      IndexedMoved(cache, keys, i);
      ShowsMoved(keys, view, i);
      keys := [n] + Unlink(keys, n);
      view := [Item(n.key, n.val)] + Without(view, n.key);
    }

    /** Sets a value that expires `expired` milliseconds after `now` (64-bit arithmetic). */
    method Set(k: int, v: V, expired: U64, now: U64)
      requires Valid()
      modifies this, keys
      ensures Valid() && maxSize == old(maxSize) && elasticity == old(elasticity)
      ensures var x := Stamped(v, (expired + now) % 0x1_0000_0000_0000_0000);
        && view == Step(old(view), Op.Set(k, x), maxSize, elasticity)
        && (Has(old(view), k) ==> evicted == old(evicted) && view == [Item(k, x)] + Without(old(view), k))
      ensures !Has(old(view), k) ==>
        var s := [Item(k, Stamped(v, (expired + now) % 0x1_0000_0000_0000_0000))] + old(view);
        var n := |old(view)| + 1;
        && view == (if maxSize == 0 || n < (maxSize + elasticity) % 0x1_0000_0000_0000_0000 || n <= maxSize then s else s[..maxSize])
        && |evicted| == |old(evicted)| + n - |view| && old(evicted) <= evicted
        && forall i :: |old(evicted)| <= i < |evicted| ==> evicted[i] == s[n - 1 - (i - |old(evicted)|)]
      ensures forall m :: m in keys ==> m in old(keys) || fresh(m)
    {
      hide Indexed, Shows, Distinct, Has, Pruned, FromBack, Timed, Inserted;
      var ts := (expired + now) % 0x1_0000_0000_0000_0000;
      Agree(cache, keys, view, k);
      if k in cache {
        var n := cache[k];
        NamedKey(cache, keys, k);
        Restamp(n, v, ts);
        return;
      }
      var n := new Node(k, Stamped(v, ts));
      IndexedAdded(cache, keys, n);
      ShowsAdded(keys, view, n);
      TimedInserted(cache, keys, timed, n);
      keys := [n] + keys;
      view := [Item(k, Stamped(v, ts))] + view;
      cache := cache[k := n];
      timed := Inserted(timed, n);
      var _ := Prune();
    }

    /** Setting a present key: to the front of the list, out of the ordered set, new value and
        time, back into the ordered set. */
    method Restamp(n: TimedNode<V>, v: V, ts: U64)
      requires Valid() && n in keys
      modifies this`keys, this`view, this`timed, n
      ensures Valid() && view == [Item(n.key, Stamped(v, ts))] + Without(old(view), n.key)
      ensures forall m :: m in keys <==> m in old(keys)
    {
      hide Indexed, Distinct, Timed, Shows, Without;
      Splice(n);
      ghost var i := Position(cache, keys, view, n);
      FrontPosition(view, i);
      TimedErased(cache, keys, timed, i);
      timed := Erased(timed, n);
      Stamp(n, v, ts);
    }

    /** The first node of the list, which the ordered set lacks. */
    ghost predicate OutOfSet(n: TimedNode<V>)
      reads this, keys, timed
    {
      && Indexed(cache, keys) && Shows(keys, view)
      && keys != [] && keys[0] == n && Timed(Removed(keys, 0), timed)
      && forall m :: m in timed ==> m != n && m.key != n.key
    }

    method Stamp(n: TimedNode<V>, v: V, ts: U64)
      requires OutOfSet(n)
      modifies this`view, this`timed, n
      ensures Valid() && old(view) != [] && view == [Item(n.key, Stamped(v, ts))] + old(view)[1..]
    {
      hide Indexed, Timed, Inserted, Removed;
      IndexedNoRepeats(cache, keys);
      assert forall j :: 0 < j < |keys| ==> keys[j] != n;
      hide NoRepeats;
      n.val := Stamped(v, ts);
      view := [Item(n.key, n.val)] + view[1..];
      TimedReturned(keys, timed, 0);
      timed := Inserted(timed, n);
    }

    method Get(k: int) returns (r: Option<V>)
      requires Valid()
      modifies this`keys, this`view
      ensures Valid()
      ensures r == match Lookup(old(view), k) case Some(x) => Memory.Some(x.val) case None => Memory.None
      ensures view == Step(old(view), Op.Get(k), maxSize, elasticity)
      ensures forall m :: m in keys <==> m in old(keys)
    {
      hide Indexed, Shows, Distinct, Lookup, Timed;
      Agree(cache, keys, view, k);
      if k !in cache {
        return Memory.None;
      }
      NamedKey(cache, keys, k);
      Splice(cache[k]);
      return Memory.Some(cache[k].val.val);
    }

    /** Takes a node out of all three structures. */
    method Drop(n: TimedNode<V>)
      requires Valid() && n in keys
      modifies this`cache, this`keys, this`view, this`timed
      ensures Valid() && view == Without(old(view), n.key)
      ensures timed == Erased(old(timed), n)
      ensures forall m :: m in keys ==> m in old(keys)
    {
      hide Shows, Distinct, Timed, Names;
      ghost var i := Position(cache, keys, view, n);
      TimedErased(cache, keys, timed, i);
      IndexedRemoved(cache, keys, i);
      ShowsRemoved(keys, view, i);
      timed := Erased(timed, n);
      keys := Unlink(keys, n);
      cache := cache - {n.key};
      view := Without(view, n.key);
    }

    method Del(k: int) returns (b: bool)
      requires Valid()
      modifies this`cache, this`keys, this`view, this`timed
      ensures Valid() && b == Has(old(view), k)
      ensures view == Step(old(view), Op.Del(k), maxSize, elasticity)
      ensures forall m :: m in keys ==> m in old(keys)
    {
      hide Indexed, Shows, Distinct, Has, Timed;
      Agree(cache, keys, view, k);
      if k !in cache {
        return false;
      }
      NamedKey(cache, keys, k);
      Drop(cache[k]);
      return true;
    }

    method Clear()
      requires Valid()
      modifies this`cache, this`keys, this`view, this`timed
      ensures Valid() && view == Step(old(view), Op.Clear, maxSize, elasticity) && keys == []
    {
      cache, keys, timed, view := map[], [], [], [];
    }

    lemma Sizes()
      requires Valid()
      ensures |cache| == |keys| == |view| == |timed|
    {
    }

    /** Drops the entries that expire by ts, reporting each to the callback in order of expiry;
        returns how many. */
    method CheckTimeout(ts: U64) returns (size: nat)
      requires Valid()
      modifies this`cache, this`keys, this`view, this`timed, this`evicted
      ensures Valid() && view == Unexpired(old(view), ts)
      ensures forall x :: x in view <==> x in old(view) && x.val.ts > ts
      ensures size == |old(view)| - |view| == |evicted| - |old(evicted)| && old(evicted) <= evicted
      ensures forall i :: |old(evicted)| <= i < |evicted| ==> evicted[i] in old(view) && evicted[i].val.ts <= ts
      ensures forall i, j :: |old(evicted)| <= i < j < |evicted| ==>
        evicted[i].val.ts < evicted[j].val.ts || (evicted[i].val.ts == evicted[j].val.ts && evicted[i].key < evicted[j].key)
      ensures forall m :: m in keys ==> m in old(keys)
    {
      hide Indexed, Shows, Timed, Unexpired, Expelled;
      size := ExpireAll(ts);
      ExpelledParts(old(evicted), evicted, old(view), ts);
      forall x ensures x in view <==> x in old(view) && x.val.ts > ts { UnexpiredMembers(old(view), ts, x); }
    }

    /** Walks the ordered set from its start and stops at the first node that does not expire. */
    method ExpireAll(ts: U64) returns (size: nat)
      requires Valid()
      modifies this`cache, this`keys, this`view, this`timed, this`evicted
      ensures Valid() && view == Unexpired(old(view), ts)
      ensures size == |old(view)| - |view| == |evicted| - |old(evicted)|
      ensures old(evicted) <= evicted && Expelled(evicted[|old(evicted)|..], old(view), ts)
      ensures forall m :: m in keys ==> m in old(keys)
    {
      hide Indexed, Shows, Timed, Unexpired, Expelling, Expelled;
      size := 0;
      Sizes();
      ghost var s, log := view, [];
      NothingExpelled(s, ts);
      while timed != []
        invariant Valid() && |timed| == |view|
        invariant Unexpired(view, ts) == Unexpired(s, ts) && Expelling(log, s, view, ts)
        invariant size == |s| - |view| == |log| && evicted == old(evicted) + log
        invariant forall m :: m in keys ==> m in old(keys)
        decreases |timed|
      {
        FirstLinked(keys, timed);
        if timed[0].val.ts <= ts {
          ghost var i := FirstLeast(cache, keys, timed, view);
          ExpelledOne(log, s, view, i, ts);
          UnexpiredRemoved(view, i, ts);
          LogOne(old(evicted), log, view[i]);
          log := log + [view[i]];
          ExpireFirst(i);
          size := size + 1;
        } else {
          LaterThanFirst(keys, timed, view, ts);
          AllUnexpired(view, ts);
          AllExpelled(log, s, view, ts);
          LogEnd(old(evicted), log);
          return;
        }
      }
      AllUnexpired(view, ts);
      AllExpelled(log, s, view, ts);
      LogEnd(old(evicted), log);
    }

    /** One round of the timeout check: callback, then out of all three structures. */
    method ExpireFirst(ghost i: nat)
      requires Valid() && timed != [] && timed[0] in keys && i < |view| && view[i] == Item(timed[0].key, timed[0].val)
      modifies this`cache, this`keys, this`view, this`timed, this`evicted
      ensures Valid() && view == Removed(old(view), i) && |timed| == |view| == |old(view)| - 1
      ensures evicted == old(evicted) + [old(view)[i]]
      ensures forall m :: m in keys ==> m in old(keys)
    {
      hide Indexed, Shows, Timed;
      var first := timed[0];
      EntryAt(cache, keys, view, first, i);
      evicted := evicted + [Item(first.key, first.val)];
      Drop(first);
      Sizes();
    }

    /** Drops least recent entries, reporting each to the callback, once the allowed size is
        reached; returns how many. */
    method Prune() returns (count: nat)
      requires Valid()
      modifies this`cache, this`keys, this`view, this`timed, this`evicted
      ensures Valid() && view == Pruned(old(view), maxSize, elasticity)
      ensures view ==
        if maxSize == 0 || |old(view)| < (maxSize + elasticity) % 0x1_0000_0000_0000_0000 || |old(view)| <= maxSize
        then old(view) else old(view)[..maxSize]
      ensures count == |old(view)| - |view| == |evicted| - |old(evicted)| && old(evicted) <= evicted
      ensures forall i :: |old(evicted)| <= i < |evicted| ==> evicted[i] == old(view)[|old(view)| - 1 - (i - |old(evicted)|)]
      ensures forall m :: m in keys ==> m in old(keys)
    {
      hide Indexed, Shows, Timed, FromBack;
      count := CutBack();
      LogParts(old(evicted), evicted, old(view), |view|);
    }

    method CutBack() returns (count: nat)
      requires Valid()
      modifies this`cache, this`keys, this`view, this`timed, this`evicted
      ensures Valid() && view == Pruned(old(view), maxSize, elasticity)
      ensures evicted == old(evicted) + FromBack(old(view), |view|)
      ensures count == |old(view)| - |view|
      ensures forall m :: m in keys ==> m in old(keys)
    {
      hide Indexed, Shows, Timed, FromBack;
      Sizes();
      if maxSize == 0 || |cache| < (maxSize + elasticity) % 0x1_0000_0000_0000_0000 {
        FromBackEnd(view, |view|, evicted);
        return 0;
      }
      ghost var s, before := view, evicted;
      count := 0;
      WholeList(s);
      while |cache| > maxSize
        invariant Valid() && |cache| == |view| <= |s| && view == s[..|view|]
        invariant maxSize <= |view| || |view| == |s|
        invariant count == |s| - |view|
        invariant before + FromBack(s, maxSize) == evicted + FromBack(view, maxSize)
        invariant forall m :: m in keys ==> m in old(keys)
      {
        FromBackNext(view, maxSize, evicted);
        ShorterPrefix(s, |view|);
        PopBack();
        count := count + 1;
      }
      FromBackEnd(view, maxSize, evicted);
      FromBackWhole(s, |view|, maxSize);
    }

    /** One round of pruning: callback, then out of all three structures. */
    method PopBack()
      requires Valid() && |cache| > 0
      modifies this`cache, this`keys, this`view, this`timed, this`evicted
      ensures Valid() && old(view) != [] && view == old(view)[..|old(view)| - 1] && |cache| == |view|
      ensures evicted == old(evicted) + [old(view)[|old(view)| - 1]]
      ensures forall m :: m in keys ==> m in old(keys)
    {
      hide Indexed, Shows, Timed;
      Sizes();
      var back := keys[|keys| - 1];
      BackEntry(cache, keys, view);
      evicted := evicted + [Item(back.key, back.val)];
      Drop(back);
      Sizes();
    }
  }

  // ---- what the timeout check reports -----------------------------------------------------------

  /** Entries in the order of the set. */
  ghost predicate EarlierItem<V>(x: TimedItem<V>, y: TimedItem<V>) {
    x.val.ts < y.val.ts || (x.val.ts == y.val.ts && x.key < y.key)
  }

  /** The entries of s that expire by t, each once, in order of expiry. */
  ghost predicate Expelled<V>(log: seq<TimedItem<V>>, s: seq<TimedItem<V>>, t: U64) {
    && (forall i, j :: 0 <= i < j < |log| ==> EarlierItem(log[i], log[j]))
    && (forall i :: 0 <= i < |log| ==> log[i] in s && log[i].val.ts <= t)
    && (forall i :: 0 <= i < |s| && s[i].val.ts <= t ==> s[i] in log)
  }

  /** On the way there: the view still holds what is not in the log, all of it later. */
  ghost predicate Expelling<V>(log: seq<TimedItem<V>>, s: seq<TimedItem<V>>, view: seq<TimedItem<V>>, t: U64) {
    && (forall i, j :: 0 <= i < j < |log| ==> EarlierItem(log[i], log[j]))
    && (forall i :: 0 <= i < |log| ==> log[i] in s && log[i].val.ts <= t)
    && (forall i :: 0 <= i < |view| ==> view[i] in s)
    && (forall i :: 0 <= i < |s| ==> s[i] in log || s[i] in view)
    && (forall i, j :: 0 <= i < |log| && 0 <= j < |view| ==> EarlierItem(log[i], view[j]))
  }

  lemma NothingExpelled<V>(s: seq<TimedItem<V>>, t: U64)
    ensures Expelling([], s, s, t)
  {
  }

  /** The least entry of the view moves to the log. */
  lemma ExpelledOne<V>(log: seq<TimedItem<V>>, s: seq<TimedItem<V>>, view: seq<TimedItem<V>>, i: nat, t: U64)
    requires Expelling(log, s, view, t) && i < |view| && view[i].val.ts <= t
    requires forall j :: 0 <= j < |view| && j != i ==> EarlierItem(view[i], view[j])
    ensures Expelling(log + [view[i]], s, Removed(view, i), t)
  {
    RemovedAt(view, i);
    StillThere(log, view, i);
    hide Removed;
  }

  lemma StillThere<T>(log: seq<T>, view: seq<T>, i: nat)
    requires i < |view|
    ensures forall x :: x in log || x in view ==> x in log + [view[i]] || x in Removed(view, i)
  {
    var u, r := log + [view[i]], Removed(view, i);
    RemovedAt(view, i);
    forall x | x in log || x in view ensures x in u || x in r {
      if x in log {
        var a :| 0 <= a < |log| && log[a] == x;
        assert u[a] == x;
      } else {
        var a :| 0 <= a < |view| && view[a] == x;
        if a == i { assert u[|log|] == x; } else { assert r[if a < i then a else a - 1] == x; }
      }
    }
  }

  lemma AllExpelled<V>(log: seq<TimedItem<V>>, s: seq<TimedItem<V>>, view: seq<TimedItem<V>>, t: U64)
    requires Expelling(log, s, view, t) && forall i :: 0 <= i < |view| ==> view[i].val.ts > t
    ensures Expelled(log, s, t)
  {
  }

  /** The log after a timeout check, entry by entry. */
  lemma ExpelledParts<V>(before: seq<TimedItem<V>>, after: seq<TimedItem<V>>, s: seq<TimedItem<V>>, t: U64)
    requires before <= after && Expelled(after[|before|..], s, t)
    ensures forall i :: |before| <= i < |after| ==> after[i] in s && after[i].val.ts <= t
    ensures forall i, j :: |before| <= i < j < |after| ==>
      after[i].val.ts < after[j].val.ts || (after[i].val.ts == after[j].val.ts && after[i].key < after[j].key)
  {
    var log := after[|before|..];
    assert forall i :: |before| <= i < |after| ==> after[i] == log[i - |before|];
  }

  lemma LogOne<T>(before: seq<T>, log: seq<T>, x: T)
    ensures (before + log) + [x] == before + (log + [x])
  {
  }

  lemma LogEnd<T>(before: seq<T>, log: seq<T>)
    ensures before <= before + log && (before + log)[|before|..] == log
  {
  }

  /** The first node of the ordered set shows the least entry of the view. */
  lemma FirstLeast<V>(cache: map<int, TimedNode<V>>, keys: seq<TimedNode<V>>, timed: seq<TimedNode<V>>, view: seq<TimedItem<V>>)
    returns (i: nat)
    requires Indexed(cache, keys) && Shows(keys, view) && Timed(keys, timed) && timed != []
    ensures i < |view| && view[i] == Item(timed[0].key, timed[0].val)
    ensures forall j :: 0 <= j < |view| && j != i ==> EarlierItem(view[i], view[j])
  {
    hide Indexed;
    i := Position(cache, keys, view, timed[0]);
    forall j | 0 <= j < |view| && j != i ensures EarlierItem(view[i], view[j]) {
      assert keys[j] in timed;
      var a :| 0 <= a < |timed| && timed[a] == keys[j];
      assert Before(timed[0], timed[a]);
    }
  }

  /** Removing a node's key from the view removes its entry. */
  lemma EntryAt<V>(cache: map<int, TimedNode<V>>, keys: seq<TimedNode<V>>, view: seq<TimedItem<V>>, n: TimedNode<V>, i: nat)
    requires Indexed(cache, keys) && Shows(keys, view) && n in keys && i < |view| && view[i].key == n.key
    ensures Without(view, n.key) == Removed(view, i) && |Removed(view, i)| == |view| - 1
  {
    hide Indexed, Shows;
    var j := Position(cache, keys, view, n);
    SamePlace(view, i, j);
    RemovedAt(view, i);
  }

  lemma SamePlace<V>(view: seq<TimedItem<V>>, i: nat, j: nat)
    requires Distinct(view) && i < |view| && j < |view| && view[i].key == view[j].key
    ensures i == j
  {
  }

  /** The least recent node: dropping it shortens the view by its last entry. */
  lemma BackEntry<V>(cache: map<int, TimedNode<V>>, keys: seq<TimedNode<V>>, view: seq<TimedItem<V>>)
    requires Indexed(cache, keys) && Shows(keys, view) && keys != []
    ensures |view| == |keys| && Without(view, keys[|keys| - 1].key) == view[..|view| - 1]
    ensures view[|view| - 1] == Item(keys[|keys| - 1].key, keys[|keys| - 1].val) && keys[|keys| - 1] in keys
  {
    var i := Position(cache, keys, view, keys[|keys| - 1]);
    LastRemoved(view);
  }

  lemma FirstLinked<V>(keys: seq<TimedNode<V>>, timed: seq<TimedNode<V>>)
    requires Timed(keys, timed) && timed != []
    ensures timed[0] in keys
  {
  }

  lemma IndexedNoRepeats<V>(cache: map<int, TimedNode<V>>, keys: seq<TimedNode<V>>)
    requires Indexed(cache, keys)
    ensures NoRepeats(keys)
  {
  }

  /** If the first node of the ordered set expires after ts, all entries do. */
  lemma LaterThanFirst<V>(keys: seq<TimedNode<V>>, timed: seq<TimedNode<V>>, view: seq<TimedItem<V>>, ts: U64)
    requires Shows(keys, view) && Timed(keys, timed) && timed != [] && timed[0].val.ts > ts
    ensures forall i :: 0 <= i < |view| ==> view[i].val.ts > ts
  {
    forall i | 0 <= i < |view| ensures view[i].val.ts > ts {
      assert keys[i] in timed;
      var j :| 0 <= j < |timed| && timed[j] == keys[i];
      if j > 0 { assert Before(timed[0], timed[j]); }
    }
  }
}
