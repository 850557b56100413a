/** The LRU cache as a pure machine on its recency list, most recent entry first, and what any
    sequence of operations makes of it. */
module LruSpec {
  import opened Memory

  datatype Item<K, V> = Item(key: K, val: V)

  ghost predicate Has<K, V>(s: seq<Item<K, V>>, k: K) {
    exists i :: 0 <= i < |s| && s[i].key == k
  }

  ghost predicate Distinct<K, V>(s: seq<Item<K, V>>) {
    forall i, j :: 0 <= i < j < |s| ==> s[i].key != s[j].key
  }

  /** The list without the entry of key k. */
  ghost function Without<K, V>(s: seq<Item<K, V>>, k: K): (t: seq<Item<K, V>>)
    ensures |t| <= |s| && (!Has(s, k) ==> t == s)
    ensures forall x :: x in t ==> x in s
  {
    if s == [] then []
    else if s[0].key == k then s[1..]
    else
      assert Has(s[1..], k) ==> Has(s, k) by {
        if Has(s[1..], k) { var i :| 0 <= i < |s[1..]| && s[1..][i].key == k; assert s[i + 1].key == k; }
      }
      [s[0]] + Without(s[1..], k)
  }

  ghost function Lookup<K, V>(s: seq<Item<K, V>>, k: K): Option<V> {
    if s == [] then None else if s[0].key == k then Some(s[0].val) else Lookup(s[1..], k)
  }

  /** `m_maxSize + m_elasticity` in 64-bit arithmetic. */
  ghost function Allowed(max: U64, elasticity: U64): U64 {
    (max + elasticity) % 0x1_0000_0000_0000_0000
  }

  /** Pruning: nothing below the allowed size, else the least recent entries beyond `max` go. */
  ghost function Pruned<K, V>(s: seq<Item<K, V>>, max: U64, elasticity: U64): seq<Item<K, V>> {
    if max == 0 || |s| < Allowed(max, elasticity) then s
    else if |s| > max then s[..max]
    else s
  }

  datatype Op<K, V> = Set(k: K, v: V) | Get(k: K) | Del(k: K) | Clear

  ghost function Step<K, V>(s: seq<Item<K, V>>, op: Op<K, V>, max: U64, elasticity: U64): seq<Item<K, V>> {
    match op
    case Set(k, v) =>
      if Has(s, k) then [Item(k, v)] + Without(s, k) else Pruned([Item(k, v)] + s, max, elasticity)
    case Get(k) =>
      (match Lookup(s, k) case Some(v) => [Item(k, v)] + Without(s, k) case None => s)
    case Del(k) => Without(s, k)
    case Clear => []
  }

  ghost function RunFrom<K, V>(s: seq<Item<K, V>>, t: seq<Op<K, V>>, max: U64, elasticity: U64): seq<Item<K, V>> {
    if t == [] then s
    else Step(RunFrom(s, t[..|t| - 1], max, elasticity), t[|t| - 1], max, elasticity)
  }

  /** The recency list after the operations t on an empty cache. */
  ghost function Run<K, V>(t: seq<Op<K, V>>, max: U64, elasticity: U64): seq<Item<K, V>> {
    RunFrom([], t, max, elasticity)
  }

  lemma {:induction false} RunConcat<K, V>(s: seq<Item<K, V>>, t: seq<Op<K, V>>, u: seq<Op<K, V>>, max: U64, elasticity: U64)
    ensures RunFrom(s, t + u, max, elasticity) == RunFrom(RunFrom(s, t, max, elasticity), u, max, elasticity)
  {
    if u == [] {
      assert t + u == t;
    } else {
      var n := |u| - 1;
      assert (t + u)[..|t| + n] == t + u[..n];
      RunConcat(s, t, u[..n], max, elasticity);
    }
  }

  // ---- list facts -----------------------------------------------------------------------------

  lemma HasTail<K, V>(s: seq<Item<K, V>>, k: K)
    requires s != []
    ensures Has(s, k) <==> s[0].key == k || Has(s[1..], k)
  {
    if Has(s, k) && s[0].key != k {
      var i :| 0 <= i < |s| && s[i].key == k;
      assert s[1..][i - 1].key == k;
    }
    if Has(s[1..], k) {
      var i :| 0 <= i < |s[1..]| && s[1..][i].key == k;
      assert s[i + 1].key == k;
    }
  }

  lemma {:induction false} LookupHas<K, V>(s: seq<Item<K, V>>, k: K)
    ensures Lookup(s, k).Some? <==> Has(s, k)
    ensures Lookup(s, k).Some? ==> Item(k, Lookup(s, k).value) in s
  {
    if s != [] {
      HasTail(s, k);
      LookupHas(s[1..], k);
    }
  }

  lemma {:induction false} LookupIs<K, V>(s: seq<Item<K, V>>, x: Item<K, V>)
    requires Distinct(s) && x in s
    ensures Lookup(s, x.key) == Some(x.val)
  {
    if s[0] != x {
      var i :| 0 <= i < |s| && s[i] == x;
      assert s[0].key != s[i].key;
      assert x in s[1..];
      LookupIs(s[1..], x);
    }
  }

  lemma {:induction false} WithoutKeys<K, V>(s: seq<Item<K, V>>, k: K, j: K)
    requires Distinct(s)
    ensures Has(Without(s, k), j) <==> Has(s, j) && j != k
    ensures Lookup(Without(s, k), j) == if j == k then None else Lookup(s, j)
    ensures Has(s, k) ==> |Without(s, k)| == |s| - 1
  {
    if s != [] {
      HasTail(s, j);
      HasTail(s, k);
      if s[0].key == k {
        LookupHas(s[1..], j);
        FrontDistinct(s);
      } else {
        WithoutKeys(s[1..], k, j);
        var w := Without(s[1..], k);
        HasTail([s[0]] + w, j);
        assert ([s[0]] + w)[1..] == w;
      }
    }
  }

  lemma {:induction false} WithoutDistinct<K, V>(s: seq<Item<K, V>>, k: K)
    requires Distinct(s)
    ensures Distinct(Without(s, k)) && !Has(Without(s, k), k)
  {
    WithoutKeys(s, k, k);
    if s != [] && s[0].key != k {
      WithoutDistinct(s[1..], k);
      WithoutKeys(s[1..], k, s[0].key);
      HasTail(s, s[0].key);
      FrontDistinct(s);
      ConsDistinct(s[0], Without(s[1..], k));
    }
  }

  lemma FrontDistinct<K, V>(s: seq<Item<K, V>>)
    requires Distinct(s) && s != []
    ensures !Has(s[1..], s[0].key)
  {
    assert forall i :: 0 <= i < |s[1..]| ==> s[1..][i] == s[i + 1];
  }

  lemma ConsDistinct<K, V>(x: Item<K, V>, s: seq<Item<K, V>>)
    requires Distinct(s) && !Has(s, x.key)
    ensures Distinct([x] + s)
  {
    var t := [x] + s;
    forall i, j | 0 <= i < j < |t| ensures t[i].key != t[j].key {
      assert t[j] == s[j - 1];
    }
  }

  lemma StepDistinct<K, V>(s: seq<Item<K, V>>, op: Op<K, V>, max: U64, elasticity: U64)
    requires Distinct(s)
    ensures Distinct(Step(s, op, max, elasticity))
  {
    match op
    case Set(k, v) =>
      if Has(s, k) {
        WithoutDistinct(s, k);
        ConsDistinct(Item(k, v), Without(s, k));
      } else {
        ConsDistinct(Item(k, v), s);
      }
    case Get(k) =>
      if Lookup(s, k).Some? {
        WithoutDistinct(s, k);
        ConsDistinct(Item(k, Lookup(s, k).value), Without(s, k));
      }
    case Del(k) => WithoutDistinct(s, k);
    case Clear =>
  }

  lemma {:induction false} RunDistinct<K, V>(t: seq<Op<K, V>>, max: U64, elasticity: U64)
    ensures Distinct(Run(t, max, elasticity))
  {
    if t != [] {
      RunDistinct(t[..|t| - 1], max, elasticity);
      StepDistinct(Run(t[..|t| - 1], max, elasticity), t[|t| - 1], max, elasticity);
    }
  }

  // ---- how far a list may grow --------------------------------------------------------------------

  /** How many entries past `max` a bounded list may reach before it is cut back. */
  ghost function Slack(max: U64, elasticity: U64): (e: nat)
    ensures e >= 1
  {
    if elasticity >= 1 && max + elasticity < 0x1_0000_0000_0000_0000 then elasticity else 1
  }

  /** Pruning depends on the bounds only through max and the slack. */
  lemma PrunedBySlack<K, V>(s: seq<Item<K, V>>, max: U64, elasticity: U64)
    ensures Pruned(s, max, elasticity) == if max == 0 || |s| < max + Slack(max, elasticity) then s else s[..max]
  {
    if |s| == max { assert s[..max] == s; }
  }

  /** The size bound: a bounded cache never holds max + slack entries. */
  lemma {:induction false} RunBounded<K, V>(t: seq<Op<K, V>>, max: U64, elasticity: U64)
    requires max > 0
    ensures |Run(t, max, elasticity)| < max + Slack(max, elasticity)
    ensures |Run(t, max, elasticity)| < max +
      if elasticity == 0 || max + elasticity >= 0x1_0000_0000_0000_0000 then 1 else elasticity
  {
    if t != [] {
      var s := Run(t[..|t| - 1], max, elasticity);
      RunBounded(t[..|t| - 1], max, elasticity);
      RunDistinct(t[..|t| - 1], max, elasticity);
      match t[|t| - 1]
      case Set(k, v) =>
        WithoutKeys(s, k, k);
        PrunedBySlack([Item(k, v)] + s, max, elasticity);
      case Get(k) =>
        WithoutKeys(s, k, k);
        LookupHas(s, k);
      case Del(k) =>
      case Clear =>
    }
  }

  // ---- the unbounded cache ----------------------------------------------------------------------

  /** What a plain map does with the same operations. */
  ghost function Model<K, V>(t: seq<Op<K, V>>): map<K, V> {
    if t == [] then map[] else
    var m := Model(t[..|t| - 1]);
    match t[|t| - 1]
    case Set(k, v) => m[k := v]
    case Get(k) => m
    case Del(k) => m - {k}
    case Clear => map[]
  }

  /** Without a bound the cache answers every lookup as the plain map does. */
  lemma {:induction false} Unbounded<K, V>(t: seq<Op<K, V>>, elasticity: U64, j: K)
    ensures Lookup(Run(t, 0, elasticity), j) == if j in Model(t) then Some(Model(t)[j]) else None
  {
    if t != [] {
      var p := t[..|t| - 1];
      var s := Run(p, 0, elasticity);
      Unbounded(p, elasticity, j);
      RunDistinct(p, 0, elasticity);
      match t[|t| - 1]
      case Set(k, v) =>
        WithoutKeys(s, k, j);
        LookupHas(s, k);
        ConsLookup(Item(k, v), Without(s, k), j);
        ConsLookup(Item(k, v), s, j);
      case Get(k) =>
        WithoutKeys(s, k, j);
        if Lookup(s, k).Some? { ConsLookup(Item(k, Lookup(s, k).value), Without(s, k), j); }
      case Del(k) =>
        WithoutKeys(s, k, j);
      case Clear =>
    }
  }

  lemma ConsLookup<K, V>(x: Item<K, V>, s: seq<Item<K, V>>, j: K)
    ensures Lookup([x] + s, j) == if x.key == j then Some(x.val) else Lookup(s, j)
  {
    assert ([x] + s)[1..] == s;
  }
}
