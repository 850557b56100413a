/** The LRU cache split into shards by hash: every shard is a cache object of its own with its
    share of the capacity. First the shards as values, then the class. */
module HashLruCaches {
  import opened Memory
  import opened LruSpec
  import opened LruInclusion
  import LruCaches

  /** `std::ceil(n * 1.0 / buckets)` in exact arithmetic. */
  function Share(n: U64, buckets: nat): U64
    requires buckets >= 1
  {
    ShareFits(n, buckets);
    (n + buckets - 1) / buckets
  }

  lemma ShareFits(n: U64, buckets: nat)
    requires buckets >= 1
    ensures 0 <= (n + buckets - 1) / buckets <= n
  {
    var q := (n + buckets - 1) / buckets;
    Quotient(n + buckets - 1, buckets);
    AtMost(q, n, buckets);
  }

  lemma AtMost(q: int, n: nat, b: nat)
    requires b >= 1 && q * b <= n + b - 1
    ensures q <= n
  {
    assert (n + 1) * b == n * (b - 1) + n + b;
    Times(n, 0, b - 1);
    if q > n {
      Times(q, n + 1, b);
    }
  }

  lemma Times(x: int, y: int, b: nat)
    requires x >= y
    ensures x * b >= y * b
  {
  }

  lemma Quotient(a: nat, b: nat)
    requires b >= 1
    ensures a / b * b <= a < a / b * b + b
  {
  }

  /** The shares make up at least the whole and less than one share too many, and only nothing is
      shared out as nothing: an unbounded cache has unbounded shards. */
  lemma Shares(n: U64, buckets: nat)
    requires buckets >= 1
    ensures n <= Share(n, buckets) * buckets < n + buckets
    ensures Share(n, buckets) == 0 <==> n == 0
    ensures buckets == 1 ==> Share(n, buckets) == n
  {
    Quotient(n + buckets - 1, buckets);
  }

  type Hash<!K> = K -> nat

  function ShardOf<K>(h: Hash<K>, buckets: nat, k: K): (i: nat)
    requires buckets >= 1
    ensures i < buckets
  {
    h(k) % buckets
  }

  type Shards<K, V> = seq<seq<Item<K, V>>>

  /** One call: the shard of the key makes a step; `clear` clears every shard. */
  ghost function ShardedStep<K, V>(h: Hash<K>, ss: Shards<K, V>, op: Op<K, V>, max: U64, elasticity: U64): (r: Shards<K, V>)
    requires |ss| >= 1
    ensures |r| == |ss|
  {
    if op.Clear? then seq(|ss|, i => []) else
    var i := ShardOf(h, |ss|, op.k);
    ss[i := Step(ss[i], op, Share(max, |ss|), Share(elasticity, |ss|))]
  }

  ghost function ShardedRun<K, V>(h: Hash<K>, buckets: nat, t: seq<Op<K, V>>, max: U64, elasticity: U64): (ss: Shards<K, V>)
    requires buckets >= 1
    ensures |ss| == buckets
  {
    if t == [] then seq(buckets, i => []) else
    ShardedStep(h, ShardedRun(h, buckets, t[..|t| - 1], max, elasticity), t[|t| - 1], max, elasticity)
  }

  /** The calls that reach shard i, in order. */
  ghost function Routed<K, V>(h: Hash<K>, buckets: nat, t: seq<Op<K, V>>, i: nat): seq<Op<K, V>>
    requires buckets >= 1
  {
    if t == [] then [] else
    var op := t[|t| - 1];
    var r := Routed(h, buckets, t[..|t| - 1], i);
    if op.Clear? || ShardOf(h, buckets, op.k) == i then r + [op] else r
  }

  lemma RunOne<K, V>(t: seq<Op<K, V>>, op: Op<K, V>, max: U64, elasticity: U64)
    ensures Run(t + [op], max, elasticity) == Step(Run(t, max, elasticity), op, max, elasticity)
  {
    assert (t + [op])[..|t|] == t;
  }

  /** Every shard is an LRU cache of its own, run on the calls that reach it. */
  lemma {:induction false} ShardRuns<K, V>(h: Hash<K>, buckets: nat, t: seq<Op<K, V>>, max: U64, elasticity: U64, i: nat)
    requires buckets >= 1 && i < buckets
    ensures ShardedRun(h, buckets, t, max, elasticity)[i] ==
      Run(Routed(h, buckets, t, i), Share(max, buckets), Share(elasticity, buckets))
  {
    if t != [] {
      var n := |t| - 1;
      hide Step, Share, ShardedStep, Run;
      ShardRuns(h, buckets, t[..n], max, elasticity, i);
      RunOne(Routed(h, buckets, t[..n], i), t[n], Share(max, buckets), Share(elasticity, buckets));
      StepAt(h, ShardedRun(h, buckets, t[..n], max, elasticity), t[n], max, elasticity, i);
    }
  }

  /** A call reaches shard i and is a step of it, or leaves it alone. */
  lemma StepAt<K, V>(h: Hash<K>, ss: Shards<K, V>, op: Op<K, V>, max: U64, elasticity: U64, i: nat)
    requires i < |ss|
    ensures ShardedStep(h, ss, op, max, elasticity)[i] ==
      if op.Clear? || ShardOf(h, |ss|, op.k) == i then Step(ss[i], op, Share(max, |ss|), Share(elasticity, |ss|)) else ss[i]
  {
    hide Share;
    ClearStep(ss[i], op, Share(max, |ss|), Share(elasticity, |ss|));
    hide Step;
  }

  lemma ClearStep<K, V>(s: seq<Item<K, V>>, op: Op<K, V>, max: U64, elasticity: U64)
    ensures op.Clear? ==> Step(s, op, max, elasticity) == []
  {
  }

  /** A call on key k reaches the shard of its hash modulo the number of shards, and no other. */
  lemma CallReaches<K, V>(h: Hash<K>, buckets: nat, t: seq<Op<K, V>>, op: Op<K, V>, max: U64, elasticity: U64, i: nat)
    requires buckets >= 1 && i < buckets
    ensures var s := ShardedRun(h, buckets, t, max, elasticity)[i];
      ShardedRun(h, buckets, t + [op], max, elasticity)[i] ==
        if op.Clear? then []
        else if h(op.k) % buckets == i then Step(s, op, Share(max, buckets), Share(elasticity, buckets))
        else s
  {
    NextOp(h, buckets, t, op, max, elasticity);
    var ss := ShardedRun(h, buckets, t, max, elasticity);
    ClearStep(ss[i], op, Share(max, buckets), Share(elasticity, buckets));
    hide Step, Share, ShardedRun;
    StepAt(h, ss, op, max, elasticity, i);
  }

  /** A step adds no key but its own. */
  lemma StepKeys<K, V>(s: seq<Item<K, V>>, op: Op<K, V>, max: U64, elasticity: U64, x: Item<K, V>)
    requires x in Step(s, op, max, elasticity)
    ensures !op.Clear? && (x in s || x.key == op.k)
  {
    match op
    case Set(k, v) => assert x in [Item(k, v)] + Without(s, k) || x in [Item(k, v)] + s;
    case Get(k) =>
    case Del(k) =>
    case Clear =>
  }

  /** In every run each entry of shard i has a key whose hash is i modulo the number of shards. */
  lemma {:induction false} Homed<K, V>(h: Hash<K>, buckets: nat, t: seq<Op<K, V>>, max: U64, elasticity: U64, i: nat, x: Item<K, V>)
    requires buckets >= 1 && i < buckets && x in ShardedRun(h, buckets, t, max, elasticity)[i]
    ensures h(x.key) % buckets == i
  {
    hide Step, Share;
    if t != [] {
      var n := |t| - 1;
      assert t == t[..n] + [t[n]];
      CallReaches(h, buckets, t[..n], t[n], max, elasticity, i);
      var s := ShardedRun(h, buckets, t[..n], max, elasticity)[i];
      if x !in s {
        StepKeys(s, t[n], Share(max, buckets), Share(elasticity, buckets), x);
      } else {
        Homed(h, buckets, t[..n], max, elasticity, i, x);
      }
    }
  }

  /** A plain map cannot tell the calls of other shards from none, as far as this shard's keys go. */
  lemma {:induction false} ModelRouted<K, V>(h: Hash<K>, buckets: nat, t: seq<Op<K, V>>, k: K)
    requires buckets >= 1
    ensures var r := Routed(h, buckets, t, ShardOf(h, buckets, k));
      (k in Model(r) <==> k in Model(t)) && (k in Model(t) ==> Model(r)[k] == Model(t)[k])
  {
    if t != [] {
      var n := |t| - 1;
      var i := ShardOf(h, buckets, k);
      ModelRouted(h, buckets, t[..n], k);
      assert t == t[..n] + [t[n]];
      ModelAt(t[..n], t[n], k);
      ModelAt(Routed(h, buckets, t[..n], i), t[n], k);
      hide Model;
    }
  }

  /** What one call does to the entry of key k. */
  lemma ModelAt<K, V>(t: seq<Op<K, V>>, op: Op<K, V>, k: K)
    ensures var m, w := Model(t), Model(t + [op]);
      if op.Clear? then k !in w
      else if op.Set? && op.k == k then k in w && w[k] == op.v
      else if op.Del? && op.k == k then k !in w
      else (k in w <==> k in m) && (k in m ==> w[k] == m[k])
  {
    assert (t + [op])[..|t|] == t;
  }

  /** Whatever the capacities and the trace: a hit in the sharded cache is the last value set. */
  lemma ShardedHits<K, V>(h: Hash<K>, buckets: nat, t: seq<Op<K, V>>, max: U64, elasticity: U64, k: K)
    requires buckets >= 1
    ensures var r := Lookup(ShardedRun(h, buckets, t, max, elasticity)[ShardOf(h, buckets, k)], k);
      && (r.Some? ==> k in Model(t) && r.value == Model(t)[k])
      && (max == 0 ==> r == if k in Model(t) then Some(Model(t)[k]) else None)
  {
    var i := ShardOf(h, buckets, k);
    var m, e := Share(max, buckets), Share(elasticity, buckets);
    var u := Routed(h, buckets, t, i);
    ShardRuns(h, buckets, t, max, elasticity, i);
    ModelRouted(h, buckets, t, k);
    Shares(max, buckets);
    if max == 0 {
      Unbounded(u, e, k);
    } else if Lookup(Run(u, m, e), k).Some? {
      SameHits(u, k, m, e, 0, 0);
    }
  }

  /** The number of entries in all shards. */
  ghost function Entries<K, V>(ss: Shards<K, V>): nat {
    if ss == [] then 0 else Entries(ss[..|ss| - 1]) + |ss[|ss| - 1]|
  }

  lemma {:induction false} EntriesBelow<K, V>(ss: Shards<K, V>, bound: nat)
    requires forall i :: 0 <= i < |ss| ==> |ss[i]| <= bound
    ensures Entries(ss) <= |ss| * bound
  {
    if ss != [] {
      EntriesBelow(ss[..|ss| - 1], bound);
    }
  }

  /** The size bound of the whole: with no elasticity or 1 it is less than one share above the
      capacity asked for. */
  lemma ShardedBound<K, V>(h: Hash<K>, buckets: nat, t: seq<Op<K, V>>, max: U64, elasticity: U64)
    requires buckets >= 1 && max > 0
    ensures var ss := ShardedRun(h, buckets, t, max, elasticity);
      && Entries(ss) <= buckets * (Share(max, buckets) + Slack(Share(max, buckets), Share(elasticity, buckets)) - 1)
      && (Share(elasticity, buckets) <= 1 ==> Entries(ss) < max + buckets)
  {
    hide ShardedRun, Share, Slack, Entries, Routed;
    var ss := ShardedRun(h, buckets, t, max, elasticity);
    var m, e := Share(max, buckets), Share(elasticity, buckets);
    Shares(max, buckets);
    forall i | 0 <= i < |ss| ensures |ss[i]| <= m + Slack(m, e) - 1 {
      ShardRuns(h, buckets, t, max, elasticity, i);
      RunBounded(Routed(h, buckets, t, i), m, e);
    }
    EntriesBelow(ss, m + Slack(m, e) - 1);
    SmallSlack(m, e);
    if e <= 1 { assert m + Slack(m, e) - 1 == m; }
  }

  lemma SmallSlack(m: U64, e: U64)
    ensures Slack(m, e) >= 1 && (e <= 1 ==> Slack(m, e) == 1)
  {
  }

  // ---- the cache ----------------------------------------------------------------------------------

  type Shard<!K(==), V> = LruCaches.LruCache<K, V>

  lemma NextOp<K, V>(h: Hash<K>, buckets: nat, t: seq<Op<K, V>>, op: Op<K, V>, max: U64, elasticity: U64)
    requires buckets >= 1
    ensures ShardedRun(h, buckets, t + [op], max, elasticity)
         == ShardedStep(h, ShardedRun(h, buckets, t, max, elasticity), op, max, elasticity)
  {
    assert (t + [op])[..|t|] == t;
  }

  class HashLruCache<K(==), V> {
    const hash: Hash<K>
    const datas: seq<Shard<K, V>>
    const maxSize: U64                 // what was asked for; every shard has its share
    const elasticity: U64
    ghost var trace: seq<Op<K, V>>     // the calls so far

    /** The shards' recency lists after the calls so far. */
    ghost function Views(): Shards<K, V>
      requires |datas| >= 1
      reads this
    {
      ShardedRun(hash, |datas|, trace, maxSize, elasticity)
    }

    /** The nodes of shard i. */
    ghost function NodesOf(i: nat): set<LruCaches.Node<K, V>>
      requires i < |datas|
      reads datas[i]
    {
      set n | n in datas[i].keys :: n
    }

    /** All nodes of all shards. */
    ghost function Nodes(): (s: set<LruCaches.Node<K, V>>)
      reads datas
      ensures forall i :: 0 <= i < |datas| ==> NodesOf(i) <= s
    {
      set i, n | 0 <= i < |datas| && n in NodesOf(i) :: n
    }

    /** Shard i is well formed and holds the list v. */
    ghost predicate Holds(i: nat, v: seq<Item<K, V>>)
      requires i < |datas|
      reads datas[i], NodesOf(i)
    {
      && datas[i].Valid() && datas[i].view == v
      && datas[i].maxSize == Share(maxSize, |datas|) && datas[i].elasticity == Share(elasticity, |datas|)
    }

    /** The shards are different objects that share no node. */
    ghost predicate Apart()
      reads datas
    {
      forall i, j :: 0 <= i < |datas| && 0 <= j < |datas| && i != j ==>
        datas[i] != datas[j] && NodesOf(i) !! NodesOf(j)
    }

    ghost predicate Valid()
      reads this, datas, Nodes()
    {
      && |datas| >= 1 && Apart()
      && forall i :: 0 <= i < |datas| ==> Holds(i, Views()[i])
    }

    constructor (hash: Hash<K>, bucket: nat, maxSize: U64, elasticity: U64)
      requires bucket >= 1
      ensures Valid() && trace == [] && |datas| == bucket
      ensures Nodes() == {} && forall c :: c in datas ==> fresh(c) && c.view == []
      ensures forall c :: c in datas ==>
        && maxSize <= c.maxSize * bucket < maxSize + bucket
        && elasticity <= c.elasticity * bucket < elasticity + bucket
      ensures this.hash == hash && this.maxSize == maxSize && this.elasticity == elasticity
    {
      hide Share, LruCaches.Indexed, LruCaches.Shows;
      this.hash, this.maxSize, this.elasticity, trace := hash, maxSize, elasticity, [];
      var preMaxSize, preElasticity := Share(maxSize, bucket), Share(elasticity, bucket);
      Shares(maxSize, bucket);
      Shares(elasticity, bucket);
      var cs: seq<Shard<K, V>> := [];
      while |cs| < bucket
        invariant |cs| <= bucket
        invariant forall i :: 0 <= i < |cs| ==> fresh(cs[i]) && cs[i].Valid() && cs[i].view == [] && cs[i].keys == []
        invariant forall i :: 0 <= i < |cs| ==> cs[i].maxSize == preMaxSize && cs[i].elasticity == preElasticity
        invariant forall i, j :: 0 <= i < j < |cs| ==> cs[i] != cs[j]
      {
        var c := new LruCaches.LruCache<K, V>(preMaxSize, preElasticity);
        cs := cs + [c];
      }
      datas := cs;
    }

    /** Shard i holds s, the others hold their lists. */
    ghost predicate Reached(i: nat, s: seq<Item<K, V>>, ss: Shards<K, V>)
      requires |ss| == |datas|
      reads this, datas, Nodes()
    {
      && Apart() && i < |datas| && Holds(i, s)
      && forall j :: 0 <= j < |datas| && j != i ==> Holds(j, ss[j])
    }

    /** Logs a call that reached its shard and left the others alone. */
    ghost method Log(op: Op<K, V>, i: nat)
      requires |datas| >= 1 && !op.Clear? && i == ShardOf(hash, |datas|, op.k)
      requires Reached(i, Step(Views()[i], op, Share(maxSize, |datas|), Share(elasticity, |datas|)), Views())
      modifies this`trace
      ensures Valid() && trace == old(trace) + [op]
    {
      hide Step, Share, ShardedStep, ShardedRun, ShardOf;
      ghost var ss := Views();
      NextOp(hash, |datas|, trace, op, maxSize, elasticity);
      RunShards(hash, |datas|, trace, maxSize, elasticity);
      RunShards(hash, |datas|, trace + [op], maxSize, elasticity);
      forall j | 0 <= j < |datas| ensures j != i ==> ShardedStep(hash, ss, op, maxSize, elasticity)[j] == ss[j] {
        StepAt(hash, ss, op, maxSize, elasticity, j);
      }
      StepAt(hash, ss, op, maxSize, elasticity, i);
      trace := trace + [op];
    }

    /** The call on the shard's own object. */
    method SetIn(i: nat, k: K, v: V, ghost s: seq<Item<K, V>>)
      requires i < |datas| && Holds(i, s)
      modifies datas[i], NodesOf(i)
      ensures Holds(i, Step(s, Op.Set(k, v), Share(maxSize, |datas|), Share(elasticity, |datas|)))
      ensures var c := datas[i];
        s == old(c.view) && c.view == Step(s, Op.Set(k, v), c.maxSize, c.elasticity)
      ensures fresh(NodesOf(i) - old(NodesOf(i)))
    {
      hide Step, Share, LruCaches.FromBack, Has;
      datas[i].Set(k, v);
    }

    method SetAt(i: nat, k: K, v: V, ghost ss: Shards<K, V>)
      requires |ss| == |datas| && i < |datas| && Reached(i, ss[i], ss)
      modifies datas[i], NodesOf(i)
      ensures Reached(i, Step(ss[i], Op.Set(k, v), Share(maxSize, |datas|), Share(elasticity, |datas|)), ss)
      ensures fresh(Nodes() - old(Nodes()))
      ensures var c := datas[i];
        ss[i] == old(c.view) && c.view == Step(ss[i], Op.Set(k, v), c.maxSize, c.elasticity)
    {
      hide Step, Share, Holds;
      SetIn(i, k, v, ss[i]);
    }

    method Set(k: K, v: V)
      requires Valid()
      modifies this`trace, datas[hash(k) % |datas|], NodesOf(hash(k) % |datas|)
      ensures Valid() && trace == old(trace) + [Op.Set(k, v)] && fresh(Nodes() - old(Nodes()))
      ensures var c := datas[hash(k) % |datas|];
        c.view != [] && c.view[0] == Item(k, v) && c.view == Step(old(c.view), Op.Set(k, v), c.maxSize, c.elasticity)
    {
      hide Step, Share, ShardedStep, ShardedRun, Holds, Apart;
      var i := ShardOf(hash, |datas|, k);
      ghost var ss := Views();
      RunShards(hash, |datas|, trace, maxSize, elasticity);
      assert Reached(i, ss[i], ss);
      SetAt(i, k, v, ss);
      SetFront(ss[i], k, v, datas[i].maxSize, datas[i].elasticity);
      Log(Op.Set(k, v), i);
    }

    method GetIn(i: nat, k: K, ghost s: seq<Item<K, V>>) returns (r: Option<V>)
      requires i < |datas| && Holds(i, s)
      modifies datas[i]
      ensures Holds(i, Step(s, Op.Get(k), Share(maxSize, |datas|), Share(elasticity, |datas|)))
      ensures var c := datas[i];
        s == old(c.view) && c.view == Step(s, Op.Get(k), c.maxSize, c.elasticity)
      ensures r == Lookup(s, k) && NodesOf(i) <= old(NodesOf(i))
    {
      hide Step, Share, Lookup;
      r := datas[i].Get(k);
    }

    /** A hit is the last value set. */
    method Get(k: K) returns (r: Option<V>)
      requires Valid()
      modifies this`trace, datas[hash(k) % |datas|]
      ensures Valid() && trace == old(trace) + [Op.Get(k)] && Nodes() <= old(Nodes())
      ensures var c := datas[hash(k) % |datas|];
        r == Lookup(old(c.view), k) && c.view == Step(old(c.view), Op.Get(k), c.maxSize, c.elasticity)
      ensures r.Some? ==> k in Model(old(trace)) && r.value == Model(old(trace))[k]
      ensures maxSize == 0 ==> r == if k in Model(old(trace)) then Some(Model(old(trace))[k]) else None
    {
      hide Step, Share, ShardedStep, ShardedRun, Lookup, Model, Holds;
      var i := ShardOf(hash, |datas|, k);
      ghost var ss := Views();
      RunShards(hash, |datas|, trace, maxSize, elasticity);
      ShardedHits(hash, |datas|, trace, maxSize, elasticity, k);
      assert Holds(i, ss[i]);
      r := GetIn(i, k, ss[i]);
      Log(Op.Get(k), i);
    }

    method DelIn(i: nat, k: K, ghost s: seq<Item<K, V>>) returns (b: bool)
      requires i < |datas| && Holds(i, s)
      modifies datas[i]
      ensures Holds(i, Step(s, Op.Del(k), Share(maxSize, |datas|), Share(elasticity, |datas|)))
      ensures var c := datas[i];
        s == old(c.view) && c.view == Step(s, Op.Del(k), c.maxSize, c.elasticity)
      ensures b == Has(s, k) && NodesOf(i) <= old(NodesOf(i))
    {
      hide Step, Share, Has;
      b := datas[i].Del(k);
    }

    method Del(k: K) returns (b: bool)
      requires Valid()
      modifies this`trace, datas[hash(k) % |datas|]
      ensures Valid() && trace == old(trace) + [Op.Del(k)] && Nodes() <= old(Nodes())
      ensures var c := datas[hash(k) % |datas|];
        b == Has(old(c.view), k) && c.view == Step(old(c.view), Op.Del(k), c.maxSize, c.elasticity)
    {
      hide Step, Share, ShardedStep, ShardedRun, Has, Holds;
      var i := ShardOf(hash, |datas|, k);
      ghost var ss := Views();
      RunShards(hash, |datas|, trace, maxSize, elasticity);
      assert Holds(i, ss[i]);
      b := DelIn(i, k, ss[i]);
      Log(Op.Del(k), i);
    }

    method Exists(k: K) returns (b: bool)
      requires Valid()
      ensures b <==> exists x :: x in datas[hash(k) % |datas|].view && x.key == k
      ensures b <==> exists j, x :: 0 <= j < |datas| && x in datas[j].view && x.key == k
    {
      hide Share, ShardedRun, Has;
      var i := ShardOf(hash, |datas|, k);
      AtHome();
      RunShards(hash, |datas|, trace, maxSize, elasticity);
      assert Holds(i, Views()[i]);
      HasIn(datas[i].view, k);
      b := datas[i].Exists(k);
    }

    /** Every entry lies in the shard of its key's hash modulo the number of shards. */
    lemma AtHome()
      requires Valid()
      ensures forall i, x :: 0 <= i < |datas| && x in datas[i].view ==> hash(x.key) % |datas| == i
    {
      hide Share, ShardedRun;
      RunShards(hash, |datas|, trace, maxSize, elasticity);
      forall i, x | 0 <= i < |datas| && x in datas[i].view ensures hash(x.key) % |datas| == i {
        assert Holds(i, Views()[i]);
        Homed(hash, |datas|, trace, maxSize, elasticity, i, x);
      }
    }

    /** The sizes of the shards added up, within the bound on the whole. */
    method Size() returns (total: nat)
      requires Valid()
      ensures total == |set j, x | 0 <= j < |datas| && x in datas[j].view :: x.key|
      ensures maxSize > 0 && Share(elasticity, |datas|) <= 1 ==> total < maxSize + |datas|
    {
      hide Share, ShardedRun, Entries;
      ghost var ss := Views();
      RunShards(hash, |datas|, trace, maxSize, elasticity);
      NoEntries(ss);
      total := 0;
      for i := 0 to |datas|
        invariant total == Entries(ss[..i])
      {
        assert Holds(i, ss[i]);
        var n := datas[i].Size();
        NextEntries(ss, i);
        total := total + n;
      }
      AllEntries(ss);
      CountKeys(ss);
      if maxSize > 0 { ShardedBound(hash, |datas|, trace, maxSize, elasticity); }
    }

    /** The number of entries is the number of keys that are in some shard. */
    lemma CountKeys(ss: Shards<K, V>)
      requires Valid() && ss == Views()
      ensures Entries(ss) == |set j, x | 0 <= j < |datas| && x in datas[j].view :: x.key|
    {
      hide Share, ShardedRun, Entries, Distinct;
      RunShards(hash, |datas|, trace, maxSize, elasticity);
      forall j | 0 <= j < |ss|
        ensures datas[j].view == ss[j] && Distinct(ss[j])
        ensures forall x :: x in ss[j] ==> hash(x.key) % |datas| == j
      {
        assert Holds(j, ss[j]);
        ShardRuns(hash, |datas|, trace, maxSize, elasticity, j);
        RunDistinct(Routed(hash, |datas|, trace, j), Share(maxSize, |datas|), Share(elasticity, |datas|));
        AtHome();
      }
      assert (set j, x | 0 <= j < |datas| && x in datas[j].view :: x.key) == KeysOf(ss);
      KeysCounted(hash, |datas|, ss);
    }

    /** The first i shards are empty, the others hold their lists. */
    ghost predicate ClearedTo(i: nat, ss: Shards<K, V>)
      requires |ss| == |datas|
      reads this, datas, Nodes()
    {
      && Apart()
      && (forall j :: 0 <= j < i && j < |datas| ==> Holds(j, []))
      && (forall j :: i <= j < |datas| ==> Holds(j, ss[j]))
    }

    method ClearIn(i: nat, ghost ss: Shards<K, V>)
      requires |ss| == |datas| && i < |datas| && ClearedTo(i, ss)
      modifies datas[i]
      ensures ClearedTo(i + 1, ss)
    {
      hide Share;
      assert Holds(i, ss[i]);
      datas[i].Clear();
    }

    ghost method LogClear(ss: Shards<K, V>)
      requires |datas| >= 1 && |ss| == |datas| && ClearedTo(|datas|, ss)
      modifies this`trace
      ensures Valid() && trace == old(trace) + [Op.Clear] && Nodes() == {}
    {
      hide ShardedRun, ShardedStep, Step;
      Cleared(hash, |datas|, trace, maxSize, elasticity);
      trace := trace + [Op.Clear];
      forall j | 0 <= j < |datas| ensures Holds(j, Views()[j]) && NodesOf(j) == {} {
        assert old(Holds(j, []));
        assert datas[j].keys == [];
      }
    }

    method Clear()
      requires Valid()
      modifies this`trace, datas
      ensures Valid() && trace == old(trace) + [Op.Clear] && Nodes() == {}
    {
      hide Share, ShardedRun, ShardedStep, Step, Holds;
      ghost var ss := Views();
      RunShards(hash, |datas|, trace, maxSize, elasticity);
      for i := 0 to |datas|
        invariant trace == old(trace) && ClearedTo(i, ss)
      {
        ClearIn(i, ss);
      }
      LogClear(ss);
    }
  }

  lemma Cleared<K, V>(h: Hash<K>, buckets: nat, t: seq<Op<K, V>>, max: U64, elasticity: U64)
    requires buckets >= 1
    ensures var ss := ShardedRun(h, buckets, t + [Op<K, V>.Clear], max, elasticity);
      |ss| == buckets && forall i :: 0 <= i < buckets ==> ss[i] == []
  {
    NextOp(h, buckets, t, Op<K, V>.Clear, max, elasticity);
  }

  ghost function KeysIn<K, V>(s: seq<Item<K, V>>): set<K> {
    set x | x in s :: x.key
  }

  ghost function KeysOf<K, V>(ss: Shards<K, V>): set<K> {
    set j, x | 0 <= j < |ss| && x in ss[j] :: x.key
  }

  lemma {:induction false} DistinctKeys<K, V>(s: seq<Item<K, V>>)
    requires Distinct(s)
    ensures |KeysIn(s)| == |s|
  {
    if s == [] {
      assert KeysIn(s) == {};
    } else {
      var n := |s| - 1;
      DistinctKeys(s[..n]);
      assert s == s[..n] + [s[n]];
      assert KeysIn(s) == KeysIn(s[..n]) + {s[n].key};
    }
  }

  /** Every key in the list of its hash. */
  ghost predicate AllHomed<K, V>(h: Hash<K>, buckets: nat, ss: Shards<K, V>)
    requires buckets >= 1
  {
    forall j, x :: 0 <= j < |ss| && x in ss[j] ==> h(x.key) % buckets == j
  }

  lemma SplitKeys<K, V>(h: Hash<K>, buckets: nat, ss: Shards<K, V>)
    requires buckets >= 1 && ss != [] && AllHomed(h, buckets, ss)
    ensures var n := |ss| - 1;
      && AllHomed(h, buckets, ss[..n])
      && KeysOf(ss) == KeysOf(ss[..n]) + KeysIn(ss[n]) && KeysOf(ss[..n]) !! KeysIn(ss[n])
  {
    var n := |ss| - 1;
    forall k ensures k in KeysOf(ss) <==> k in KeysOf(ss[..n]) || k in KeysIn(ss[n]) {
      if k in KeysOf(ss) {
        var j, x :| 0 <= j < |ss| && x in ss[j] && x.key == k;
        if j < n { assert x in ss[..n][j]; }
      }
      if k in KeysOf(ss[..n]) {
        var j, x :| 0 <= j < n && x in ss[..n][j] && x.key == k;
        assert x in ss[j];
      }
      if k in KeysIn(ss[n]) {
        var x :| x in ss[n] && x.key == k;
      }
    }
    forall k | k in KeysOf(ss[..n]) ensures k !in KeysIn(ss[n]) {
      var j, x :| 0 <= j < n && x in ss[..n][j] && x.key == k;
      assert x in ss[j] && h(x.key) % buckets == j;
    }
  }

  /** Lists of distinct keys, every key in the list of its hash: as many keys as entries. */
  lemma {:induction false} KeysCounted<K, V>(h: Hash<K>, buckets: nat, ss: Shards<K, V>)
    requires buckets >= 1 && AllHomed(h, buckets, ss)
    requires forall j :: 0 <= j < |ss| ==> Distinct(ss[j])
    ensures |KeysOf(ss)| == Entries(ss)
  {
    hide Distinct, KeysOf, KeysIn, AllHomed;
    if ss == [] {
      NoKeys<K, V>();
    } else {
      var n := |ss| - 1;
      SplitKeys(h, buckets, ss);
      KeysCounted(h, buckets, ss[..n]);
      DistinctKeys(ss[n]);
      assert |KeysOf(ss)| == |KeysOf(ss[..n])| + |KeysIn(ss[n])|;
    }
  }

  lemma NoKeys<K, V>()
    ensures KeysOf<K, V>([]) == {}
  {
  }

  lemma NoEntries<K, V>(ss: Shards<K, V>)
    ensures Entries(ss[..0]) == 0
  {
  }

  lemma NextEntries<K, V>(ss: Shards<K, V>, i: nat)
    requires i < |ss|
    ensures Entries(ss[..i + 1]) == Entries(ss[..i]) + |ss[i]|
  {
    assert ss[..i + 1][..i] == ss[..i];
  }

  lemma AllEntries<K, V>(ss: Shards<K, V>)
    ensures Entries(ss[..|ss|]) == Entries(ss)
  {
    assert ss[..|ss|] == ss;
  }

  /** The entry just set is the most recent one. */
  lemma SetFront<K, V>(s: seq<Item<K, V>>, k: K, v: V, max: U64, elasticity: U64)
    ensures var r := Step(s, Op.Set(k, v), max, elasticity); r != [] && r[0] == Item(k, v)
  {
    PrunedBySlack([Item(k, v)] + s, max, elasticity);
  }

  lemma HasIn<K, V>(s: seq<Item<K, V>>, k: K)
    ensures Has(s, k) <==> exists x :: x in s && x.key == k
  {
    if Has(s, k) {
      var i :| 0 <= i < |s| && s[i].key == k;
      assert s[i] in s;
    }
  }

  lemma RunShards<K, V>(h: Hash<K>, buckets: nat, t: seq<Op<K, V>>, max: U64, elasticity: U64)
    requires buckets >= 1
    ensures |ShardedRun(h, buckets, t, max, elasticity)| == buckets
  {
  }
}
