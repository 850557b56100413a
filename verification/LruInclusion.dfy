/** The inclusion property of LRU caches of two capacities driven by the same operations:
    exactly which capacities and elasticities have it, for every operation sequence. */
module LruInclusion {
  import opened Memory
  import opened LruSpec

  /** a is b with some entries left out: same order, same values. */
  ghost predicate Subsequence<T>(a: seq<T>, b: seq<T>) {
    if a == [] then true
    else if b == [] then false
    else (a[0] == b[0] && Subsequence(a[1..], b[1..])) || Subsequence(a, b[1..])
  }

  /** Every entry of a is an entry of b, with the same value. */
  ghost predicate Contained<T>(a: seq<T>, b: seq<T>) {
    forall x :: x in a ==> x in b
  }

  // ---- subsequences ---------------------------------------------------------------------------

  lemma {:induction false} SubContained<T>(a: seq<T>, b: seq<T>)
    requires Subsequence(a, b)
    ensures Contained(a, b) && |a| <= |b|
  {
    if a != [] {
      if Subsequence(a, b[1..]) {
        SubContained(a, b[1..]);
      } else {
        SubContained(a[1..], b[1..]);
        assert a == [a[0]] + a[1..];
      }
    }
  }

  /** A subsequence keeps the order: entries of a stand in b in the same order. */
  lemma {:induction false} SubOrder<T>(a: seq<T>, b: seq<T>, i: nat, j: nat) returns (p: nat, q: nat)
    requires Subsequence(a, b) && i < j < |a|
    ensures p < q < |b| && b[p] == a[i] && b[q] == a[j]
  {
    if Subsequence(a, b[1..]) {
      p, q := SubOrder(a, b[1..], i, j);
      p, q := p + 1, q + 1;
    } else if i == 0 {
      SubContained(a[1..], b[1..]);
      assert a[j] == a[1..][j - 1] && a[j] in b[1..];
      q :| 0 <= q < |b[1..]| && b[1..][q] == a[j];
      p, q := 0, q + 1;
    } else {
      p, q := SubOrder(a[1..], b[1..], i - 1, j - 1);
      p, q := p + 1, q + 1;
    }
  }

  lemma SubCons<T>(x: T, a: seq<T>, b: seq<T>)
    requires Subsequence(a, b)
    ensures Subsequence([x] + a, [x] + b) && Subsequence(a, [x] + b)
  {
    assert ([x] + a)[1..] == a && ([x] + b)[1..] == b;
  }

  lemma {:induction false} SubSelf<T>(a: seq<T>)
    ensures Subsequence(a, a)
  {
    if a != [] { SubSelf(a[1..]); }
  }

  /** A subsequence starting with x, seen from inside. */
  lemma {:induction false} SubTail<T>(a: seq<T>, b: seq<T>)
    requires Subsequence(a, b) && a != []
    ensures Subsequence(a[1..], b) && (b != [] && Subsequence(a[1..], b[1..]))
  {
    if Subsequence(a, b[1..]) {
      SubTail(a, b[1..]);
    } else {
      SubSkip(a[1..], b);
    }
  }

  lemma SubSkip<T>(a: seq<T>, b: seq<T>)
    requires b != [] && Subsequence(a, b[1..])
    ensures Subsequence(a, b)
  {
  }

  /** Dropping the last entry of both. */
  lemma {:induction false} SubDropLast<T>(a: seq<T>, b: seq<T>)
    requires Subsequence(a, b) && a != []
    ensures Subsequence(a[..|a| - 1], b[..|b| - 1])
  {
    SubContained(a, b);
    var a', b' := a[..|a| - 1], b[..|b| - 1];
    if a' != [] {
      if a[0] == b[0] && Subsequence(a[1..], b[1..]) {
        SubDropLast(a[1..], b[1..]);
        SubContained(a[1..], b[1..]);
        assert a'[1..] == a[1..][..|a[1..]| - 1] && b'[1..] == b[1..][..|b[1..]| - 1];
      } else {
        SubDropLast(a, b[1..]);
        SubContained(a, b[1..]);
        assert b'[1..] == b[1..][..|b[1..]| - 1];
      }
    }
  }

  lemma {:induction false} SubWithout<K, V>(a: seq<Item<K, V>>, b: seq<Item<K, V>>, k: K)
    requires Subsequence(a, b) && Distinct(a) && Distinct(b)
    ensures Subsequence(Without(a, k), Without(b, k))
  {
    if a != [] {
      if a[0] == b[0] && Subsequence(a[1..], b[1..]) {
        if a[0].key != k {
          SubWithout(a[1..], b[1..], k);
          SubCons(a[0], Without(a[1..], k), Without(b[1..], k));
        }
      } else {
        SubWithout(a, b[1..], k);
        if b[0].key == k {
          FrontDistinct(b);
        } else {
          SubCons(b[0], Without(a, k), Without(b[1..], k));
        }
      }
    }
  }

  // ---- the capacities with the property -----------------------------------------------------------

  /** A cache of bounds (m1, e1) always holds a part of what a cache of bounds (m2, e2) holds:
      the second is unbounded, or both cut back alike, or neither lets entries pile up past its
      maximum and the first is no larger, or the first keeps a single entry. */
  ghost predicate Nested(m1: U64, e1: U64, m2: U64, e2: U64) {
    || m2 == 0
    || (m1 == m2 && Slack(m1, e1) == Slack(m2, e2) && m1 > 0)
    || (0 < m1 <= m2 && Slack(m1, e1) == 1 && Slack(m2, e2) == 1)
    || (m1 == 1 && Slack(m1, e1) == 1)
  }

  lemma {:induction false} SubPrefix<T>(a: seq<T>, b: seq<T>, n: nat)
    requires Subsequence(a, b) && n <= |a|
    ensures Subsequence(a[..n], b)
  {
    if n > 0 {
      if a[0] == b[0] && Subsequence(a[1..], b[1..]) {
        SubPrefix(a[1..], b[1..], n - 1);
        assert a[..n][1..] == a[1..][..n - 1];
      } else {
        SubPrefix(a, b[1..], n);
      }
    }
  }

  // ---- sufficiency ----------------------------------------------------------------------------------

  /** The operations that do not bring a new key into the larger cache. */
  ghost predicate Familiar<K, V>(b: seq<Item<K, V>>, op: Op<K, V>) {
    op.Set? ==> Has(b, op.k)
  }

  /** A familiar operation keeps the smaller list a subsequence and lets it fall behind no further. */
  lemma FamiliarStep<K, V>(a: seq<Item<K, V>>, b: seq<Item<K, V>>, op: Op<K, V>, m1: U64, e1: U64, m2: U64, e2: U64)
    requires Distinct(a) && Distinct(b) && Subsequence(a, b) && Familiar(b, op)
    ensures var a', b' := Step(a, op, m1, e1), Step(b, op, m2, e2);
      && Subsequence(a', b') && |b'| <= |b|
      && (|b'| - |a'| <= |b| - |a| || (m1 > 0 && |a'| == m1))
  {
    SubContained(a, b);
    match op
    case Set(k, v) =>
      SubWithout(a, b, k);
      WithoutKeys(a, k, k);
      WithoutKeys(b, k, k);
      InB(a, b, k);
      SubCons(Item(k, v), Without(a, k), Without(b, k));
      if !Has(a, k) {
        var x := Item(k, v);
        PrunedBySlack([x] + a, m1, e1);
        if Pruned([x] + a, m1, e1) != [x] + a {
          SubPrefix([x] + a, [x] + Without(b, k), m1);
        }
      }
    case Get(k) =>
      SubWithout(a, b, k);
      WithoutKeys(a, k, k);
      WithoutKeys(b, k, k);
      LookupHas(a, k);
      LookupHas(b, k);
      InB(a, b, k);
      if Lookup(b, k).Some? {
        if Lookup(a, k).Some? { LookupIs(b, Item(k, Lookup(a, k).value)); }
        SubCons(Item(k, Lookup(b, k).value), Without(a, k), Without(b, k));
      }
    case Del(k) =>
      SubWithout(a, b, k);
      WithoutKeys(a, k, k);
      WithoutKeys(b, k, k);
      InB(a, b, k);
    case Clear =>
  }

  lemma InB<K, V>(a: seq<Item<K, V>>, b: seq<Item<K, V>>, k: K)
    requires Contained(a, b)
    ensures Has(a, k) ==> Has(b, k)
  {
    if Has(a, k) {
      var i :| 0 <= i < |a| && a[i].key == k;
      assert a[i] in b;
    }
  }

  /** A new key: both lists gain it in front, and the smaller is then cut to a prefix. */
  lemma NewKey<K, V>(a: seq<Item<K, V>>, b: seq<Item<K, V>>, x: Item<K, V>, m1: U64, e1: U64)
    requires Subsequence(a, b)
    ensures Subsequence(Pruned([x] + a, m1, e1), [x] + b) && Subsequence([x] + a, [x] + b)
  {
    SubCons(x, a, b);
    PrunedBySlack([x] + a, m1, e1);
    if Pruned([x] + a, m1, e1) != [x] + a {
      SubPrefix([x] + a, [x] + b, m1);
    }
  }

  lemma NotInA<K, V>(a: seq<Item<K, V>>, b: seq<Item<K, V>>, k: K)
    requires Subsequence(a, b) && !Has(b, k)
    ensures !Has(a, k)
  {
    SubContained(a, b);
    InB(a, b, k);
  }

  /** Against an unbounded cache, whatever the bounds of the other. */
  lemma {:induction false} UnderUnbounded<K, V>(t: seq<Op<K, V>>, m1: U64, e1: U64, e2: U64)
    ensures Subsequence(Run(t, m1, e1), Run(t, 0, e2))
  {
    if t != [] {
      var p, op := t[..|t| - 1], t[|t| - 1];
      var a, b := Run(p, m1, e1), Run(p, 0, e2);
      UnderUnbounded(p, m1, e1, e2);
      RunDistinct(p, m1, e1);
      RunDistinct(p, 0, e2);
      if Familiar(b, op) {
        FamiliarStep(a, b, op, m1, e1, 0, e2);
      } else {
        NotInA(a, b, op.k);
        NewKey(a, b, Item(op.k, op.v), m1, e1);
      }
    }
  }

  /** Caches that cut back alike are always the same. */
  lemma {:induction false} CutAlike<K, V>(t: seq<Op<K, V>>, m: U64, e1: U64, e2: U64)
    requires Slack(m, e1) == Slack(m, e2)
    ensures Run(t, m, e1) == Run(t, m, e2)
  {
    if t != [] {
      var p, op := t[..|t| - 1], t[|t| - 1];
      CutAlike(p, m, e1, e2);
      var s := Run(p, m, e1);
      if op.Set? {
        PrunedBySlack([Item(op.k, op.v)] + s, m, e1);
        PrunedBySlack([Item(op.k, op.v)] + s, m, e2);
      }
    }
  }

  /** Two caches without slack: the larger is ahead by no more than the difference of the maxima. */
  lemma {:induction false} Tight<K, V>(t: seq<Op<K, V>>, m1: U64, e1: U64, m2: U64, e2: U64)
    requires 0 < m1 <= m2 && Slack(m1, e1) == 1 && Slack(m2, e2) == 1
    ensures var a, b := Run(t, m1, e1), Run(t, m2, e2);
      Subsequence(a, b) && |b| - |a| <= m2 - m1
  {
    if t != [] {
      var p, op := t[..|t| - 1], t[|t| - 1];
      var a, b := Run(p, m1, e1), Run(p, m2, e2);
      Tight(p, m1, e1, m2, e2);
      RunDistinct(p, m1, e1);
      RunDistinct(p, m2, e2);
      RunBounded(p, m1, e1);
      RunBounded(p, m2, e2);
      RunBounded(t, m2, e2);
      if Familiar(b, op) {
        FamiliarStep(a, b, op, m1, e1, m2, e2);
      } else {
        var x := Item(op.k, op.v);
        NotInA(a, b, op.k);
        NewKey(a, b, x, m1, e1);
        PrunedBySlack([x] + a, m1, e1);
        PrunedBySlack([x] + b, m2, e2);
        if |b| == m2 {
          SubDropLast([x] + a, [x] + b);
        }
      }
    }
  }

  /** A cache that keeps a single entry, against any that keeps at least one. */
  lemma {:induction false} Single<K, V>(t: seq<Op<K, V>>, e1: U64, m2: U64, e2: U64)
    requires Slack(1, e1) == 1 && m2 > 0
    ensures Subsequence(Run(t, 1, e1), Run(t, m2, e2))
  {
    if t != [] {
      var p, op := t[..|t| - 1], t[|t| - 1];
      var a, b := Run(p, 1, e1), Run(p, m2, e2);
      Single(p, e1, m2, e2);
      RunDistinct(p, 1, e1);
      RunDistinct(p, m2, e2);
      RunBounded(p, 1, e1);
      if Familiar(b, op) {
        FamiliarStep(a, b, op, 1, e1, m2, e2);
      } else {
        var x := Item(op.k, op.v);
        NotInA(a, b, op.k);
        PrunedBySlack([x] + a, 1, e1);
        PrunedBySlack([x] + b, m2, e2);
        var a', b' := Pruned([x] + a, 1, e1), Pruned([x] + b, m2, e2);
        assert a' == [x] && b'[0] == x && a'[1..] == [];
      }
    }
  }

  /** Nested bounds keep the smaller recency list a subsequence of the larger, for every trace. */
  lemma Inclusion<K, V>(t: seq<Op<K, V>>, m1: U64, e1: U64, m2: U64, e2: U64)
    requires Nested(m1, e1, m2, e2)
    ensures Subsequence(Run(t, m1, e1), Run(t, m2, e2))
  {
    if m2 == 0 {
      UnderUnbounded(t, m1, e1, e2);
    } else if m1 == m2 && Slack(m1, e1) == Slack(m2, e2) {
      CutAlike(t, m1, e1, e2);
      SubSelf(Run(t, m1, e1));
    } else if 0 < m1 <= m2 && Slack(m1, e1) == 1 && Slack(m2, e2) == 1 {
      Tight(t, m1, e1, m2, e2);
    } else {
      Single(t, e1, m2, e2);
    }
  }

  /** So every hit in the smaller cache is the same hit in the larger, and, when the larger is
      unbounded, returns the value last set. */
  lemma SameHits<K, V>(t: seq<Op<K, V>>, k: K, m1: U64, e1: U64, m2: U64, e2: U64)
    requires Nested(m1, e1, m2, e2) && Lookup(Run(t, m1, e1), k).Some?
    ensures Lookup(Run(t, m2, e2), k) == Lookup(Run(t, m1, e1), k)
    ensures k in Model(t) && Lookup(Run(t, m1, e1), k).value == Model(t)[k]
  {
    Inclusion(t, m1, e1, m2, e2);
    LookupHas(Run(t, m1, e1), k);
    var x := Item(k, Lookup(Run(t, m1, e1), k).value);
    SubContained(Run(t, m1, e1), Run(t, m2, e2));
    RunDistinct(t, m2, e2);
    LookupIs(Run(t, m2, e2), x);
    UnderUnbounded(t, m1, e1, 0);
    SubContained(Run(t, m1, e1), Run(t, 0, 0));
    RunDistinct(t, 0, 0);
    LookupIs(Run(t, 0, 0), x);
    Unbounded(t, 0, k);
  }
}
