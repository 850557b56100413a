/** The bounds of `Nested` are the only ones with the inclusion property: for all others there is
    an operation sequence after which the first cache holds an entry the second lacks. */
module LruNecessity {
  import opened Memory
  import opened LruSpec
  import opened LruInclusion

  type Entry = Item<nat, int>

  /** Sets the keys from, from + 1, .., from + n - 1. */
  ghost function Inserts(from: nat, n: nat): seq<Op<nat, int>> {
    if n == 0 then [] else Inserts(from, n - 1) + [Set(from + n - 1, 0)]
  }

  /** The entries they leave, most recent first. */
  ghost function Recent(from: nat, n: nat): (s: seq<Entry>)
    ensures |s| == n
  {
    if n == 0 then [] else [Item(from + n - 1, 0)] + Recent(from, n - 1)
  }

  lemma {:induction false} RecentAt(from: nat, n: nat, i: nat)
    requires i < n
    ensures Recent(from, n)[i] == Item(from + n - 1 - i, 0)
  {
    if i > 0 { RecentAt(from, n - 1, i - 1); }
  }

  /** All keys of s are below the bound. */
  ghost predicate Below(s: seq<Entry>, bound: nat) {
    forall i :: 0 <= i < |s| ==> s[i].key < bound
  }

  lemma {:induction false} RecentOnTop(s: seq<Entry>, from: nat, n: nat)
    requires Distinct(s) && Below(s, from)
    ensures Distinct(Recent(from, n) + s) && Below(Recent(from, n) + s, from + n)
  {
    if n == 0 {
      assert Recent(from, 0) + s == s;
    } else {
      RecentOnTop(s, from, n - 1);
      var r := Recent(from, n - 1) + s;
      ConsDistinct(Item(from + n - 1, 0), r);
      assert Recent(from, n) + s == [Item(from + n - 1, 0)] + r;
    }
  }

  // ---- sizes under insertion of new keys -----------------------------------------------------------

  ghost function Grow(size: nat, n: nat, m: nat, slack: nat): nat {
    if n == 0 then size else
    var g := Grow(size, n - 1, m, slack) + 1;
    if m == 0 || g < m + slack then g else m
  }

  lemma {:induction false} GrowFacts(size: nat, n: nat, m: nat, slack: nat)
    requires slack >= 1 && (m > 0 ==> size < m + slack)
    ensures m == 0 || size + n < m + slack ==> Grow(size, n, m, slack) == size + n
    ensures m > 0 && size + n == m + slack ==> Grow(size, n, m, slack) == m
    ensures m > 0 ==> Grow(size, n, m, slack) < m + slack
    ensures m > 0 && size + n >= m ==> Grow(size, n, m, slack) >= m
    ensures Grow(size, n, m, slack) <= size + n
  {
    if n > 0 { GrowFacts(size, n - 1, m, slack); }
  }

  /** One new key on a prefix of the entries z. */
  lemma InsertOne(p: seq<Entry>, z: seq<Entry>, k: nat, m: U64, e: U64)
    requires |p| <= |z| && p == z[..|p|] && Below(z, k)
    requires m > 0 ==> |p| < m + Slack(m, e)
    ensures var x: Entry := Item(k, 0);
      var r := Step(p, Op<nat, int>.Set(k, 0), m, e);
      && |r| == (if m == 0 || |p| + 1 < m + Slack(m, e) then |p| + 1 else m) <= |p| + 1
      && r == ([x] + z)[..|r|]
  {
    hide Below, Slack, Pruned, Has;
    var x: Entry := Item(k, 0);
    AbsentAbove(p, z, k);
    PrunedBySlack([x] + p, m, e);
    OnTop(p, z, x, m);
    SlackPositive(m, e);
  }

  lemma SlackPositive(m: U64, e: U64)
    ensures Slack(m, e) >= 1
  {
  }

  /** New keys pile up on the list, which stays a prefix of everything inserted. */
  lemma {:induction false} InsertNew(s: seq<Entry>, from: nat, n: nat, m: U64, e: U64)
    requires Distinct(s) && Below(s, from) && (m > 0 ==> |s| < m + Slack(m, e))
    ensures var r := RunFrom(s, Inserts(from, n), m, e);
      |r| == Grow(|s|, n, m, Slack(m, e)) <= n + |s| && r == (Recent(from, n) + s)[..|r|]
  {
    hide Distinct, Below, Slack, Step, Grow;
    SlackPositive(m, e);
    if n == 0 {
      GrowFacts(|s|, 0, m, Slack(m, e));
      NoInserts(s, from, m, e);
    } else {
      hide Inserts, Recent, RunFrom;
      InsertNew(s, from, n - 1, m, e);
      InsertNext(s, from, n, m, e);
    }
  }

  lemma NoInserts(s: seq<Entry>, from: nat, m: U64, e: U64)
    ensures RunFrom(s, Inserts(from, 0), m, e) == s == (Recent(from, 0) + s)[..|s|]
    ensures Grow(|s|, 0, m, Slack(m, e)) == |s|
  {
    assert Recent(from, 0) + s == s;
  }

  lemma InsertNext(s: seq<Entry>, from: nat, n: nat, m: U64, e: U64)
    requires n > 0 && Distinct(s) && Below(s, from) && (m > 0 ==> |s| < m + Slack(m, e))
    requires var p := RunFrom(s, Inserts(from, n - 1), m, e);
      |p| == Grow(|s|, n - 1, m, Slack(m, e)) <= n - 1 + |s| && p == (Recent(from, n - 1) + s)[..|p|]
    ensures var r := RunFrom(s, Inserts(from, n), m, e);
      |r| == Grow(|s|, n, m, Slack(m, e)) <= n + |s| && r == (Recent(from, n) + s)[..|r|]
  {
    hide Distinct, Below, Slack, Step, RunFrom, Inserts;
    SlackPositive(m, e);
    RecentOnTop(s, from, n - 1);
    GrowFacts(|s|, n - 1, m, Slack(m, e));
    LastInsert(s, from, n, m, e);
    InsertOne(RunFrom(s, Inserts(from, n - 1), m, e), Recent(from, n - 1) + s, from + n - 1, m, e);
    var x: Entry := Item(from + n - 1, 0);
    Stacked(x, Recent(from, n - 1), s);
  }

  lemma LastInsert(s: seq<Entry>, from: nat, n: nat, m: U64, e: U64)
    requires n > 0
    ensures RunFrom(s, Inserts(from, n), m, e) == Step(RunFrom(s, Inserts(from, n - 1), m, e), Set(from + n - 1, 0), m, e)
  {
    hide Step;
    var t := Inserts(from, n);
    assert t[..|t| - 1] == Inserts(from, n - 1);
  }

  lemma Stacked<T>(x: T, r: seq<T>, s: seq<T>)
    ensures ([x] + r) + s == [x] + (r + s)
  {
  }

  lemma AbsentAbove(p: seq<Entry>, z: seq<Entry>, k: nat)
    requires |p| <= |z| && p == z[..|p|] && Below(z, k)
    ensures !Has(p, k)
  {
    assert forall i :: 0 <= i < |p| ==> p[i] == z[i];
  }

  /** Putting x on a prefix, whole or cut to m, gives a prefix. */
  lemma OnTop(p: seq<Entry>, z: seq<Entry>, x: Entry, m: nat)
    requires |p| <= |z| && p == z[..|p|]
    ensures [x] + p == ([x] + z)[..|p| + 1]
    ensures m <= |p| + 1 ==> ([x] + p)[..m] == ([x] + z)[..m]
  {
  }

  // ---- deleting the oldest, touching the middle ------------------------------------------------------

  ghost function Dels(n: nat): seq<Op<nat, int>> {
    if n == 0 then [] else Dels(n - 1) + [Del(n - 1)]
  }

  lemma {:induction false} WithoutLast(s: seq<Entry>, k: nat)
    requires Distinct(s) && s != [] && s[|s| - 1].key == k
    ensures Without(s, k) == s[..|s| - 1]
  {
    if |s| > 1 {
      assert s[0].key != s[|s| - 1].key;
      WithoutLast(s[1..], k);
      assert [s[0]] + s[1..][..|s| - 2] == s[..|s| - 1];
    }
  }

  /** Deleting 0..n-1 takes the n oldest of the entries 0..size-1. */
  lemma {:induction false} DeleteOldest(size: nat, n: nat, m: U64, e: U64)
    requires n <= size
    ensures RunFrom(Recent(0, size), Dels(n), m, e) == Recent(0, size)[..size - n]
  {
    hide Recent;
    RecentSize(0, size);
    var z := Recent(0, size);
    if n == 0 {
      assert z[..size] == z;
    } else {
      DeleteOldest(size, n - 1, m, e);
      var t := Dels(n);
      assert t[..|t| - 1] == Dels(n - 1);
      OldestGoes(z, size, n);
    }
  }

  lemma OldestGoes(z: seq<Entry>, size: nat, n: nat)
    requires 0 < n <= size && z == Recent(0, size)
    ensures Without(z[..size - (n - 1)], n - 1) == z[..size - n]
  {
    hide Without;
    var s := z[..size - (n - 1)];
    RecentOnTop([], 0, size);
    assert z + [] == z;
    RecentAt(0, size, size - n);
    DistinctPrefix(s, z[|s|..]);
    TakeDrop(z, |s|);
    WithoutLast(s, n - 1);
    assert s[..|s| - 1] == z[..size - n];
  }

  /** Deleting keys a list does not have changes nothing. */
  lemma {:induction false} DeleteAbsent(s: seq<Entry>, n: nat, m: U64, e: U64)
    requires forall i :: 0 <= i < |s| ==> s[i].key >= n
    ensures RunFrom(s, Dels(n), m, e) == s
  {
    if n > 0 {
      var t := Dels(n);
      assert t[..|t| - 1] == Dels(n - 1);
      DeleteAbsent(s, n - 1, m, e);
      assert !Has(s, n - 1);
    }
  }

  ghost function Gets(x: seq<Entry>): (t: seq<Op<nat, int>>)
    ensures |t| == |x|
  {
    if x == [] then [] else Gets(x[..|x| - 1]) + [Get(x[|x| - 1].key)]
  }

  ghost function Reverse<T>(x: seq<T>): (r: seq<T>)
    ensures |r| == |x|
  {
    if x == [] then [] else [x[|x| - 1]] + Reverse(x[..|x| - 1])
  }

  /** Looking up keys a list does not have changes nothing. */
  lemma {:induction false} GetAbsent(s: seq<Entry>, x: seq<Entry>, m: U64, e: U64)
    requires forall i :: 0 <= i < |x| ==> !Has(s, x[i].key)
    ensures RunFrom(s, Gets(x), m, e) == s
  {
    if x != [] {
      var n := |x| - 1;
      var t := Gets(x);
      assert t[..|t| - 1] == Gets(x[..n]);
      GetAbsent(s, x[..n], m, e);
      LookupHas(s, x[n].key);
    }
  }

  /** Looking up the entries x one after the other brings them to the front, in reverse. */
  lemma {:induction false} GetMiddle(c: seq<Entry>, x: seq<Entry>, y: seq<Entry>, m: U64, e: U64)
    requires Distinct(c + x + y)
    ensures RunFrom(c + x + y, Gets(x), m, e) == Reverse(x) + c + y
  {
    if x == [] {
      assert c + x + y == Reverse(x) + c + y;
    } else {
      var n := |x| - 1;
      var p, z := x[..n], x[n];
      Regrouped(c, x, y);
      GetMiddle(c, p, [z] + y, m, e);
      var t := Gets(x);
      assert t[..|t| - 1] == Gets(p);
      ReverseMembers(c, p, [z] + y);
      MoveToFront(Reverse(p) + c, z, y);
    }
  }

  lemma Regrouped(c: seq<Entry>, x: seq<Entry>, y: seq<Entry>)
    requires x != []
    ensures var p, z := x[..|x| - 1], x[|x| - 1];
      && c + x + y == c + p + ([z] + y)
      && Reverse(p) + c + ([z] + y) == (Reverse(p) + c) + [z] + y
      && [z] + ((Reverse(p) + c) + y) == Reverse(x) + c + y
  {
    var p, z := x[..|x| - 1], x[|x| - 1];
    assert x == p + [z];
  }

  /** Reversing the middle keeps the entries distinct. */
  lemma {:induction false} ReverseMembers(c: seq<Entry>, p: seq<Entry>, y: seq<Entry>)
    requires Distinct(c + p + y)
    ensures Distinct(Reverse(p) + c + y)
  {
    var r := Reverse(p);
    var s, t := c + p + y, r + c + y;
    forall i, j | 0 <= i < j < |t| ensures t[i].key != t[j].key {
      if i < |p| { ReverseAt(p, i); }
      if j < |p| { ReverseAt(p, j); }
      assert t[i] == s[Source(|p|, |c|, i)] && t[j] == s[Source(|p|, |c|, j)];
    }
  }

  /** Where an entry of Reverse(p) + c + y comes from in c + p + y. */
  ghost function Source(p: nat, c: nat, i: nat): nat {
    if i < p then c + (p - 1 - i) else if i < p + c then i - p else i
  }

  lemma {:induction false} ReverseAt<T>(x: seq<T>, i: nat)
    requires i < |x|
    ensures Reverse(x)[i] == x[|x| - 1 - i]
  {
    if i > 0 { ReverseAt(x[..|x| - 1], i - 1); }
  }

  lemma MoveToFront(a: seq<Entry>, z: Entry, y: seq<Entry>)
    requires Distinct(a + [z] + y)
    ensures Lookup(a + [z] + y, z.key) == Some(z.val)
    ensures Without(a + [z] + y, z.key) == a + y
  {
    var s := a + [z] + y;
    assert s[|a|] == z;
    LookupIs(s, z);
    WithoutAt(a, z, y);
  }

  lemma {:induction false} WithoutAt(a: seq<Entry>, z: Entry, y: seq<Entry>)
    requires Distinct(a + [z] + y)
    ensures Without(a + [z] + y, z.key) == a + y
  {
    var s := a + [z] + y;
    if a == [] {
      assert s == [z] + y && a + y == y;
    } else {
      assert s[0].key != s[|a|].key;
      assert s[1..] == a[1..] + [z] + y;
      WithoutAt(a[1..], z, y);
      assert [a[0]] + (a[1..] + y) == a + y;
    }
  }

  // ---- separating traces --------------------------------------------------------------------------------

  /** x is in the first cache and not in the second after t. */
  ghost predicate Separates(t: seq<Op<nat, int>>, x: Entry, m1: U64, e1: U64, m2: U64, e2: U64) {
    x in Run(t, m1, e1) && x !in Run(t, m2, e2)
  }

  lemma BeyondPrefix(z: seq<Entry>, i: nat, n: nat)
    requires Distinct(z) && n <= i < |z|
    ensures z[i] !in z[..n]
  {
    assert forall j :: 0 <= j < n ==> z[..n][j] == z[j] && z[j].key != z[i].key;
  }

  /** Inserting just as many keys as make the second cache cut back. */
  lemma ByInserts(m1: U64, e1: U64, m2: U64, e2: U64) returns (t: seq<Op<nat, int>>, x: Entry)
    requires m2 > 0 && Grow(0, m2 + Slack(m2, e2), m1, Slack(m1, e1)) > m2
    ensures Separates(t, x, m1, e1, m2, e2)
  {
    var n := m2 + Slack(m2, e2);
    t := Inserts(0, n);
    var z := Recent(0, n);
    assert z + [] == z;
    InsertNew([], 0, n, m1, e1);
    InsertNew([], 0, n, m2, e2);
    GrowFacts(0, n, m2, Slack(m2, e2));
    RecentOnTop([], 0, n);
    x := z[m2];
    assert Run(t, m1, e1)[m2] == x;
    BeyondPrefix(z, m2, m2);
  }

  /** From a state where the first cache holds the most recent entries c of the second, c + x:
      the entries x are looked up, which buries c in the second cache, and j new keys make the
      second cache cut back. */
  lemma Bury(t0: seq<Op<nat, int>>, c: seq<Entry>, x: seq<Entry>, from: nat, j: nat, i: nat,
             m1: U64, e1: U64, m2: U64, e2: U64) returns (t: seq<Op<nat, int>>)
    requires Run(t0, m1, e1) == c && Run(t0, m2, e2) == c + x
    requires Distinct(c + x) && Below(c + x, from)
    requires m1 > 0 && |c| < m1 + Slack(m1, e1)
    requires m2 > 0 && j > 0 && |c| + |x| + j == m2 + Slack(m2, e2)
    requires i < |c| && |x| + j + i >= m2 && j + i < Grow(|c|, j, m1, Slack(m1, e1))
    ensures Separates(t, c[i], m1, e1, m2, e2)
  {
    hide Distinct, Below, Slack;
    var g, k := Gets(x), Inserts(from, j);
    t := t0 + g + k;
    Touch(t0, c, x, m1, e1, m2, e2);
    RunConcat([], t0 + g, k, m1, e1);
    RunConcat([], t0 + g, k, m2, e2);
    var b := Reverse(x) + c;
    NoTail(c, x);
    ReverseMembers(c, x, []);
    ReverseBelow(c, x, from);
    DistinctPrefix(c, x);
    InsertNew(c, from, j, m1, e1);
    InsertNew(b, from, j, m2, e2);
    GrowFacts(|b|, j, m2, Slack(m2, e2));
    RecentOnTop(b, from, j);
    Kept(Recent(from, j), c, |Run(t, m1, e1)|, i);
    Lost(Recent(from, j), Reverse(x), c, i, m2);
  }

  /** Entry i of c survives in a prefix of r + c that is long enough. */
  lemma Kept(r: seq<Entry>, c: seq<Entry>, n: nat, i: nat)
    requires i < |c| && |r| + i < n <= |r| + |c|
    ensures c[i] in (r + c)[..n]
  {
    assert (r + c)[..n][|r| + i] == c[i];
  }

  /** Entry i of c is lost from a prefix of r + (y + c) that is too short. */
  lemma Lost(r: seq<Entry>, y: seq<Entry>, c: seq<Entry>, i: nat, n: nat)
    requires Distinct(r + (y + c)) && i < |c| && n <= |r| + |y| + i
    ensures c[i] !in (r + (y + c))[..n]
  {
    var z := r + (y + c);
    assert z[|r| + |y| + i] == c[i];
    BeyondPrefix(z, |r| + |y| + i, n);
  }

  lemma Touch(t0: seq<Op<nat, int>>, c: seq<Entry>, x: seq<Entry>, m1: U64, e1: U64, m2: U64, e2: U64)
    requires Run(t0, m1, e1) == c && Run(t0, m2, e2) == c + x && Distinct(c + x)
    ensures Run(t0 + Gets(x), m1, e1) == c
    ensures Run(t0 + Gets(x), m2, e2) == Reverse(x) + c
  {
    RunConcat([], t0, Gets(x), m1, e1);
    RunConcat([], t0, Gets(x), m2, e2);
    forall i | 0 <= i < |x| ensures !Has(c, x[i].key) { NotInFront(c, x, i); }
    GetAbsent(c, x, m1, e1);
    NoTail(c, x);
    GetMiddle(c, x, [], m2, e2);
  }

  lemma NotInFront(c: seq<Entry>, x: seq<Entry>, i: nat)
    requires Distinct(c + x) && i < |x|
    ensures !Has(c, x[i].key)
  {
    assert (c + x)[|c| + i] == x[i];
    assert forall j :: 0 <= j < |c| ==> (c + x)[j] == c[j];
  }

  lemma NoTail(c: seq<Entry>, x: seq<Entry>)
    ensures c + x + [] == c + x && Reverse(x) + c + [] == Reverse(x) + c
  {
  }

  lemma ReverseBelow(c: seq<Entry>, x: seq<Entry>, from: nat)
    requires Below(c + x, from)
    ensures Below(Reverse(x) + c, from) && Below(c, from)
  {
    forall i | 0 <= i < |x| ensures Reverse(x)[i].key < from {
      ReverseAt(x, i);
      assert (c + x)[|c| + (|x| - 1 - i)] == x[|x| - 1 - i];
    }
    assert forall i :: 0 <= i < |c| ==> (c + x)[i] == c[i];
  }

  lemma DistinctPrefix(c: seq<Entry>, x: seq<Entry>)
    requires Distinct(c + x)
    ensures Distinct(c)
  {
    assert forall i :: 0 <= i < |c| ==> (c + x)[i] == c[i];
  }

  /** Both caches cut back at the same size, the first further. */
  lemma SameTrigger(m1: U64, e1: U64, m2: U64, e2: U64) returns (t: seq<Op<nat, int>>, x: Entry)
    requires 0 < m1 < m2 && m1 + Slack(m1, e1) == m2 + Slack(m2, e2)
    ensures Separates(t, x, m1, e1, m2, e2)
  {
    var n := m2 + Slack(m2, e2);
    var z := Recent(0, n);
    assert z + [] == z;
    InsertNew([], 0, n, m1, e1);
    InsertNew([], 0, n, m2, e2);
    GrowFacts(0, n, m1, Slack(m1, e1));
    GrowFacts(0, n, m2, Slack(m2, e2));
    RecentOnTop([], 0, n);
    var c, y := z[..m1], z[m1..m2];
    assert c + y == z[..m2];
    GrowFacts(m1, Slack(m2, e2), m1, Slack(m1, e1));
    t := Bury(Inserts(0, n), c, y, n, Slack(m2, e2), m1 - 1, m1, e1, m2, e2);
    x := c[m1 - 1];
  }

  /** A state where the first cache has just cut back while the second is one short of it. */
  lemma Poised(m1: U64, e1: U64, m2: U64, e2: U64)
    returns (t: seq<Op<nat, int>>, c: seq<Entry>, x: seq<Entry>, from: nat)
    requires m1 > 0 && m2 > 0 && m1 + Slack(m1, e1) < m2 + Slack(m2, e2)
    ensures Run(t, m1, e1) == c && Run(t, m2, e2) == c + x
    ensures |c| == m1 && |c| + |x| == m2 + Slack(m2, e2) - 1
    ensures Distinct(c + x) && Below(c + x, from)
  {
    hide Distinct, Below, Slack, Recent, Inserts, Dels;
    var n := m2 + Slack(m2, e2) - 1;
    var s := Grow(0, n, m1, Slack(m1, e1));
    var d := m1 + Slack(m1, e1) - s;
    GrowFacts(0, n, m1, Slack(m1, e1));
    GrowFacts(0, n, m2, Slack(m2, e2));
    Refilled(n, s, d, m1, e1, m2, e2);
    t, from := Inserts(0, n) + Dels(d) + Inserts(n, d), n + d;
    GrowFacts(s, d, m1, Slack(m1, e1));
    GrowFacts(n - d, d, m2, Slack(m2, e2));
    var all := Recent(n, d) + Recent(0, n)[..n - d];
    c, x := all[..m1], all[m1..];
    RecentSize(n, d);
    RecentSize(0, n);
    TakeDrop(all, m1);
  }

  lemma RecentSize(from: nat, n: nat)
    ensures |Recent(from, n)| == n
  {
  }

  /** Insert n keys, delete the d oldest, insert d more: both caches hold a prefix of the same list. */
  lemma Refilled(n: nat, s: nat, d: nat, m1: U64, e1: U64, m2: U64, e2: U64)
    requires m1 > 0 && m2 > 0 && s + d <= n && s < m1 + Slack(m1, e1) && n < m2 + Slack(m2, e2)
    requires Grow(0, n, m1, Slack(m1, e1)) == s && Grow(0, n, m2, Slack(m2, e2)) == n
    ensures var t, all := Inserts(0, n) + Dels(d) + Inserts(n, d), Recent(n, d) + Recent(0, n)[..n - d];
      var g1, g2 := Grow(s, d, m1, Slack(m1, e1)), Grow(n - d, d, m2, Slack(m2, e2));
      && g1 <= n && g2 <= n && |all| == n
      && Run(t, m1, e1) == all[..g1] && Run(t, m2, e2) == all[..g2]
      && Distinct(all) && Below(all, n + d)
      && (g2 == n ==> all[..g2] == all)
  {
    hide Distinct, Below, Slack, Grow, Recent, Inserts, Dels, RunFrom;
    RecentSize(0, n);
    RecentSize(n, d);
    Filled(n, m1, e1);
    Filled(n, m2, e2);
    var z := Recent(0, n);
    TakeDrop(z, n);
    assert z[..n] == z;
    var t1 := Inserts(0, n) + Dels(d);
    DropOld(n, s, d, m1, e1, m2, e2);
    RunConcat([], t1, Inserts(n, d), m1, e1);
    RunConcat([], t1, Inserts(n, d), m2, e2);
    Refill(z, n, s, d, m1, e1);
    Refill(z, n, n - d, d, m2, e2);
    PrefixOfPrefix(Recent(n, d), z, s, n - d, Grow(s, d, m1, Slack(m1, e1)));
    var all := Recent(n, d) + z[..n - d];
    assert all[..n] == all;
  }

  /** What inserting the first n keys leaves. */
  lemma Filled(n: nat, m: U64, e: U64)
    requires m > 0
    ensures var g := Grow(0, n, m, Slack(m, e));
      g <= n && Run(Inserts(0, n), m, e) == Recent(0, n)[..g]
    ensures Distinct(Recent(0, n)) && Below(Recent(0, n), n)
  {
    InsertNew([], 0, n, m, e);
    RecentOnTop([], 0, n);
    assert Recent(0, n) + [] == Recent(0, n);
  }

  /** Inserting d more keys onto a prefix of the first n. */
  lemma Refill(z: seq<Entry>, n: nat, s: nat, d: nat, m: U64, e: U64)
    requires s <= |z| && Distinct(z) && Below(z, n) && m > 0 && s < m + Slack(m, e)
    ensures var g := Grow(s, d, m, Slack(m, e));
      g <= d + s && RunFrom(z[..s], Inserts(n, d), m, e) == (Recent(n, d) + z[..s])[..g]
    ensures Distinct(Recent(n, d) + z[..s]) && Below(Recent(n, d) + z[..s], n + d)
  {
    InsertNew(z[..s], n, d, m, e);
    RecentOnTop(z[..s], n, d);
  }

  lemma PrefixOfPrefix(r: seq<Entry>, z: seq<Entry>, s: nat, u: nat, m: nat)
    requires s <= u <= |z| && m <= |r| + s
    ensures (r + z[..s])[..m] == (r + z[..u])[..m]
  {
  }

  lemma DropOld(n: nat, s: nat, d: nat, m1: U64, e1: U64, m2: U64, e2: U64)
    requires s + d <= n
    requires Run(Inserts(0, n), m1, e1) == Recent(0, n)[..s] && Run(Inserts(0, n), m2, e2) == Recent(0, n)
    ensures Run(Inserts(0, n) + Dels(d), m1, e1) == Recent(0, n)[..s]
    ensures Run(Inserts(0, n) + Dels(d), m2, e2) == Recent(0, n)[..n - d]
  {
    RunConcat([], Inserts(0, n), Dels(d), m1, e1);
    RunConcat([], Inserts(0, n), Dels(d), m2, e2);
    DeleteOldest(n, d, m2, e2);
    forall i | 0 <= i < s ensures Recent(0, n)[..s][i].key >= d { RecentAt(0, n, i); }
    DeleteAbsent(Recent(0, n)[..s], d, m1, e1);
  }

  /** Every pair of bounds that is not nested has a separating trace. */
  lemma Separation(m1: U64, e1: U64, m2: U64, e2: U64) returns (t: seq<Op<nat, int>>, x: Entry)
    requires !Nested(m1, e1, m2, e2)
    ensures Separates(t, x, m1, e1, m2, e2)
  {
    var s1, s2 := Slack(m1, e1), Slack(m2, e2);
    GrowFacts(0, m2 + s2, m1, s1);
    if m1 == 0 || m2 < m1 || m2 + s2 < m1 + s1 {
      t, x := ByInserts(m1, e1, m2, e2);
    } else if m2 + s2 == m1 + s1 {
      t, x := SameTrigger(m1, e1, m2, e2);
    } else {
      var t0, c, y, from := Poised(m1, e1, m2, e2);
      GrowFacts(m1, 1, m1, s1);
      var i := if s1 >= 2 then m1 - 1 else m1 - 2;
      t := Bury(t0, c, y, from, 1, i, m1, e1, m2, e2);
      x := c[i];
    }
  }

  /** The inclusion property characterised: over all traces, the first cache's entries are among
      the second's if and only if the bounds are nested. */
  lemma InclusionIff(m1: U64, e1: U64, m2: U64, e2: U64)
    ensures Nested(m1, e1, m2, e2) <==>
      forall t: seq<Op<nat, int>>, x :: x in Run(t, m1, e1) ==> x in Run(t, m2, e2)
  {
    if Nested(m1, e1, m2, e2) {
      forall t: seq<Op<nat, int>>, x | x in Run(t, m1, e1) ensures x in Run(t, m2, e2) {
        Inclusion(t, m1, e1, m2, e2);
        SubContained(Run(t, m1, e1), Run(t, m2, e2));
      }
    } else {
      var t, x := Separation(m1, e1, m2, e2);
      assert x in Run(t, m1, e1) && x !in Run(t, m2, e2);
    }
  }
}
