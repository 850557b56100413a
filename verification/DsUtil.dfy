/** What the hash containers share: the table size for a number of keys, searching and sorting in a
    bucket. Keys are integers. */
module DsUtil {
  import opened Memory

  // ---- table sizes --------------------------------------------------------------------------

  function Pow2(k: nat): (p: nat)
    ensures p >= 1 && p > k
  {
    if k == 0 then 1 else 2 * Pow2(k - 1)
  }

  /** `floor(log2(n))` */
  function Log2(n: nat): (k: nat)
    requires n >= 1
    ensures Pow2(k) <= n < 2 * Pow2(k)
  {
    if n == 1 then 0 else Log2(n / 2) + 1
  }

  lemma {:induction false} Pow2Grows(i: nat, j: nat)
    requires i < j
    ensures 2 * Pow2(i) <= Pow2(j)
  {
    if i + 1 < j { Pow2Grows(i, j - 1); }
  }

  /** The conversion of a 64-bit count to the 32-bit signed parameter of `basket`. */
  function ToInt32(n: U64): int {
    var m := n % 0x1_0000_0000;
    if m < 0x8000_0000 then m else m - 0x1_0000_0000
  }

  /** Where `basket` is defined: no logarithm of 0, no overflowing absolute value. */
  predicate HasBasket(n: int) {
    n != 0 && -0x8000_0000 < n < 0x8000_0000
  }

  function Basket(n: int): (b: nat)
    requires HasBasket(n)
    ensures 2 <= b <= 0x4000_0000
  {
    var m := if n < 0 then -n else n;
    var k := Log2(m) + 1;
    AtMostThirty(k);
    Pow2(if k < 30 then k else 30)
  }

  lemma AtMostThirty(k: nat)
    ensures 1 <= k < 30 ==> 2 <= Pow2(k) <= 0x4000_0000
    ensures Pow2(30) == 0x4000_0000
  {
    Thirty();
    if k < 30 { Pow2Grows(k, 30); }
    if k > 1 { Pow2Grows(1, k); }
  }

  lemma Thirty()
    ensures Pow2(30) == 0x4000_0000
  {
    assert Pow2(5) == 32;
    assert Pow2(10) == 1024;
    assert Pow2(15) == 1024 * 32;
    assert Pow2(20) == 1024 * 1024;
    assert Pow2(25) == 1024 * 1024 * 32;
  }

  /** The power of two that `basket` takes. */
  lemma BasketIs(n: int, j: nat)
    requires HasBasket(n) && j == Log2(if n < 0 then -n else n) + 1
    ensures Basket(n) == Pow2(if j < 30 then j else 30)
  {
  }

  /** Below 2^30 it is the least power of two above n. */
  lemma BasketLeast(n: nat, k: nat)
    requires 1 <= n < 0x4000_0000
    ensures n < Basket(n) <= 2 * n && exists j :: Basket(n) == Pow2(j)
    ensures Pow2(k) > n ==> Pow2(k) >= Basket(n)
  {
    LogBelow(n, 30);
    BasketIs(n, Log2(n) + 1);
    LogParts(n);
    hide Basket, Log2, Pow2;
    var m := Log2(n);
    if k <= m { PowMonotone(k, m); } else { PowMonotone(m + 1, k); }
  }

  lemma LogParts(n: nat)
    requires n >= 1
    ensures var m := Log2(n); Pow2(m) <= n < Pow2(m + 1) == 2 * Pow2(m)
  {
  }

  lemma PowMonotone(i: nat, j: nat)
    requires i <= j
    ensures Pow2(i) <= Pow2(j)
  {
    if i < j { Pow2Grows(i, j); }
  }

  lemma LogBelow(n: nat, k: nat)
    requires 1 <= n < 0x4000_0000 && k == 30
    ensures Log2(n) < k
  {
    Thirty();
    var m := Log2(n);
    hide Log2;
    if m >= k { PowMonotone(k, m); }
  }

  /** With the conversion to 32 bits the table for `total` keys has more buckets than keys exactly
      for 1 <= total < 2^30. */
  lemma BasketIff(total: U64)
    requires HasBasket(ToInt32(total))
    ensures Basket(ToInt32(total)) > total <==> 1 <= total < 0x4000_0000
  {
    hide Log2, Pow2;
    if 1 <= total < 0x4000_0000 {
      assert ToInt32(total) == total;
      BasketLeast(total, 0);
    } else {
      BasketAtMost(ToInt32(total));
    }
  }

  lemma BasketAtMost(n: int)
    requires HasBasket(n)
    ensures 2 <= Basket(n) <= 0x4000_0000
  {
  }

  /** The sizes a table can have. */
  ghost predicate TableSize(size: nat) {
    exists k :: 1 <= k <= 30 && size == Pow2(k)
  }

  lemma BasketIsSize(n: int)
    requires HasBasket(n)
    ensures TableSize(Basket(n))
  {
    var k := Log2(if n < 0 then -n else n) + 1;
    BasketIs(n, k);
    hide Basket, Log2, Pow2;
  }

  lemma BasketHigh(n: int)
    requires HasBasket(n) && (n >= 0x2000_0000 || n <= -0x2000_0000)
    ensures Basket(n) == 0x4000_0000
  {
    Thirty();
    var j := Log2(if n < 0 then -n else n);
    assert Pow2(30) == 2 * Pow2(29);
    if j < 29 { Pow2Grows(j, 29); }
  }

  lemma BasketOne()
    ensures Basket(1) == 2
  {
    assert Log2(1) == 0 && Pow2(1) == 2;
  }

  /** The load test in exact arithmetic. */
  predicate Crowded(total: nat, size: nat) {
    total > 16 * size
  }

  /** A rehash, should one be due, has a defined table size. */
  predicate CanRehash(total: U64, size: nat) {
    Crowded(total, size) ==> HasBasket(ToInt32(total))
  }

  /** The load bound that growing is for: one key beyond the load test. */
  predicate Balanced(total: nat, size: nat) {
    total <= 16 * size + 1
  }

  /** A rehash that is due below 2^30 keys grows the table and brings the load below 1. */
  lemma RehashGrows(total: U64, size: nat)
    requires size >= 1 && Crowded(total, size) && total < 0x4000_0000
    ensures HasBasket(ToInt32(total)) && Basket(ToInt32(total)) > total && Basket(ToInt32(total)) > 16 * size
  {
    assert ToInt32(total) == total;
    BasketLeast(total, 0);
  }

  /** Below 2^31 keys every rehash brings the load under the test, whatever the table. */
  lemma ReliefBelow(total: U64)
    requires 1 <= total < 0x8000_0000
    ensures HasBasket(ToInt32(total)) && !Crowded(total, Basket(ToInt32(total)))
  {
    assert ToInt32(total) == total;
    hide Basket, ToInt32;
    if total < 0x4000_0000 { BasketLeast(total, 0); } else { BasketHigh(total); }
  }

  lemma HighSizes(k: nat)
    requires 1 <= k <= 30
    ensures k <= 25 ==> Pow2(k) <= 0x200_0000
    ensures k == 26 ==> Pow2(k) == 0x400_0000
    ensures k == 27 ==> Pow2(k) == 0x800_0000
    ensures k == 28 ==> Pow2(k) == 0x1000_0000
    ensures k == 29 ==> Pow2(k) == 0x2000_0000
    ensures k == 30 ==> Pow2(k) == 0x4000_0000
  {
    Thirty();
    assert Pow2(30) == 4 * Pow2(28) && Pow2(28) == 4 * Pow2(26) && Pow2(26) == 2 * Pow2(25);
    if k < 25 { Pow2Grows(k, 25); }
  }

  /** A rehash in a table that kept its load bound: its size is always defined, and it brings the
      load back under the test exactly for tables of fewer than 2^28 buckets. From there on the
      count, just above a multiple of 2^32, asks for two buckets. */
  lemma ReliefIff(total: U64, size: nat)
    requires TableSize(size) && Balanced(total, size) && Crowded(total, size)
    ensures HasBasket(ToInt32(total))
    ensures !Crowded(total, Basket(ToInt32(total))) <==> size < 0x1000_0000
    ensures size >= 0x1000_0000 ==> Basket(ToInt32(total)) == 2
  {
    hide Pow2, Basket, ToInt32;
    var k :| 1 <= k <= 30 && size == Pow2(k);
    HighSizes(k);
    BasketOne();
    if k <= 25 {
      RehashGrows(total, size);
    } else if k <= 27 {
      ConvertedHigh(total, size);
      BasketHigh(ToInt32(total));
    } else {
      ConvertedOne(total, size);
    }
  }

  /** The table after an insertion: a rehash first if one was due, then at most one key more. */
  lemma Regrown(total: U64, size: nat, total': nat, size': nat)
    requires CanRehash(total, size) && size >= 1 && total <= total' <= total + 1
    requires size' == if Crowded(total, size) then Basket(ToInt32(total)) else size
    ensures total <= 16 * size ==> size' == size
    ensures 16 * size < total < 0x4000_0000 ==> total < size' <= 2 * total
    ensures TableSize(size) ==> TableSize(size')
    ensures TableSize(size) && total <= 16 * size + 1 ==>
      (total' <= 16 * size' + 1 <==> size < 0x1000_0000 || total <= 16 * size)
  {
    hide Basket, ToInt32, TableSize;
    if Crowded(total, size) {
      BasketIsSize(ToInt32(total));
      if total < 0x4000_0000 {
        ConvertedSmall(total);
        BasketLeast(total, 0);
      }
      if TableSize(size) && Balanced(total, size) { ReliefIff(total, size); }
    }
  }

  lemma ConvertedSmall(total: U64)
    requires total < 0x8000_0000
    ensures ToInt32(total) == total
  {
  }

  /** The conversion to 32 bits in two's complement: the one value in range that is the same modulo
      2^32. */
  lemma Converted(n: U64, m: int)
    ensures -0x8000_0000 <= m < 0x8000_0000 && (n - m) % 0x1_0000_0000 == 0 <==> m == ToInt32(n)
  {
    var q, r := n / 0x1_0000_0000, n % 0x1_0000_0000;
    assert n == 0x1_0000_0000 * q + r;
    if (n - m) % 0x1_0000_0000 == 0 {
      assert n - m == 0x1_0000_0000 * ((n - m) / 0x1_0000_0000);
    }
  }

  /** A negative count asks for the same table as its absolute value, from 2^29 on for 2^30 buckets. */
  lemma BasketSign(n: int)
    requires HasBasket(n)
    ensures Basket(n) == Basket(-n)
    ensures n >= 0x2000_0000 ==> Basket(n) == 0x4000_0000
  {
    if n >= 0x2000_0000 { BasketHigh(n); }
  }

  lemma ConvertedHigh(total: U64, size: nat)
    requires (size == 0x400_0000 || size == 0x800_0000) && total == 16 * size + 1
    ensures var n := ToInt32(total); -0x8000_0000 < n < 0x8000_0000 && (n >= 0x2000_0000 || n <= -0x2000_0000)
  {
  }

  lemma ConvertedOne(total: U64, size: nat)
    requires size == 0x1000_0000 || size == 0x2000_0000 || size == 0x4000_0000
    requires total == 16 * size + 1
    ensures ToInt32(total) == 1
  {
  }

  // ---- buckets ------------------------------------------------------------------------------

  datatype Node<P> = Node(key: int, val: P)

  /** Sorted by `operator<`, which compares keys alone. */
  ghost predicate Sorted<P>(b: seq<Node<P>>) {
    forall i, j :: 0 <= i < j < |b| ==> b[i].key <= b[j].key
  }

  /** Each key stands once. */
  ghost predicate Unique<P>(b: seq<Node<P>>) {
    forall i, j :: 0 <= i < j < |b| ==> b[i].key != b[j].key
  }

  ghost predicate Ordered<P>(b: seq<Node<P>>) {
    Sorted(b) && Unique(b)
  }

  /** `BinarySearch`: the position of key k, or the end. The search itself is `lower_bound`. */
  function BinarySearch<P>(b: seq<Node<P>>, k: int): (p: nat)
    ensures p <= |b| && (p < |b| ==> b[p].key == k)
  {
    var p := LowerBound(b, k, 0, |b|);
    if p == |b| then p else if !(k < b[p].key) && !(b[p].key < k) then p else |b|
  }

  /** Bisection for the first key that is not below k. */
  function LowerBound<P>(b: seq<Node<P>>, k: int, lo: nat, hi: nat): (p: nat)
    requires lo <= hi <= |b|
    ensures lo <= p <= hi
    decreases hi - lo
  {
    if lo == hi then lo else
    var mid := (lo + hi) / 2;
    if b[mid].key < k then LowerBound(b, k, mid + 1, hi) else LowerBound(b, k, lo, mid)
  }

  /** Position p parts the keys below k from the others, judged by its two neighbours. */
  ghost predicate Parts<P>(b: seq<Node<P>>, k: int, p: nat) {
    p <= |b| && (p > 0 ==> b[p - 1].key < k) && (p < |b| ==> b[p].key >= k)
  }

  lemma {:induction false} LowerBoundSplits<P>(b: seq<Node<P>>, k: int, lo: nat, hi: nat)
    requires lo <= hi <= |b|
    requires lo > 0 ==> b[lo - 1].key < k
    requires hi < |b| ==> b[hi].key >= k
    ensures Parts(b, k, LowerBound(b, k, lo, hi))
    decreases hi - lo
  {
    hide LowerBound;
    if lo < hi {
      LowerBoundStep(b, k, lo, hi);
      var mid := (lo + hi) / 2;
      if b[mid].key < k { LowerBoundSplits(b, k, mid + 1, hi); } else { LowerBoundSplits(b, k, lo, mid); }
    } else {
      LowerBoundEnd(b, k, lo);
    }
  }

  lemma LowerBoundEnd<P>(b: seq<Node<P>>, k: int, lo: nat)
    requires lo <= |b|
    ensures LowerBound(b, k, lo, lo) == lo
  {
  }

  lemma LowerBoundStep<P>(b: seq<Node<P>>, k: int, lo: nat, hi: nat)
    requires lo < hi <= |b|
    ensures var mid := (lo + hi) / 2;
      && lo <= mid < hi
      && LowerBound(b, k, lo, hi) == if b[mid].key < k then LowerBound(b, k, mid + 1, hi) else LowerBound(b, k, lo, mid)
  {
  }

  /** In a sorted list the search finds every key that is there. */
  lemma SearchFinds<P>(b: seq<Node<P>>, i: nat)
    requires Sorted(b) && i < |b|
    ensures BinarySearch(b, b[i].key) < |b|
    ensures Unique(b) ==> BinarySearch(b, b[i].key) == i
  {
    LowerBoundSplits(b, b[i].key, 0, |b|);
  }

  /** `SortLast`: a sorted list with one node appended, sorted by moving that node down. */
  method SortLast<P>(s: seq<Node<P>>) returns (t: seq<Node<P>>)
    requires s != [] ==> Sorted(s[..|s| - 1])
    ensures Sorted(t) && |t| == |s| && multiset(t) == multiset(s)
  {
    t := s;
    if |t| <= 1 {
      return;
    }
    var i := |s| - 2;
    while i >= 0
      invariant -1 <= i <= |s| - 2 && |t| == |s| && multiset(t) == multiset(s)
      invariant Sinking(t, i + 1)
    {
      if t[i + 1].key < t[i].key {
        SinkStep(t, i);
        SwapMultiset(t, i);
        t := t[i := t[i + 1]][i + 1 := t[i]];
      } else {
        SinkDone(t, i);
        return;
      }
      i := i - 1;
    }
    SinkEnd(t);
  }

  /** Sorted but for the node at p, which is below everything after it. */
  ghost predicate Sinking<P>(t: seq<Node<P>>, p: nat) {
    && p < |t|
    && (forall i, j :: 0 <= i < j < |t| && i != p && j != p ==> t[i].key <= t[j].key)
    && (forall j :: p < j < |t| ==> t[p].key <= t[j].key)
  }

  lemma SinkStep<P>(t: seq<Node<P>>, i: nat)
    requires Sinking(t, i + 1) && t[i + 1].key < t[i].key
    ensures Sinking(t[i := t[i + 1]][i + 1 := t[i]], i)
  {
    var u := t[i := t[i + 1]][i + 1 := t[i]];
    forall a, b | 0 <= a < b < |u| && a != i && b != i ensures u[a].key <= u[b].key {
      assert u[a] == t[if a == i + 1 then i else a] && u[b] == t[if b == i + 1 then i else b];
    }
    forall b | i < b < |u| ensures u[i].key <= u[b].key { assert b == i + 1 || u[b] == t[b]; }
  }

  lemma SinkDone<P>(t: seq<Node<P>>, i: nat)
    requires Sinking(t, i + 1) && t[i + 1].key >= t[i].key
    ensures Sorted(t)
  {
    forall a, b | 0 <= a < b < |t| ensures t[a].key <= t[b].key {
      if b == i + 1 && a < i { assert t[a].key <= t[i].key; }
    }
  }

  lemma SinkEnd<P>(t: seq<Node<P>>)
    requires Sinking(t, 0)
    ensures Sorted(t)
  {
  }

  lemma SwapMultiset<T>(t: seq<T>, i: nat)
    requires i + 1 < |t|
    ensures multiset(t[i := t[i + 1]][i + 1 := t[i]]) == multiset(t)
  {
  }

  /** `std::sort` */
  method Sort<P>(s: seq<Node<P>>) returns (t: seq<Node<P>>)
    ensures Sorted(t) && |t| == |s| && multiset(t) == multiset(s)
  {
    t := [];
    var i := 0;
    while i < |s|
      invariant i <= |s| && |t| == i && Sorted(t) && multiset(t) == multiset(s[..i])
    {
      assert (t + [s[i]])[..|t|] == t && s[..i + 1] == s[..i] + [s[i]];
      t := SortLast(t + [s[i]]);
      i := i + 1;
    }
    assert s[..i] == s;
  }

  /** Rearranging keeps the members, and keeps keys unique. */
  lemma Rearranged<P>(s: seq<Node<P>>, t: seq<Node<P>>)
    requires multiset(s) == multiset(t)
    ensures |s| == |t| && (forall x :: x in s <==> x in t) && (Unique(s) ==> Unique(t))
  {
    assert |multiset(s)| == |s| && |multiset(t)| == |t|;
    forall x ensures x in s <==> x in t {
      assert x in s <==> x in multiset(s);
      assert x in t <==> x in multiset(t);
    }
    if Unique(s) {
      forall i, j | 0 <= i < j < |t| ensures t[i].key != t[j].key {
        Twice(t, i, j);
        assert t[i] in s && t[j] in s;
        if t[i] == t[j] { Once(s, t[i]); }
      }
    }
  }

  lemma Twice<T>(t: seq<T>, i: nat, j: nat)
    requires i < j < |t|
    ensures t[i] == t[j] ==> multiset(t)[t[i]] >= 2
  {
    assert t == t[..i] + [t[i]] + t[i + 1..j] + [t[j]] + t[j + 1..];
  }

  lemma {:induction false} Once<P>(s: seq<Node<P>>, x: Node<P>)
    requires Unique(s)
    ensures multiset(s)[x] <= 1
  {
    if s != [] {
      var n := |s| - 1;
      Once(s[..n], x);
      assert s == s[..n] + [s[n]];
      assert forall i :: 0 <= i < n ==> s[..n][i] == s[i] != s[n];
      assert s[n] !in s[..n];
    }
  }
}
