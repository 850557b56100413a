/** A set of 64-bit values as an ordered list of 32-bit sets, one for each high half that was ever
    used; some of them may be empty. */
module Roaring64Spec {
  import opened Memory

  const B: int := 0x1_0000_0000
  const W: int := 0x1_0000_0000_0000_0000

  /** One node of the ordered map. */
  datatype Entry = Entry(high: U32, lows: set<U32>)

  function HighBytes(x: U64): U32 { x / B }

  function LowBytes(x: U64): U32 { x % B }

  function UniteBytes(high: U32, low: U32): U64 { high * B + low }

  /** Splitting and joining are inverse, and the order is that of the pair of halves. */
  lemma Halves(x: U64, y: U64, high: U32, low: U32)
    ensures UniteBytes(HighBytes(x), LowBytes(x)) == x
    ensures HighBytes(UniteBytes(high, low)) == high && LowBytes(UniteBytes(high, low)) == low
    ensures x <= y <==> HighBytes(x) < HighBytes(y) || (HighBytes(x) == HighBytes(y) && LowBytes(x) <= LowBytes(y))
  {
  }

  ghost predicate Sorted(es: seq<Entry>) {
    forall i, j :: 0 <= i < j < |es| ==> es[i].high < es[j].high
  }

  /** `lower_bound`: the first node whose key is not below h. */
  function LowerBound(es: seq<Entry>, h: U32): (p: nat)
    ensures p <= |es|
    ensures forall i :: 0 <= i < p ==> es[i].high < h
    ensures p < |es| ==> es[p].high >= h
  {
    if es == [] || es[0].high >= h then 0 else 1 + LowerBound(es[1..], h)
  }

  /** The low halves stored under the high half h: none if there is no node. */
  function At(es: seq<Entry>, h: U32): set<U32> {
    var p := LowerBound(es, h);
    if p < |es| && es[p].high == h then es[p].lows else {}
  }

  /** What the list means. */
  predicate Holds(es: seq<Entry>, x: U64) {
    LowBytes(x) in At(es, HighBytes(x))
  }

  lemma AtIndex(es: seq<Entry>, i: nat)
    requires Sorted(es) && i < |es|
    ensures LowerBound(es, es[i].high) == i && At(es, es[i].high) == es[i].lows
  {
  }

  lemma AtMissing(es: seq<Entry>, h: U32)
    requires forall i :: 0 <= i < |es| ==> es[i].high != h
    ensures At(es, h) == {}
  {
  }

  /** Changing the lows of one node changes what is stored under its key alone. */
  lemma AtChanged(es: seq<Entry>, i: nat, lows: set<U32>, h: U32)
    requires Sorted(es) && i < |es|
    ensures var t := es[i := Entry(es[i].high, lows)];
      Sorted(t) && At(t, h) == if h == es[i].high then lows else At(es, h)
  {
    var t := es[i := Entry(es[i].high, lows)];
    AtIndex(t, i);
    var p := LowerBound(es, h);
    if h != es[i].high {
      if p < |es| && es[p].high == h { AtIndex(t, p); } else { AbsentKey(es, h); AtMissing(t, h); }
    }
  }

  lemma AbsentKey(es: seq<Entry>, h: U32)
    requires Sorted(es) && (LowerBound(es, h) < |es| ==> es[LowerBound(es, h)].high != h)
    ensures forall i :: 0 <= i < |es| ==> es[i].high != h
  {
    var p := LowerBound(es, h);
    forall i | 0 <= i < |es| ensures es[i].high != h {
      if i > p { assert es[p].high < es[i].high; }
    }
  }

  /** `operator[]` on a missing key: a new node at its place in the order. */
  function Placed(es: seq<Entry>, e: Entry): seq<Entry> {
    if es == [] || es[0].high >= e.high then [e] + es else [es[0]] + Placed(es[1..], e)
  }

  lemma AtCons(x: Entry, es: seq<Entry>, h: U32)
    requires Sorted([x] + es)
    ensures At([x] + es, h) == if x.high == h then x.lows else At(es, h)
  {
    var t := [x] + es;
    assert t[1..] == es;
    if x.high > h {
      forall i | 0 <= i < |es| ensures es[i].high != h { assert t[0].high < t[i + 1].high; }
      AtMissing(es, h);
    }
  }

  lemma SortedCons(x: Entry, es: seq<Entry>)
    requires Sorted(es) && forall i :: 0 <= i < |es| ==> x.high < es[i].high
    ensures Sorted([x] + es)
  {
  }

  lemma SortedTail(es: seq<Entry>)
    requires Sorted(es) && es != []
    ensures Sorted(es[1..]) && forall i :: 0 <= i < |es[1..]| ==> es[0].high < es[1..][i].high
  {
    forall i | 0 <= i < |es[1..]| ensures es[0].high < es[1..][i].high { assert es[1..][i] == es[i + 1]; }
  }

  lemma {:induction false} PlacedMembers(es: seq<Entry>, e: Entry, x: Entry)
    ensures x in Placed(es, e) <==> x == e || x in es
  {
    if es != [] && es[0].high < e.high {
      PlacedMembers(es[1..], e, x);
      assert es == [es[0]] + es[1..];
    }
  }

  /** A new node changes what is stored under its key alone. */
  lemma {:induction false} AtPlaced(es: seq<Entry>, e: Entry, h: U32)
    requires Sorted(es) && (LowerBound(es, e.high) < |es| ==> es[LowerBound(es, e.high)].high != e.high)
    ensures Sorted(Placed(es, e))
    ensures At(Placed(es, e), h) == if h == e.high then e.lows else At(es, h)
  {
    hide Sorted, At;
    if es == [] {
      assert [e] + [] == [e];
      SortedCons(e, es);
      AtCons(e, es, h);
    } else {
      SortedTail(es);
      var rest := es[1..];
      assert es == [es[0]] + rest;
      if es[0].high >= e.high {
        SortedCons(e, es);
        AtCons(e, es, h);
      } else {
        AtPlaced(rest, e, h);
        var t := Placed(rest, e);
        forall i | 0 <= i < |t| ensures es[0].high < t[i].high {
          PlacedMembers(rest, e, t[i]);
        }
        SortedCons(es[0], t);
        AtCons(es[0], t, h);
        AtCons(es[0], rest, h);
      }
    }
  }

  // ---- the members and how many ------------------------------------------------------------

  ghost function Shifted(high: U32, lows: set<U32>): (s: set<U64>)
    ensures forall x :: x in s <==> HighBytes(x) == high && LowBytes(x) in lows
  {
    var s := set l | l in lows :: UniteBytes(high, l);
    assert forall x: U64 :: HighBytes(x) == high && LowBytes(x) in lows ==> x in s by {
      forall x: U64 | HighBytes(x) == high && LowBytes(x) in lows ensures x in s {
        assert x == UniteBytes(high, LowBytes(x));
      }
    }
    s
  }

  lemma {:induction false} ShiftedSize(high: U32, lows: set<U32>)
    ensures |Shifted(high, lows)| == |lows|
  {
    if lows != {} {
      var l :| l in lows;
      ShiftedSize(high, lows - {l});
      Halves(0, 0, high, l);
      assert Shifted(high, lows) == Shifted(high, lows - {l}) + {UniteBytes(high, l)};
    }
  }

  ghost function Members(es: seq<Entry>): set<U64> {
    if es == [] then {} else Members(es[..|es| - 1]) + Shifted(es[|es| - 1].high, es[|es| - 1].lows)
  }

  lemma {:induction false} MembersHold(es: seq<Entry>, x: U64)
    requires Sorted(es)
    ensures x in Members(es) <==> Holds(es, x)
  {
    if es != [] {
      var n := |es| - 1;
      MembersHold(es[..n], x);
      var h := HighBytes(x);
      if h == es[n].high {
        AtIndex(es, n);
        AtMissing(es[..n], h);
      } else {
        AtPrefix(es, n, h);
      }
    }
  }

  /** Nodes of other keys at the end do not matter. */
  lemma AtPrefix(es: seq<Entry>, n: nat, h: U32)
    requires Sorted(es) && n <= |es| && forall i :: n <= i < |es| ==> es[i].high != h
    ensures At(es[..n], h) == At(es, h)
  {
    var p := LowerBound(es, h);
    if p < |es| && es[p].high == h {
      AtIndex(es[..n], p);
    } else {
      AbsentKey(es, h);
      AtMissing(es[..n], h);
    }
  }

  /** The members up to x. */
  ghost function UpTo(s: set<U64>, x: U64): set<U64> {
    set y | y in s && y <= x
  }

  function LowsUpTo(s: set<U32>, l: U32): set<U32> {
    set y | y in s && y <= l
  }

  lemma UpToIs(s: set<U64>, x: U64)
    ensures UpTo(s, x) == set y | y in s && y <= x
    ensures x in s ==> |set y | y in s && y < x| == |UpTo(s, x)| - 1
  {
    var below := set y | y in s && y < x;
    if x in s { assert UpTo(s, x) == below + {x}; }
  }

  ghost function Sum(es: seq<Entry>): nat {
    if es == [] then 0 else Sum(es[..|es| - 1]) + |es[|es| - 1].lows|
  }

  /** What the rank loop adds up. */
  ghost function RankSum(es: seq<Entry>, x: U64): nat {
    if es == [] then 0 else
    var e := es[|es| - 1];
    RankSum(es[..|es| - 1], x) +
      if e.high < HighBytes(x) then |e.lows|
      else if e.high == HighBytes(x) then |LowsUpTo(e.lows, LowBytes(x))|
      else 0
  }

  lemma {:induction false} SumCounts(es: seq<Entry>)
    requires Sorted(es)
    ensures |Members(es)| == Sum(es)
  {
    if es != [] {
      var n := |es| - 1;
      SumCounts(es[..n]);
      ShiftedSize(es[n].high, es[n].lows);
      OtherKeys(es, n);
      UnionSize(Members(es[..n]), Shifted(es[n].high, es[n].lows));
    }
  }

  lemma OtherKeys(es: seq<Entry>, n: nat)
    requires Sorted(es) && n < |es|
    ensures Members(es[..n]) !! Shifted(es[n].high, es[n].lows)
    ensures forall x :: x in Members(es[..n]) ==> HighBytes(x) < es[n].high
  {
    forall x | x in Members(es[..n]) ensures HighBytes(x) < es[n].high {
      MembersHold(es[..n], x);
      var p := LowerBound(es[..n], HighBytes(x));
      assert es[..n][p] == es[p];
    }
  }

  lemma {:induction false} RankCounts(es: seq<Entry>, x: U64)
    requires Sorted(es)
    ensures |UpTo(Members(es), x)| == RankSum(es, x)
  {
    if es != [] {
      var n := |es| - 1;
      var e := es[n];
      RankCounts(es[..n], x);
      OtherKeys(es, n);
      var s := Shifted(e.high, e.lows);
      assert UpTo(Members(es), x) == UpTo(Members(es[..n]), x) + UpTo(s, x);
      UnionSize(UpTo(Members(es[..n]), x), UpTo(s, x));
      ShiftedUpTo(e.high, e.lows, x);
    }
  }

  lemma ShiftedUpTo(high: U32, lows: set<U32>, x: U64)
    ensures |UpTo(Shifted(high, lows), x)| ==
      if high < HighBytes(x) then |lows| else if high == HighBytes(x) then |LowsUpTo(lows, LowBytes(x))| else 0
  {
    var s := Shifted(high, lows);
    forall y: U64 ensures y <= x <==> HighBytes(y) < HighBytes(x) || (HighBytes(y) == HighBytes(x) && LowBytes(y) <= LowBytes(x)) {
      Halves(y, x, 0, 0);
    }
    if high < HighBytes(x) {
      assert UpTo(s, x) == s;
      ShiftedSize(high, lows);
    } else if high == HighBytes(x) {
      assert UpTo(s, x) == Shifted(high, LowsUpTo(lows, LowBytes(x)));
      ShiftedSize(high, LowsUpTo(lows, LowBytes(x)));
    } else {
      assert UpTo(s, x) == {};
    }
  }

  /** The rank sum is the sizes before the first node not below, and that node's own rank if it has
      the key. */
  lemma {:induction false} RankSplit(es: seq<Entry>, x: U64)
    requires Sorted(es)
    ensures var p := LowerBound(es, HighBytes(x));
      p <= |es| && RankSum(es, x) == Sum(es[..p]) + |LowsUpTo(At(es, HighBytes(x)), LowBytes(x))|
  {
    hide Sorted, At, LowsUpTo, LowerBound;
    NoLows(LowBytes(x));
    BoundIn(es, HighBytes(x));
    if es == [] {
      AtNothing(HighBytes(x));
    } else {
      var n := |es| - 1;
      SortedFront(es);
      RankSplit(es[..n], x);
      LastNode(es, HighBytes(x));
      FrontSlices(es, LowerBound(es, HighBytes(x)));
    }
  }

  lemma NoLows(l: U32)
    ensures LowsUpTo({}, l) == {}
  {
  }

  lemma AtNothing(h: U32)
    ensures At([], h) == {}
  {
  }

  lemma BoundIn(es: seq<Entry>, h: U32)
    ensures LowerBound(es, h) <= |es|
  {
  }

  lemma SortedFront(es: seq<Entry>)
    requires Sorted(es) && es != []
    ensures Sorted(es[..|es| - 1])
  {
  }

  lemma FrontSlices(es: seq<Entry>, p: nat)
    requires es != [] && p <= |es|
    ensures var n := |es| - 1;
      es[..n][..n] == es[..n] && es[..n + 1] == es && (p <= n ==> es[..n][..p] == es[..p])
  {
  }

  /** The bound and what is stored at h, with and without the last node. */
  lemma LastNode(es: seq<Entry>, h: U32)
    requires Sorted(es) && es != []
    ensures var n := |es| - 1;
      var p, q := LowerBound(es, h), LowerBound(es[..n], h);
      && (es[n].high < h ==> p == n + 1 && q == n && At(es[..n], h) == At(es, h))
      && (es[n].high == h ==> p == n == q && At(es[..n], h) == {} && At(es, h) == es[n].lows)
      && (es[n].high > h ==> q == p <= n && At(es[..n], h) == At(es, h))
  {
    hide Sorted, At, LowerBound;
    var n := |es| - 1;
    BoundPrefix(es, n, h);
    if es[n].high == h {
      FrontMissing(es);
      AtIndex(es, n);
      AtMissing(es[..n], h);
    } else {
      AtPrefix(es, n, h);
      if es[n].high < h { BoundAfter(es, h); } else { BoundBefore(es, h); }
    }
  }

  lemma BoundAfter(es: seq<Entry>, h: U32)
    requires Sorted(es) && es != [] && es[|es| - 1].high < h
    ensures LowerBound(es, h) == |es|
  {
    BeyondBound(es, h);
  }

  lemma BoundBefore(es: seq<Entry>, h: U32)
    requires es != [] && es[|es| - 1].high > h
    ensures LowerBound(es, h) < |es|
  {
  }

  lemma FrontMissing(es: seq<Entry>)
    requires Sorted(es) && es != []
    ensures var n := |es| - 1; forall i :: 0 <= i < n ==> es[..n][i].high != es[n].high
  {
  }

  lemma BeyondBound(es: seq<Entry>, h: U32)
    requires Sorted(es)
    ensures forall i :: LowerBound(es, h) <= i < |es| ==> es[i].high >= h
  {
    var p := LowerBound(es, h);
    forall i | p <= i < |es| ensures es[i].high >= h {
      if i > p { assert es[p].high < es[i].high; }
    }
  }

  lemma BoundPrefix(es: seq<Entry>, n: nat, h: U32)
    requires Sorted(es) && n <= |es|
    ensures LowerBound(es[..n], h) == if LowerBound(es, h) < n then LowerBound(es, h) else n
  {
    var p, q := LowerBound(es, h), LowerBound(es[..n], h);
    BeyondBound(es, h);
    assert q < n ==> es[..n][q] == es[q];
    assert p < n ==> es[..n][p] == es[p];
  }

  // ---- sizes ------------------------------------------------------------------------------------

  lemma LowsFit(s: set<U32>)
    ensures |s| <= B
  {
    SubsetSize<int>(s, Range(0, B - 1));
    RangeSize(0, B - 1);
  }

  lemma {:induction false} KeysSpread(es: seq<Entry>, i: nat)
    requires Sorted(es) && i < |es|
    ensures es[i].high >= i
  {
    if i > 0 { KeysSpread(es, i - 1); }
  }

  lemma KeysFit(es: seq<Entry>)
    requires Sorted(es)
    ensures |es| <= B
  {
    if es != [] { KeysSpread(es, |es| - 1); }
  }

  predicate Saturated(es: seq<Entry>) {
    forall i :: 0 <= i < |es| ==> |es[i].lows| == B
  }

  /** The total size is largest exactly when every node is saturated. */
  lemma {:induction false} SumFits(es: seq<Entry>)
    ensures Sum(es) <= |es| * B && (Sum(es) == |es| * B <==> Saturated(es))
  {
    if es != [] {
      var n := |es| - 1;
      SumFits(es[..n]);
      LowsFit(es[n].lows);
      assert Saturated(es) <==> Saturated(es[..n]) && |es[n].lows| == B by {
        assert forall i :: 0 <= i < |es| ==> i == n || es[i] == es[..n][i];
      }
    }
  }

  /** The bitmap holds all 2^64 values exactly when there is a node for every high half and each
      is saturated. */
  lemma FullIff(es: seq<Entry>)
    requires Sorted(es)
    ensures |Members(es)| <= W
    ensures |Members(es)| == W <==> |es| == B && Saturated(es)
  {
    SumCounts(es);
    SumFits(es);
    KeysFit(es);
  }

  lemma SumNone(es: seq<Entry>)
    ensures Sum(es[..0]) == 0
  {
  }

  /** Adding in 64 bits is adding and wrapping once at the end. */
  lemma Wrap(a: nat, b: nat)
    ensures (a % W + b) % W == (a + b) % W
  {
    var q, c := a / W, a % W + b;
    assert a + b == W * q + c;
    WrapTimes(q, c);
  }

  lemma WrapTimes(q: nat, c: nat)
    ensures (W * q + c) % W == c % W
  {
    var d := c / W;
    assert W * q + c == W * (q + d) + c % W;
  }

  lemma {:induction false} PrefixSum(es: seq<Entry>, i: nat)
    requires i <= |es|
    ensures Sum(es[..i]) <= Sum(es) && (i < |es| ==> Sum(es[..i + 1]) == Sum(es[..i]) + |es[i].lows|)
  {
    if i == |es| {
      assert es[..i] == es;
    } else {
      var n := |es| - 1;
      assert es[..i + 1][..i] == es[..i];
      if i < n {
        PrefixSum(es[..n], i);
        assert es[..n][..i] == es[..i];
      }
    }
  }

  /** The 64-bit rank is the true rank except for the largest value of a full bitmap, where it
      wraps to 0. */
  lemma RankWraps(es: seq<Entry>, x: U64)
    requires Sorted(es)
    ensures var n := |UpTo(Members(es), x)|;
      && n <= W
      && (n == W <==> |Members(es)| == W && x == W - 1)
      && (n % W == n <==> !(|Members(es)| == W && x == W - 1))
  {
    hide Members, Sorted;
    var s := Members(es);
    FullIff(es);
    SubsetSize(UpTo(s, x), s);
    UpToFits(s, x);
  }

  lemma UpToFits(s: set<U64>, x: U64)
    ensures |UpTo(s, x)| <= x + 1 && (x == W - 1 ==> UpTo(s, x) == s)
  {
    SubsetSize<int>(UpTo(s, x), Range(0, x));
    RangeSize(0, x);
  }

  /** Members have different ranks: selecting at rank(x) - 1 can only give back x. */
  lemma RankInjective(s: set<U64>, x: U64, y: U64)
    requires x in s && y in s && |UpTo(s, x)| == |UpTo(s, y)|
    ensures x == y
  {
    var lo, hi := if x <= y then x else y, if x <= y then y else x;
    if lo < hi {
      assert UpTo(s, lo) <= UpTo(s, hi) - {hi} && hi in UpTo(s, hi);
      SubsetSize(UpTo(s, lo), UpTo(s, hi) - {hi});
    }
  }
}
