/** The 64-bit bitmap: an ordered map of 32-bit bitmaps changed in place. The 32-bit bitmaps are
    plain sets here. */
module Roaring64Maps {
  import opened Memory
  import opened Roaring64Spec

  /** The k-th smallest member, counting from 0. */
  ghost predicate Nth(s: set<U32>, k: nat, e: U32) {
    e in s && |LowsUpTo(s, e)| == k + 1
  }

  lemma {:induction false} NthExists(s: set<U32>, k: nat) returns (e: U32)
    requires k < |s|
    ensures Nth(s, k, e)
  {
    var top := Largest(s);
    if k == |s| - 1 {
      assert LowsUpTo(s, top) == s;
      return top;
    }
    e := NthExists(s - {top}, k);
    assert LowsUpTo(s, e) == LowsUpTo(s - {top}, e);
  }

  lemma {:induction false} Largest(s: set<U32>) returns (m: U32)
    requires s != {}
    ensures m in s && forall x :: x in s ==> x <= m
  {
    var x :| x in s;
    m := x;
    if s != {x} {
      var n := Largest(s - {x});
      if n > x { m := n; }
      assert forall y :: y in s ==> y in s - {x} || y == x;
    }
  }

  class Roaring64Map {
    var roarings: seq<Entry>

    ghost predicate Valid()
      reads this
    {
      Sorted(roarings)
    }

    ghost function Contents(): set<U64>
      reads this
    {
      Members(roarings)
    }

    constructor ()
      ensures Valid() && Contents() == {}
    {
      roarings := [];
    }

    /** `operator[]`: the position of the node for h, made with an empty bitmap if missing. */
    method Node(h: U32) returns (p: nat)
      requires Valid()
      modifies this
      ensures Valid() && p < |roarings| && roarings[p].high == h
      ensures forall k: U32 :: At(roarings, k) == At(old(roarings), k)
    {
      p := LowerBound(roarings, h);
      if p == |roarings| || roarings[p].high != h {
        AbsentNode(roarings, h);
        roarings := Placed(roarings, Entry(h, {}));
        p := LowerBound(roarings, h);
      }
    }

    /** Stores new low halves in an existing node. */
    method Store(p: nat, lows: set<U32>)
      requires Valid() && p < |roarings|
      modifies this
      ensures Valid() && |roarings| == |old(roarings)|
      ensures forall i :: 0 <= i < |roarings| ==>
        roarings[i] == if i == p then Entry(old(roarings)[p].high, lows) else old(roarings)[i]
      ensures forall k: U32 :: At(roarings, k) == if k == old(roarings)[p].high then lows else At(old(roarings), k)
    {
      ghost var s := roarings;
      roarings := roarings[p := Entry(roarings[p].high, lows)];
      forall k: U32 ensures At(roarings, k) == if k == s[p].high then lows else At(s, k) {
        AtChanged(s, p, lows, k);
      }
      AtChanged(s, p, lows, 0);
    }

    method Add(x: U64)
      requires Valid()
      modifies this
      ensures Valid() && Contents() == old(Contents()) + {x}
    {
      hide Sorted, At, Members;
      MembersAre(roarings);
      var p := Node(HighBytes(x));
      AtIndex(roarings, p);
      Store(p, roarings[p].lows + {LowBytes(x)});
      MembersAre(roarings);
    }

    method Remove(x: U64)
      requires Valid()
      modifies this
      ensures Valid() && Contents() == old(Contents()) - {x}
    {
      hide Sorted, Members;
      MembersAre(roarings);
      var p := LowerBound(roarings, HighBytes(x));
      if p < |roarings| && roarings[p].high == HighBytes(x) {
        Store(p, roarings[p].lows - {LowBytes(x)});
      }
      MembersAre(roarings);
    }

    method Contains(x: U64) returns (b: bool)
      requires Valid()
      ensures b == (x in Contents())
    {
      MembersAre(roarings);
      var p := LowerBound(roarings, HighBytes(x));
      b := p < |roarings| && roarings[p].high == HighBytes(x) && LowBytes(x) in roarings[p].lows;
    }

    /** Keeps the members that r has too; nodes stay even when they become empty. */
    method Intersect(r: Roaring64Map)
      requires Valid() && r.Valid()
      modifies this
      ensures Valid() && Contents() == old(Contents()) * old(r.Contents())
    {
      hide Members, Sorted, At, LowerBound, Holds;
      ghost var s := roarings;
      var rs := r.roarings;
      var i := 0;
      while i < |roarings|
        invariant Valid() && i <= |roarings| == |s|
        invariant forall j :: 0 <= j < i ==> roarings[j] == Entry(s[j].high, s[j].lows * At(rs, s[j].high))
        invariant forall j :: i <= j < |s| ==> roarings[j] == s[j]
      {
        FoundAt(rs, roarings[i].high);
        var p := LowerBound(rs, roarings[i].high);
        if p < |rs| && rs[p].high == roarings[i].high {
          Store(i, roarings[i].lows * rs[p].lows);
        } else {
          Store(i, {});
        }
        i := i + 1;
      }
      MetMembers(s, rs, roarings);
    }

    /** Takes out the members of r. */
    method Subtract(r: Roaring64Map)
      requires Valid() && r.Valid()
      modifies this
      ensures Valid() && Contents() == old(Contents()) - old(r.Contents())
    {
      hide Members, Sorted, At, LowerBound, Holds;
      ghost var s := roarings;
      var rs := r.roarings;
      var i := 0;
      while i < |roarings|
        invariant Valid() && i <= |roarings| == |s|
        invariant forall j :: 0 <= j < i ==> roarings[j] == Entry(s[j].high, s[j].lows - At(rs, s[j].high))
        invariant forall j :: i <= j < |s| ==> roarings[j] == s[j]
      {
        FoundAt(rs, roarings[i].high);
        var p := LowerBound(rs, roarings[i].high);
        if p < |rs| && rs[p].high == roarings[i].high {
          Store(i, roarings[i].lows - rs[p].lows);
        }
        i := i + 1;
      }
      WithoutMembers(s, rs, roarings);
    }

    /** Adds the members of r. */
    method Unite(r: Roaring64Map)
      requires Valid() && r.Valid()
      modifies this
      ensures Valid() && Contents() == old(Contents()) + old(r.Contents())
    {
      hide Members, Sorted, At, LowerBound, Holds;
      ghost var s := roarings;
      var rs := r.roarings;
      var i := 0;
      NoPrefix(rs);
      while i < |rs|
        invariant Valid() && i <= |rs|
        invariant forall k: U32 :: At(roarings, k) == At(s, k) + At(rs[..i], k)
      {
        NextPrefix(rs, i);
        FoundAt(roarings, rs[i].high);
        var p := LowerBound(roarings, rs[i].high);
        if p == |roarings| || roarings[p].high != rs[i].high {
          p := Node(rs[i].high);
          Store(p, rs[i].lows);
        } else {
          Store(p, roarings[p].lows + rs[i].lows);
        }
        i := i + 1;
      }
      UnitedMembers(s, rs, roarings);
    }

    /** Keeps the members of exactly one of the two. */
    method SymmetricDifference(r: Roaring64Map)
      requires Valid() && r.Valid()
      modifies this
      ensures Valid()
      ensures Contents() == (old(Contents()) - old(r.Contents())) + (old(r.Contents()) - old(Contents()))
    {
      hide Members, Sorted, At, LowerBound, Holds;
      ghost var s := roarings;
      var rs := r.roarings;
      var i := 0;
      NoPrefix(rs);
      while i < |rs|
        invariant Valid() && i <= |rs|
        invariant forall k: U32 :: At(roarings, k) == Either(At(s, k), At(rs[..i], k))
      {
        NextPrefix(rs, i);
        FoundAt(roarings, rs[i].high);
        var p := LowerBound(roarings, rs[i].high);
        if p == |roarings| || roarings[p].high != rs[i].high {
          p := Node(rs[i].high);
          Store(p, rs[i].lows);
        } else {
          Store(p, Either(roarings[p].lows, rs[i].lows));
        }
        i := i + 1;
      }
      DifferingMembers(s, rs, roarings);
    }

    method IsEmpty() returns (b: bool)
      requires Valid()
      ensures b <==> Contents() == {}
    {
      MembersAre(roarings);
      b := forall i :: 0 <= i < |roarings| ==> roarings[i].lows == {};
      if b {
        assert forall x :: !Holds(roarings, x);
      } else {
        var i :| 0 <= i < |roarings| && roarings[i].lows != {};
        var l :| l in roarings[i].lows;
        AtIndex(roarings, i);
        Halves(0, 0, roarings[i].high, l);
        assert Holds(roarings, UniteBytes(roarings[i].high, l));
      }
    }

    method IsFull() returns (b: bool)
      requires Valid()
      ensures b <==> |Contents()| == 0x1_0000_0000_0000_0000
    {
      FullIff(roarings);
      b := |roarings| == B && Saturated(roarings);
    }

    /** The number of members, or the exception of a full bitmap; sums are 64-bit. */
    method Cardinality() returns (n: Option<U64>)
      requires Valid()
      ensures n == if |Contents()| == 0x1_0000_0000_0000_0000 then None else Some(|Contents()|)
    {
      hide Sorted, Members;
      var full := IsFull();
      if full {
        return None;
      }
      var total: U64 := 0;
      var i := 0;
      FullIff(roarings);
      SumCounts(roarings);
      while i < |roarings|
        invariant i <= |roarings| && total == Sum(roarings[..i])
      {
        PrefixSum(roarings, i);
        PrefixSum(roarings, i + 1);
        total := (total + |roarings[i].lows|) % W;
        i := i + 1;
      }
      assert roarings[..i] == roarings;
      return Some(total);
    }

    /** The number of members up to x, as a 64-bit integer. */
    method Rank(x: U64) returns (result: U64)
      requires Valid()
      ensures result == |set y | y in Contents() && y <= x| % 0x1_0000_0000_0000_0000
    {
      hide Sorted, UpTo, RankSum, Members, Sum;
      UpToIs(Contents(), x);
      var h := HighBytes(x);
      var p := LowerBound(roarings, h);
      RankCounts(roarings, x);
      RankSplit(roarings, x);
      result := CountBelow(p);
      ghost var below := Sum(roarings[..p]);
      if p < |roarings| && roarings[p].high == h {
        Wrap(below, |LowsUpTo(roarings[p].lows, LowBytes(x))|);
        result := (result + |LowsUpTo(roarings[p].lows, LowBytes(x))|) % W;
      } else {
        NoLows(LowBytes(x));
      }
    }

    /** The sizes of the first p nodes added up in 64 bits. */
    method CountBelow(p: nat) returns (result: U64)
      requires p <= |roarings|
      ensures result == Sum(roarings[..p]) % W
    {
      hide Sum;
      result := 0;
      var i := 0;
      SumNone(roarings);
      while i < p
        invariant i <= p && result == Sum(roarings[..i]) % W
      {
        PrefixSum(roarings, i);
        Wrap(Sum(roarings[..i]), |roarings[i].lows|);
        result := (result + |roarings[i].lows|) % W;
        i := i + 1;
      }
    }

    /** The member with exactly rnk smaller ones, if there are more than rnk. */
    method Select(rnk: U64) returns (element: Option<U64>)
      requires Valid()
      ensures element.Some? <==> rnk < |Contents()|
      ensures element.Some? ==> element.value in Contents() && |set y | y in Contents() && y < element.value| == rnk
    {
      hide Sorted, UpTo, Members, Nth;
      var left := rnk;
      var i := 0;
      SumCounts(roarings);
      while i < |roarings|
        invariant i <= |roarings| && left >= 0 && rnk == left + Sum(roarings[..i])
      {
        PrefixSum(roarings, i);
        PrefixSum(roarings, i + 1);
        var lows := roarings[i].lows;
        if left < |lows| {
          var low := Select32(lows, left);
          var x := UniteBytes(roarings[i].high, low);
          Selected(roarings, i, left, low);
          UpToIs(Contents(), x);
          return Some(x);
        }
        left := left - |lows|;
        i := i + 1;
      }
      assert roarings[..i] == roarings;
      return None;
    }
  }

  lemma MembersAre(es: seq<Entry>)
    requires Sorted(es)
    ensures forall x :: x in Members(es) <==> Holds(es, x)
  {
    forall x ensures x in Members(es) <==> Holds(es, x) { MembersHold(es, x); }
  }

  lemma AllMembers(a: seq<Entry>, b: seq<Entry>, c: seq<Entry>)
    requires Sorted(a) && Sorted(b) && Sorted(c)
    ensures forall x :: x in Members(a) <==> LowBytes(x) in At(a, HighBytes(x))
    ensures forall x :: x in Members(b) <==> LowBytes(x) in At(b, HighBytes(x))
    ensures forall x :: x in Members(c) <==> LowBytes(x) in At(c, HighBytes(x))
  {
    MembersAre(a);
    MembersAre(b);
    MembersAre(c);
  }

  /** The k-th low half of the i-th node, as a member of the whole. */
  lemma Selected(es: seq<Entry>, i: nat, k: nat, low: U32)
    requires Sorted(es) && i < |es| && Nth(es[i].lows, k, low)
    ensures var x := UniteBytes(es[i].high, low);
      x in Members(es) && |UpTo(Members(es), x)| == Sum(es[..i]) + k + 1
  {
    var x := UniteBytes(es[i].high, low);
    Halves(0, 0, es[i].high, low);
    AtIndex(es, i);
    MembersHold(es, x);
    RankCounts(es, x);
    RankSplit(es, x);
  }

  /** Selecting at the rank of a member, less one in 64-bit arithmetic, gives that member back, even
      where the rank wrapped to 0. */
  method SelectAtRank(m: Roaring64Map, x: U64) returns (element: Option<U64>)
    requires m.Valid() && x in m.Contents()
    ensures element == Some(x)
  {
    hide Sorted, Members, UpTo;
    RankWraps(m.roarings, x);
    SomeUpTo(m.Contents(), x);
    var n := m.Rank(x);
    element := m.Select((n + W - 1) % W);
    UpToIs(m.Contents(), x);
    if element.Some? { UpToIs(m.Contents(), element.value); }
    SubsetSize(UpTo(m.Contents(), x), m.Contents()) by { UpToPart(m.Contents(), x); }
    RankInjective(m.Contents(), x, element.value);
  }

  lemma SomeUpTo(s: set<U64>, x: U64)
    requires x in s
    ensures |UpTo(s, x)| >= 1
  {
    assert x in UpTo(s, x);
  }

  lemma UpToPart(s: set<U64>, x: U64)
    ensures UpTo(s, x) <= s
  {
  }

  /** Selection in a 32-bit bitmap. */
  method Select32(s: set<U32>, k: nat) returns (e: U32)
    requires k < |s|
    ensures Nth(s, k, e)
  {
    ghost var w := NthExists(s, k);
    e :| e in s && |LowsUpTo(s, e)| == k + 1;
  }

  function Either(a: set<U32>, b: set<U32>): set<U32> {
    (a - b) + (b - a)
  }

  /** Two lists with the same keys: what they store under k stands at the same place, or neither
      has k. */
  lemma SameKeys(s: seq<Entry>, t: seq<Entry>, k: U32)
    requires Sorted(s) && Sorted(t) && |s| == |t| && forall j :: 0 <= j < |s| ==> s[j].high == t[j].high
    ensures At(s, k) == At(t, k) == {} ||
      exists j :: 0 <= j < |s| && s[j].high == k && At(s, k) == s[j].lows && At(t, k) == t[j].lows
  {
    var p := LowerBound(s, k);
    if p < |s| && s[p].high == k {
      AtIndex(s, p);
      AtIndex(t, p);
    } else {
      AbsentKey(s, k);
      AtMissing(s, k);
      AtMissing(t, k);
    }
  }

  lemma FoundAt(es: seq<Entry>, h: U32)
    ensures LowerBound(es, h) <= |es|
    ensures At(es, h) == if LowerBound(es, h) < |es| && es[LowerBound(es, h)].high == h then es[LowerBound(es, h)].lows else {}
  {
  }

  lemma NoPrefix(es: seq<Entry>)
    ensures (forall k: U32 :: At(es[..0], k) == {}) && es[..|es|] == es
  {
  }

  /** Operations on what each high half stores are operations on the members. */
  lemma MetMembers(s: seq<Entry>, r: seq<Entry>, t: seq<Entry>)
    requires Sorted(s) && Sorted(r) && Sorted(t) && |t| == |s|
    requires forall j :: 0 <= j < |s| ==> t[j] == Entry(s[j].high, s[j].lows * At(r, s[j].high))
    ensures Members(t) == Members(s) * Members(r)
  {
    hide Sorted, At, LowerBound, Members;
    forall k: U32 ensures At(t, k) == At(s, k) * At(r, k) { SameKeys(s, t, k); }
    AllMembers(s, r, t);
  }

  lemma WithoutMembers(s: seq<Entry>, r: seq<Entry>, t: seq<Entry>)
    requires Sorted(s) && Sorted(r) && Sorted(t) && |t| == |s|
    requires forall j :: 0 <= j < |s| ==> t[j] == Entry(s[j].high, s[j].lows - At(r, s[j].high))
    ensures Members(t) == Members(s) - Members(r)
  {
    hide Sorted, At, LowerBound, Members;
    forall k: U32 ensures At(t, k) == At(s, k) - At(r, k) { SameKeys(s, t, k); }
    AllMembers(s, r, t);
  }

  lemma UnitedMembers(s: seq<Entry>, r: seq<Entry>, t: seq<Entry>)
    requires Sorted(s) && Sorted(r) && Sorted(t) && forall k: U32 :: At(t, k) == At(s, k) + At(r, k)
    ensures Members(t) == Members(s) + Members(r)
  {
    hide Sorted, At, LowerBound, Members;
    AllMembers(s, r, t);
  }

  lemma DifferingMembers(s: seq<Entry>, r: seq<Entry>, t: seq<Entry>)
    requires Sorted(s) && Sorted(r) && Sorted(t) && forall k: U32 :: At(t, k) == Either(At(s, k), At(r, k))
    ensures Members(t) == (Members(s) - Members(r)) + (Members(r) - Members(s))
  {
    hide Sorted, At, LowerBound, Members;
    AllMembers(s, r, t);
  }

  lemma NextPrefix(es: seq<Entry>, i: nat)
    requires Sorted(es) && i < |es|
    ensures At(es[..i], es[i].high) == {}
    ensures forall k: U32 :: At(es[..i + 1], k) == if k == es[i].high then es[i].lows else At(es[..i], k)
  {
    var t := es[..i + 1];
    AtMissing(es[..i], es[i].high);
    AtIndex(t, i);
    forall k: U32 | k != es[i].high ensures At(t, k) == At(es[..i], k) {
      assert t[..i] == es[..i];
      AtPrefix(t, i, k);
    }
  }

  lemma AbsentNode(es: seq<Entry>, h: U32)
    requires Sorted(es) && (LowerBound(es, h) < |es| ==> es[LowerBound(es, h)].high != h)
    ensures var t := Placed(es, Entry(h, {}));
      && Sorted(t) && (forall k: U32 :: At(t, k) == At(es, k))
      && LowerBound(t, h) < |t| && t[LowerBound(t, h)].high == h
  {
    var e := Entry(h, {});
    var t := Placed(es, e);
    AtPlaced(es, e, h);
    forall k: U32 ensures At(t, k) == At(es, k) { AtPlaced(es, e, k); }
    PlacedMembers(es, e, e);
    var i :| 0 <= i < |t| && t[i] == e;
    AtIndex(t, i);
  }
}
