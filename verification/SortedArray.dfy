/** Strictly increasing arrays of 16-bit values: what the searches find and what the edits keep. */
module SortedArray {
  import opened Memory

  ghost predicate Increasing(s: seq<U16>) {
    forall i, j :: 0 <= i < j < |s| ==> s[i] < s[j]
  }

  ghost function Elements(s: seq<U16>): (v: set<int>)
    ensures forall x: int :: x in v <==> exists i :: 0 <= i < |s| && s[i] == x
  {
    set i | 0 <= i < |s| :: s[i] as int
  }

  /** s is the increasing sequence of the set v. */
  ghost predicate Lists(s: seq<U16>, v: set<int>) {
    Increasing(s) && Elements(s) == v
  }

  /** The values before p are below key, those from p on are at least key. */
  ghost predicate SplitsAt(s: seq<U16>, p: int, key: int) {
    && 0 <= p <= |s|
    && (forall i :: 0 <= i < p ==> s[i] < key)
    && (forall i :: p <= i < |s| ==> s[i] >= key)
  }

  /** The result of a search: the index of key, or -(p+1) for its insertion point p. */
  ghost predicate Located(s: seq<U16>, r: int, key: int) {
    if r >= 0 then r < |s| && s[r] == key
    else SplitsAt(s, -r - 1, key) && (-r - 1 < |s| ==> s[-r - 1] > key)
  }

  lemma LocatedSplits(s: seq<U16>, r: int, key: int)
    requires Increasing(s) && Located(s, r, key)
    ensures SplitsAt(s, if r >= 0 then r else -r - 1, key)
    ensures r >= 0 <==> key in Elements(s)
    ensures r >= 0 ==> SplitsAt(s, r + 1, key + 1)
    ensures r < 0 ==> SplitsAt(s, -r - 1, key + 1)
  {
  }

  /** Members below a key are those before its split point. */
  lemma {:induction false} BelowCount(s: seq<U16>, p: nat, key: int)
    requires Increasing(s) && SplitsAt(s, p, key)
    ensures |set x | x in Elements(s) && x < key| == p
  {
    DistinctCount(s[..p]);
    assert (set x | x in Elements(s) && x < key) == Elements(s[..p]);
  }

  lemma {:induction false} DistinctCount(s: seq<U16>)
    requires Increasing(s)
    ensures |Elements(s)| == |s|
  {
    if s == [] {
      assert Elements(s) == {};
    } else {
      var n := |s| - 1;
      DistinctCount(s[..n]);
      LastElement(s);
      hide Elements;
    }
  }

  lemma LastElement(s: seq<U16>)
    requires Increasing(s) && s != []
    ensures var n := |s| - 1;
      Elements(s) == Elements(s[..n]) + {s[n] as int} && s[n] !in Elements(s[..n])
  {
    assert s == s[..|s| - 1] + [s[|s| - 1]];
  }

  /** An increasing sequence rises by at least one per index. */
  lemma {:induction false} Rises(s: seq<U16>, i: nat, j: nat)
    requires Increasing(s) && i <= j < |s|
    ensures s[j] - s[i] >= j - i
    decreases j
  {
    if i < j { Rises(s, i, j - 1); }
  }

  /** Between two entries whose index distance equals their value distance nothing is missing;
      and if nothing is missing, the distances agree. */
  lemma Dense(s: seq<U16>, i: nat, j: nat)
    requires Increasing(s) && i <= j < |s|
    ensures j - i == s[j] - s[i] <==> Range(s[i], s[j]) <= Elements(s)
  {
    if j - i == s[j] - s[i] {
      forall x | x in Range(s[i], s[j]) ensures x in Elements(s) {
        var k := i + (x - s[i]);
        Rises(s, i, k);
        Rises(s, k, j);
        assert s[k] == x;
      }
    } else if Range(s[i], s[j]) <= Elements(s) {
      Crowded(s, i, j);
    }
  }

  lemma Crowded(s: seq<U16>, i: nat, j: nat)
    requires Increasing(s) && i <= j < |s| && Range(s[i], s[j]) <= Elements(s)
    ensures j - i == s[j] - s[i]
  {
    var t := s[i..j + 1];
    DistinctCount(t);
    RangeSize(s[i], s[j]);
    forall x ensures x in Elements(t) <==> x in Range(s[i], s[j]) {
      if x in Range(s[i], s[j]) {
        var k :| 0 <= k < |s| && s[k] == x;
        assert i <= k <= j;
        assert t[k - i] == x;
      }
    }
    assert Elements(t) == Range(s[i], s[j]);
  }

  // ---- edits --------------------------------------------------------------------------------

  /** Inserting an absent key at its split point. */
  lemma Inserted(s: seq<U16>, p: nat, key: U16)
    requires Increasing(s) && SplitsAt(s, p, key) && key !in Elements(s)
    ensures Lists(s[..p] + [key] + s[p..], Elements(s) + {key})
  {
    var t := s[..p] + [key] + s[p..];
    assert forall i :: p <= i < |s| ==> s[i] != key;
    forall x ensures x in Elements(t) <==> x in Elements(s) + {key} {
      Pieces(s[..p], [key], s[p..], x);
      Halves(s, p, x);
      assert [key][0] == key;
    }
  }

  lemma Pieces(a: seq<U16>, b: seq<U16>, c: seq<U16>, x: int)
    ensures x in Elements(a + b + c) <==> x in Elements(a) || x in Elements(b) || x in Elements(c)
  {
    var t := a + b + c;
    assert forall i :: 0 <= i < |a| ==> t[i] == a[i];
    assert forall i :: 0 <= i < |b| ==> t[|a| + i] == b[i];
    assert forall i :: 0 <= i < |c| ==> t[|a| + |b| + i] == c[i];
  }

  lemma Halves(s: seq<U16>, p: nat, x: int)
    requires p <= |s|
    ensures x in Elements(s) <==> x in Elements(s[..p]) || x in Elements(s[p..])
  {
    assert forall i :: 0 <= i < p ==> s[..p][i] == s[i];
    assert forall i :: p <= i < |s| ==> s[p..][i - p] == s[i];
  }

  /** Dropping the entry at index i. */
  lemma Deleted(s: seq<U16>, i: nat)
    requires Increasing(s) && i < |s|
    ensures Lists(s[..i] + s[i + 1..], Elements(s) - {s[i]})
  {
    Replaced(s, i, i + 1, s[i], s[i]);
    assert Range(s[i], s[i]) == {s[i] as int};
  }

  /** Dropping the entries p..q, which are exactly those in [lo, hi]. */
  lemma Replaced(s: seq<U16>, p: nat, q: nat, lo: int, hi: int)
    requires Increasing(s) && p <= q && SplitsAt(s, p, lo) && SplitsAt(s, q, hi + 1)
    ensures Lists(s[..p] + s[q..], Elements(s) - Range(lo, hi))
  {
    var t := s[..p] + s[q..];
    IncreasingConcat(s[..p], s[q..], lo);
    forall x ensures x in Elements(t) <==> x in Elements(s) && !(lo <= x <= hi) {
      assert t == s[..p] + [] + s[q..];
      Pieces(s[..p], [], s[q..], x);
      InPrefix(s, p, lo, x);
      InSuffix(s, q, hi + 1, x);
    }
  }

  lemma IncreasingConcat(a: seq<U16>, b: seq<U16>, m: int)
    requires Increasing(a) && Increasing(b)
    requires forall i :: 0 <= i < |a| ==> a[i] < m
    requires forall i :: 0 <= i < |b| ==> b[i] >= m
    ensures Increasing(a + b)
  {
  }

  lemma InPrefix(s: seq<U16>, p: nat, key: int, x: int)
    requires SplitsAt(s, p, key)
    ensures x in Elements(s[..p]) <==> x in Elements(s) && x < key
  {
    Halves(s, p, x);
  }

  lemma InSuffix(s: seq<U16>, p: nat, key: int, x: int)
    requires SplitsAt(s, p, key)
    ensures x in Elements(s[p..]) <==> x in Elements(s) && x >= key
  {
    Halves(s, p, x);
  }

  /** The run of consecutive values lo, lo + 1, .., hi. */
  ghost predicate Consecutive(m: seq<U16>, lo: int, hi: int) {
    |m| == hi - lo + 1 && forall i :: 0 <= i < |m| ==> m[i] == lo + i
  }

  /** Replacing the entries p..q, which are exactly those in [lo, hi], by all of lo..hi. */
  lemma Filled(s: seq<U16>, p: nat, q: nat, lo: int, hi: int, m: seq<U16>)
    requires Increasing(s) && p <= q && SplitsAt(s, p, lo) && SplitsAt(s, q, hi + 1) && lo <= hi
    requires Consecutive(m, lo, hi)
    ensures Lists(s[..p] + m + s[q..], Elements(s) + Range(lo, hi))
  {
    var t := s[..p] + m + s[q..];
    IncreasingConcat(s[..p], m, lo);
    IncreasingConcat(s[..p] + m, s[q..], hi + 1);
    forall x ensures x in Elements(t) <==> x in Elements(s) || lo <= x <= hi {
      Pieces(s[..p], m, s[q..], x);
      InPrefix(s, p, lo, x);
      InSuffix(s, q, hi + 1, x);
      if lo <= x <= hi { assert m[x - lo] == x; }
    }
  }
}
