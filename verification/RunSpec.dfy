/** Run lists as mathematics: the set a list of runs denotes, its canonical form, and the
    splice laws every in-place edit of a run container reduces to. */
module RunSpec {
  import opened Memory

  /** A run covers `length + 1` consecutive values starting at `value`. */
  datatype Rle = Rle(value: U16, length: U16)

  ghost function Last(r: Rle): int {
    r.value + r.length
  }

  /** No run passes 65535, and consecutive runs neither overlap nor touch. */
  ghost predicate Canonical(s: seq<Rle>) {
    s == [] ||
    var n := |s| - 1;
    && Last(s[n]) <= 0xFFFF
    && (n > 0 ==> Last(s[n - 1]) + 1 < s[n].value)
    && Canonical(s[..n])
  }

  /** The same said of any two runs, not just neighbours. */
  ghost predicate Separated(s: seq<Rle>) {
    && (forall i :: 0 <= i < |s| ==> Last(s[i]) <= 0xFFFF)
    && (forall i, j :: 0 <= i < j < |s| ==> Last(s[i]) + 1 < s[j].value)
  }

  lemma {:induction false} Apart(s: seq<Rle>)
    ensures Canonical(s) <==> Separated(s)
  {
    if s != [] {
      var n := |s| - 1;
      Apart(s[..n]);
      if Canonical(s) {
        forall i | 0 <= i < n ensures Last(s[i]) + 1 < s[n].value {
          if i < n - 1 { assert Last(s[..n][i]) + 1 < s[..n][n - 1].value; }
        }
      }
    }
  }

  ghost predicate Holds(s: seq<Rle>, x: int) {
    exists i :: 0 <= i < |s| && s[i].value <= x <= Last(s[i])
  }

  ghost function Values(s: seq<Rle>): (v: set<int>)
    ensures forall x :: x in v <==> 0 <= x <= 0xFFFF && Holds(s, x)
  {
    set x: int | 0 <= x <= 0xFFFF && Holds(s, x)
  }

  /** s is the canonical list of the set v. */
  ghost predicate Denotes(s: seq<Rle>, v: set<int>) {
    Canonical(s) && Values(s) == v
  }

  // ---- holding a value ------------------------------------------------------------------

  lemma HoldsConcat(s: seq<Rle>, t: seq<Rle>, x: int)
    ensures Holds(s + t, x) <==> Holds(s, x) || Holds(t, x)
  {
    if Holds(s, x) {
      var i :| 0 <= i < |s| && s[i].value <= x <= Last(s[i]);
      assert (s + t)[i] == s[i];
    }
    if Holds(t, x) {
      var i :| 0 <= i < |t| && t[i].value <= x <= Last(t[i]);
      assert (s + t)[|s| + i] == t[i];
    }
  }

  /** A one-run list holds exactly its interval. */
  lemma HoldsOne(r: Rle, x: int)
    ensures Holds([r], x) <==> r.value <= x <= Last(r)
  {
    assert [r][0] == r;
  }

  /** Everything a list of runs below `bound` holds is below `bound`. */
  lemma HoldsBelow(s: seq<Rle>, bound: int, x: int)
    requires forall i :: 0 <= i < |s| ==> Last(s[i]) < bound
    requires Holds(s, x)
    ensures x < bound
  {
  }

  lemma HoldsAbove(s: seq<Rle>, bound: int, x: int)
    requires forall i :: 0 <= i < |s| ==> s[i].value > bound
    requires Holds(s, x)
    ensures x > bound
  {
  }

  /** The bounds of two runs of a canonical list. */
  lemma RunBounds(s: seq<Rle>, i: nat, j: nat)
    requires Canonical(s) && i <= j < |s|
    ensures Last(s[i]) <= Last(s[j]) <= 0xFFFF && s[i].value <= s[j].value
    ensures i < j ==> Last(s[i]) + 1 < s[j].value
  {
    Apart(s);
    if i < j { assert Last(s[i]) + 1 < s[j].value; }
  }

  lemma SeparatedSlices(s: seq<Rle>, n: nat)
    requires Separated(s) && n <= |s|
    ensures Separated(s[..n]) && Separated(s[n..])
  {
  }

  lemma CanonicalPrefix(s: seq<Rle>, n: nat)
    requires Canonical(s) && n <= |s|
    ensures Canonical(s[..n]) && Canonical(s[n..])
  {
    hide Canonical, Separated;
    Apart(s);
    SeparatedSlices(s, n);
    Apart(s[..n]);
    Apart(s[n..]);
  }

  // ---- cardinality and uniqueness ---------------------------------------------------------

  ghost function SumLengths(s: seq<Rle>): nat {
    if s == [] then 0 else SumLengths(s[..|s| - 1]) + s[|s| - 1].length
  }

  /** A canonical list has as many values as runs plus the sum of its length fields. */
  lemma {:induction false} Cardinality(s: seq<Rle>)
    requires Canonical(s)
    ensures |Values(s)| == |s| + SumLengths(s)
  {
    if s == [] {
      assert Values(s) == {};
    } else {
      var n := |s| - 1;
      Cardinality(s[..n]);
      AddLast(s);
      RangeSize(s[n].value, Last(s[n]));
    }
  }

  /** The last run adds exactly its interval, disjoint from the rest. */
  lemma AddLast(s: seq<Rle>)
    requires Canonical(s) && s != []
    ensures var n := |s| - 1;
      && Values(s) == Values(s[..n]) + Range(s[n].value, Last(s[n]))
      && Values(s[..n]) !! Range(s[n].value, Last(s[n]))
  {
    var n := |s| - 1;
    assert s == s[..n] + [s[n]];
    Apart(s);
    assert forall i :: 0 <= i < n ==> Last(s[..n][i]) < s[n].value;
    hide Canonical, Separated;
    forall x
      ensures Holds(s, x) <==> Holds(s[..n], x) || s[n].value <= x <= Last(s[n])
      ensures Holds(s[..n], x) ==> x < s[n].value
    {
      HoldsConcat(s[..n], [s[n]], x);
      HoldsOne(s[n], x);
    }
  }

  /** Two canonical lists that denote the same set are the same list. */
  lemma {:induction false} CanonicalUnique(s: seq<Rle>, t: seq<Rle>)
    requires Canonical(s) && Canonical(t)
    requires Values(s) == Values(t)
    ensures s == t
  {
    hide Canonical, Values;
    if s == [] || t == [] {
      if s != [] { HeadBounds(s); }
      if t != [] { HeadBounds(t); }
      NoValues();
    } else {
      SameHead(s, t);
      CanonicalPrefix(s, 1);
      CanonicalPrefix(t, 1);
      SameTails(s, t);
      CanonicalUnique(s[1..], t[1..]);
      assert s == [s[0]] + s[1..];
      assert t == [t[0]] + t[1..];
    }
  }

  lemma NoValues()
    ensures Values([]) == {}
  {
  }

  lemma SameHead(s: seq<Rle>, t: seq<Rle>)
    requires Canonical(s) && Canonical(t) && s != [] && t != []
    requires Values(s) == Values(t)
    ensures s[0] == t[0]
  {
    hide Canonical, Values;
    HeadBounds(s);
    HeadBounds(t);
    assert Last(s[0]) + 1 !in Values(t) && Last(t[0]) + 1 !in Values(s);
  }

  lemma SameTails(s: seq<Rle>, t: seq<Rle>)
    requires Canonical(s) && Canonical(t) && s != [] && t != []
    requires Values(s) == Values(t) && s[0] == t[0]
    ensures Values(s[1..]) == Values(t[1..])
  {
    hide Canonical, Values;
    TailValues(s);
    TailValues(t);
    forall x ensures x in Values(s[1..]) <==> x in Values(t[1..]) {
      assert x in Values(s) <==> x in Values(t);
    }
  }

  lemma TailValues(s: seq<Rle>)
    requires Canonical(s) && s != []
    ensures forall x :: x in Values(s[1..]) <==> x in Values(s) && x > Last(s[0])
  {
    Apart(s);
    assert s == [s[0]] + s[1..];
    forall x
      ensures Holds(s[1..], x) <==> Holds(s, x) && x > Last(s[0])
    {
      HoldsConcat([s[0]], s[1..], x);
      HoldsOne(s[0], x);
      if Holds(s[1..], x) { HoldsAbove(s[1..], Last(s[0]), x); }
    }
  }

  lemma HeadBounds(s: seq<Rle>)
    requires Canonical(s) && s != []
    ensures s[0].value in Values(s) && Last(s[0]) in Values(s) && Last(s[0]) + 1 !in Values(s)
    ensures forall x :: x in Values(s) ==> s[0].value <= x
    ensures forall x :: s[0].value <= x <= Last(s[0]) ==> x in Values(s)
  {
    Apart(s);
    assert forall i :: 0 < i < |s| ==> Last(s[0]) + 1 < s[i].value;
  }

  // ---- splices ------------------------------------------------------------------------------

  /** The runs s[a..b] of a list are replaced by `mid`. */
  ghost function Splice(s: seq<Rle>, a: nat, b: nat, mid: seq<Rle>): seq<Rle>
    requires a <= b <= |s|
  {
    s[..a] + mid + s[b..]
  }

  lemma ConcatSeparated(s: seq<Rle>, t: seq<Rle>)
    requires Separated(s) && Separated(t)
    requires s != [] && t != [] ==> Last(s[|s| - 1]) + 1 < t[0].value
    ensures Separated(s + t)
  {
    var u := s + t;
    forall i, j | 0 <= i < j < |u|
      ensures Last(u[i]) + 1 < u[j].value
    {
      if i < |s| <= j {
        assert i < |s| - 1 ==> Last(s[i]) + 1 < s[|s| - 1].value;
        assert j > |s| ==> Last(t[0]) + 1 < t[j - |s|].value;
      }
    }
  }

  /** Replacing the runs a..b by a separated `mid` that keeps clear of both neighbours
      leaves a separated list. */
  lemma SpliceSeparated(s: seq<Rle>, a: nat, b: nat, mid: seq<Rle>)
    requires Separated(s) && Separated(mid) && a <= b <= |s|
    requires a > 0 && mid != [] ==> Last(s[a - 1]) + 1 < mid[0].value
    requires b < |s| && mid != [] ==> Last(mid[|mid| - 1]) + 1 < s[b].value
    ensures Separated(Splice(s, a, b, mid))
  {
    SeparatedSlices(s, a);
    SeparatedSlices(s, b);
    assert a < b && 0 < a && b < |s| ==> Last(s[a - 1]) + 1 < s[b].value;
    assert a == b && 0 < a && b < |s| ==> Last(s[a - 1]) + 1 < s[a].value;
    hide Separated;
    ConcatSeparated(s[..a], mid);
    ConcatSeparated(s[..a] + mid, s[b..]);
  }

  /** What a splice denotes, value by value. */
  lemma SpliceHolds(s: seq<Rle>, a: nat, b: nat, mid: seq<Rle>, x: int)
    requires a <= b <= |s|
    ensures Holds(Splice(s, a, b, mid), x) <==> Holds(s[..a], x) || Holds(mid, x) || Holds(s[b..], x)
    ensures Holds(s, x) <==> Holds(s[..a], x) || Holds(s[a..b], x) || Holds(s[b..], x)
  {
    HoldsConcat(s[..a] + mid, s[b..], x);
    HoldsConcat(s[..a], mid, x);
    assert s == s[..a] + s[a..b] + s[b..];
    HoldsConcat(s[..a] + s[a..b], s[b..], x);
    HoldsConcat(s[..a], s[a..b], x);
  }

  // ---- removing an interval -----------------------------------------------------------------

  /** a..b are exactly the runs that meet [lo, hi]. */
  ghost predicate Touched(s: seq<Rle>, a: nat, b: nat, lo: int, hi: int) {
    && a <= b <= |s|
    && (forall i :: 0 <= i < a ==> Last(s[i]) < lo)
    && (forall i :: a <= i < b ==> Last(s[i]) >= lo && s[i].value <= hi)
    && (forall i :: b <= i < |s| ==> s[i].value > hi)
  }

  ghost function LeftOf(r: Rle, lo: int): seq<Rle>
    requires Last(r) <= 0xFFFF && lo <= 0xFFFF
  {
    if r.value < lo then [Rle(r.value, lo - 1 - r.value)] else []
  }

  ghost function RightOf(r: Rle, hi: int): seq<Rle>
    requires Last(r) <= 0xFFFF && hi >= r.value - 1
  {
    if Last(r) > hi then [Rle(hi + 1, Last(r) - (hi + 1))] else []
  }

  /** What the runs a..b keep outside [lo, hi]: the head of the first and the tail of the last. */
  ghost function Kept(s: seq<Rle>, a: nat, b: nat, lo: int, hi: int): seq<Rle>
    requires Touched(s, a, b, lo, hi) && 0 <= lo <= hi <= 0xFFFF
    requires a < b ==> Last(s[a]) <= 0xFFFF && Last(s[b - 1]) <= 0xFFFF
  {
    if a == b then [] else LeftOf(s[a], lo) + RightOf(s[b - 1], hi)
  }

  lemma KeptHolds(s: seq<Rle>, a: nat, b: nat, lo: int, hi: int, x: int)
    requires Separated(s) && Touched(s, a, b, lo, hi) && 0 <= lo <= hi <= 0xFFFF
    ensures Holds(Kept(s, a, b, lo, hi), x) <==> Holds(s[a..b], x) && !(lo <= x <= hi)
  {
    if a < b {
      EndsHold(s[a..b], x);
      var left, right := LeftOf(s[a], lo), RightOf(s[b - 1], hi);
      HoldsConcat(left, right, x);
      if left != [] { HoldsOne(left[0], x); }
      if right != [] { HoldsOne(right[0], x); }
    }
  }

  /** Below the end of its first run, a list holds what that run holds; likewise from the
      start of its last run on. */
  lemma EndsHold(m: seq<Rle>, x: int)
    requires Separated(m) && m != []
    ensures x <= Last(m[0]) ==> (Holds(m, x) <==> m[0].value <= x)
    ensures x >= m[|m| - 1].value ==> (Holds(m, x) <==> x <= Last(m[|m| - 1]))
    ensures Holds(m, x) ==> m[0].value <= x <= Last(m[|m| - 1])
  {
    assert forall i :: 0 < i < |m| ==> Last(m[0]) + 1 < m[i].value;
    assert forall i :: 0 <= i < |m| - 1 ==> Last(m[i]) + 1 < m[|m| - 1].value;
  }

  /** Removal by splicing: the runs that meet [lo, hi] are replaced by what they keep. */
  lemma Cut(s: seq<Rle>, a: nat, b: nat, lo: int, hi: int)
    requires Canonical(s) && Touched(s, a, b, lo, hi) && 0 <= lo <= hi <= 0xFFFF
    ensures a < b ==> Last(s[a]) <= 0xFFFF && Last(s[b - 1]) <= 0xFFFF
    ensures Denotes(Splice(s, a, b, Kept(s, a, b, lo, hi)), Values(s) - Range(lo, hi))
  {
    Apart(s);
    assert a < b ==> Last(s[a]) <= 0xFFFF && Last(s[b - 1]) <= 0xFFFF;
    hide Canonical, Separated, Touched, Holds, Kept, Splice;
    var t := Splice(s, a, b, Kept(s, a, b, lo, hi));
    CutSeparated(s, a, b, lo, hi);
    Apart(t);
    forall x
      ensures Holds(t, x) <==> Holds(s, x) && !(lo <= x <= hi)
    {
      CutHolds(s, a, b, lo, hi, x);
    }
    ValuesCut(s, t, lo, hi);
    hide Values;
  }

  lemma ValuesCut(s: seq<Rle>, t: seq<Rle>, lo: int, hi: int)
    requires forall x :: Holds(t, x) <==> Holds(s, x) && !(lo <= x <= hi)
    ensures Values(t) == Values(s) - Range(lo, hi)
  {
    hide Holds;
  }

  lemma CutHolds(s: seq<Rle>, a: nat, b: nat, lo: int, hi: int, x: int)
    requires Separated(s) && Touched(s, a, b, lo, hi) && 0 <= lo <= hi <= 0xFFFF
    ensures Holds(Splice(s, a, b, Kept(s, a, b, lo, hi)), x) <==> Holds(s, x) && !(lo <= x <= hi)
  {
    SpliceHolds(s, a, b, Kept(s, a, b, lo, hi), x);
    KeptHolds(s, a, b, lo, hi, x);
    if Holds(s[..a], x) { HoldsBelow(s[..a], lo, x); }
    if Holds(s[b..], x) { HoldsAbove(s[b..], hi, x); }
  }

  lemma CutSeparated(s: seq<Rle>, a: nat, b: nat, lo: int, hi: int)
    requires Separated(s) && Touched(s, a, b, lo, hi) && 0 <= lo <= hi <= 0xFFFF
    ensures Separated(Splice(s, a, b, Kept(s, a, b, lo, hi)))
  {
    var mid := Kept(s, a, b, lo, hi);
    if a < b {
      assert a > 0 ==> Last(s[a - 1]) + 1 < s[a].value;
      assert b < |s| ==> Last(s[b - 1]) + 1 < s[b].value;
    }
    SpliceSeparated(s, a, b, mid);
  }

  /** The two searches of a range removal locate exactly the runs that meet the range. */
  lemma FoundTouched(s: seq<Rle>, first: int, last: int, min: int, max: int)
    requires Canonical(s) && min <= max && Found(s, first, min) && Found(s, last, max)
    ensures Touched(s, if first >= 0 then first else -first - 1, if last >= 0 then last + 1 else -last - 1, min, max)
  {
    Apart(s);
    var a := if first >= 0 then first else -first - 1;
    var b := if last >= 0 then last + 1 else -last - 1;
    FoundSplits(s, first, min);
    FoundSplits(s, last, max);
    assert b < |s| ==> s[b].value > max;
  }

  /** The result of looking `key` up: the run it is in, or -(p+1) for the gap before run p. */
  ghost predicate Found(s: seq<Rle>, r: int, key: int) {
    if r >= 0 then r < |s| && s[r].value <= key <= Last(s[r])
    else
      && -r - 1 <= |s|
      && (forall i :: 0 <= i < -r - 1 ==> Last(s[i]) < key)
      && (forall i :: -r - 1 <= i < |s| ==> s[i].value > key)
  }

  lemma FoundSplits(s: seq<Rle>, r: int, key: int)
    requires Separated(s) && Found(s, r, key)
    ensures var a := if r >= 0 then r else -r - 1;
      && (forall i :: 0 <= i < a ==> Last(s[i]) < key)
      && (forall i :: a <= i < |s| ==> Last(s[i]) >= key)
    ensures var b := if r >= 0 then r + 1 else -r - 1;
      && (forall i :: 0 <= i < b ==> s[i].value <= key)
      && (forall i :: b <= i < |s| ==> s[i].value > key)
  {
    if r >= 0 {
      assert forall i :: 0 <= i < r ==> Last(s[i]) + 1 < s[r].value;
      assert forall i :: r < i < |s| ==> Last(s[r]) + 1 < s[i].value;
    }
  }

  lemma InsideTouched(s: seq<Rle>, i: nat, min: int, max: int)
    requires Canonical(s) && i < |s| && s[i].value <= min <= max <= Last(s[i])
    ensures Touched(s, i, i + 1, min, max)
  {
    Apart(s);
    assert forall j :: 0 <= j < i ==> Last(s[j]) + 1 < s[i].value;
    assert forall j :: i < j < |s| ==> Last(s[i]) + 1 < s[j].value;
  }

  // ---- adding an interval -----------------------------------------------------------------

  /** a..b are exactly the runs that overlap or touch [lo, hi]. */
  ghost predicate Merging(s: seq<Rle>, a: nat, b: nat, lo: int, hi: int) {
    && a <= b <= |s|
    && (forall i :: 0 <= i < a ==> Last(s[i]) + 1 < lo)
    && (forall i :: a <= i < b ==> Last(s[i]) + 1 >= lo && s[i].value <= hi + 1)
    && (forall i :: b <= i < |s| ==> s[i].value > hi + 1)
  }

  /** The run that [lo, hi] and the runs a..b collapse into. */
  ghost function Union(s: seq<Rle>, a: nat, b: nat, lo: int, hi: int): (r: Rle)
    requires a <= b <= |s| && 0 <= lo <= hi <= 0xFFFF
    requires a < b ==> Last(s[b - 1]) <= 0xFFFF
    ensures r.value == if a < b && s[a].value < lo then s[a].value else lo
    ensures Last(r) == if a < b && Last(s[b - 1]) > hi then Last(s[b - 1]) else hi
  {
    var from := if a < b && s[a].value < lo then s[a].value else lo;
    var to := if a < b && Last(s[b - 1]) > hi then Last(s[b - 1]) else hi;
    Rle(from, to - from)
  }

  /** Insertion by splicing: the runs that overlap or touch [lo, hi] become one. */
  lemma Join(s: seq<Rle>, a: nat, b: nat, lo: int, hi: int)
    requires Canonical(s) && Merging(s, a, b, lo, hi) && 0 <= lo <= hi <= 0xFFFF
    ensures a < b ==> Last(s[a]) <= 0xFFFF && Last(s[b - 1]) <= 0xFFFF
    ensures Denotes(Splice(s, a, b, [Union(s, a, b, lo, hi)]), Values(s) + Range(lo, hi))
  {
    Apart(s);
    assert a < b ==> Last(s[a]) <= 0xFFFF && Last(s[b - 1]) <= 0xFFFF;
    hide Canonical, Separated, Merging, Holds, Union, Splice;
    var t := Splice(s, a, b, [Union(s, a, b, lo, hi)]);
    JoinSeparated(s, a, b, lo, hi);
    Apart(t);
    forall x
      ensures Holds(t, x) <==> Holds(s, x) || lo <= x <= hi
    {
      JoinHolds(s, a, b, lo, hi, x);
    }
    ValuesJoined(s, t, lo, hi);
    hide Values;
  }

  lemma ValuesJoined(s: seq<Rle>, t: seq<Rle>, lo: int, hi: int)
    requires 0 <= lo && hi <= 0xFFFF
    requires forall x :: Holds(t, x) <==> Holds(s, x) || lo <= x <= hi
    ensures Values(t) == Values(s) + Range(lo, hi)
  {
    hide Holds;
  }

  lemma JoinSeparated(s: seq<Rle>, a: nat, b: nat, lo: int, hi: int)
    requires Separated(s) && Merging(s, a, b, lo, hi) && 0 <= lo <= hi <= 0xFFFF
    ensures Separated(Splice(s, a, b, [Union(s, a, b, lo, hi)]))
  {
    if a < b {
      assert a > 0 ==> Last(s[a - 1]) + 1 < s[a].value;
      assert b < |s| ==> Last(s[b - 1]) + 1 < s[b].value;
    }
    SpliceSeparated(s, a, b, [Union(s, a, b, lo, hi)]);
  }

  lemma JoinHolds(s: seq<Rle>, a: nat, b: nat, lo: int, hi: int, x: int)
    requires Separated(s) && Merging(s, a, b, lo, hi) && 0 <= lo <= hi <= 0xFFFF
    ensures Holds(Splice(s, a, b, [Union(s, a, b, lo, hi)]), x) <==> Holds(s, x) || lo <= x <= hi
  {
    var r := Union(s, a, b, lo, hi);
    SpliceHolds(s, a, b, [r], x);
    HoldsOne(r, x);
    if a < b { EndsHold(s[a..b], x); }
  }

  // ---- an interval inside the set -----------------------------------------------------------

  /** An interval starting in run i lies in the set exactly when run i reaches its end. */
  lemma RangeInOneRun(s: seq<Rle>, i: nat, lo: int, hi: int)
    requires Canonical(s) && i < |s| && s[i].value <= lo <= Last(s[i]) && lo <= hi <= 0xFFFF
    ensures Range(lo, hi) <= Values(s) <==> hi <= Last(s[i])
  {
    Apart(s);
    var gap := Last(s[i]) + 1;
    assert forall j :: 0 <= j < i ==> Last(s[j]) + 1 < s[i].value;
    assert forall j :: i < j < |s| ==> gap < s[j].value;
    assert !Holds(s, gap);
    if hi > Last(s[i]) {
      assert gap in Range(lo, hi);
    }
  }
}
