/** Run containers: a set of 16-bit values kept as a canonical list of runs in a buffer that
    is searched by bisection and edited in place. */
module RunContainers {
  import opened Memory
  import opened RunSpec

  lemma {:induction false} RunStartsSpread(s: seq<Rle>, i: nat)
    requires Separated(s) && i < |s|
    ensures s[i].value >= 2 * i
  {
    if i > 0 {
      RunStartsSpread(s, i - 1);
      assert Last(s[i - 1]) + 1 < s[i].value;
    }
  }

  /** At most 32768 runs fit, so an index into the buffer always fits 16 bits. */
  lemma RunCount(s: seq<Rle>)
    requires Canonical(s)
    ensures |s| <= 0x8000
  {
    Apart(s);
    if s != [] {
      RunStartsSpread(s, |s| - 1);
    }
  }

  /** The result of bisecting on run starts: the run starting at key, or -(p+1) for the gap. */
  ghost predicate Started(s: seq<Rle>, r: int, key: int) {
    if r >= 0 then r < |s| && s[r].value == key
    else
      && -r - 1 <= |s|
      && (forall i :: 0 <= i < -r - 1 ==> s[i].value < key)
      && (forall i :: -r - 1 <= i < |s| ==> s[i].value > key)
  }

  // ---- searches -----------------------------------------------------------------------

  /** Bisection on the start of the runs; a miss encodes the insertion point p as -(p+1). */
  method InterleavedBinarySearch(a: array<Rle>, len: nat, key: U16) returns (r: int)
    requires len <= a.Length && Canonical(a[..len])
    ensures Started(a[..len], r, key) && -(len as int) - 1 <= r < len
  {
    hide Canonical, Started;
    ghost var s := a[..len];
    var low, high := 0, len - 1;
    while low <= high
      invariant 0 <= low <= high + 1 <= len
      invariant low > 0 ==> s[low - 1].value < key
      invariant high < len - 1 ==> s[high + 1].value > key
    {
      var mid := (low + high) / 2;
      assert a[mid] == s[mid];
      if a[mid].value < key {
        low := mid + 1;
      } else if a[mid].value > key {
        high := mid - 1;
      } else {
        StartHit(s, mid);
        return mid;
      }
    }
    StartMiss(s, low, key);
    return -(low + 1);
  }

  lemma StartHit(s: seq<Rle>, i: nat)
    requires i < |s|
    ensures Started(s, i, s[i].value)
  {
  }

  lemma StartMiss(s: seq<Rle>, n: nat, key: int)
    requires Canonical(s) && n <= |s|
    requires (n > 0 ==> s[n - 1].value < key) && (n < |s| ==> s[n].value > key)
    ensures Started(s, -(n as int) - 1, key)
  {
    Apart(s);
  }

  /** The run that contains `key`, or the point where the runs split around it. */
  method FindRun(a: array<Rle>, len: nat, key: U16) returns (r: int)
    requires len <= a.Length && Canonical(a[..len])
    ensures Found(a[..len], r, key)
  {
    hide Canonical, Found;
    ghost var s := a[..len];
    var low, high := 0, len - 1;
    while low <= high
      invariant 0 <= low <= high + 1 <= len
      invariant low > 0 ==> Last(s[low - 1]) < key
      invariant high < len - 1 ==> s[high + 1].value > key
    {
      var mid := (low + high) / 2;
      assert a[mid] == s[mid];
      NextTo(s, mid);
      var min: U16, max: U16 := a[mid].value, a[mid].value + a[mid].length;
      if key > max {
        low := mid + 1;
      } else if key < min {
        high := mid - 1;
      } else {
        RunHit(s, mid, key);
        return mid;
      }
    }
    RunMiss(s, low, key);
    return -(low + 1);
  }

  lemma RunHit(s: seq<Rle>, i: nat, key: int)
    requires i < |s| && s[i].value <= key <= Last(s[i])
    ensures Found(s, i, key)
  {
  }

  lemma RunMiss(s: seq<Rle>, n: nat, key: int)
    requires Canonical(s) && n <= |s|
    requires (n > 0 ==> Last(s[n - 1]) < key) && (n < |s| ==> s[n].value > key)
    ensures Found(s, -(n as int) - 1, key)
  {
    Apart(s);
  }

  /** How the other runs of a canonical list lie around run i. */
  lemma Around(s: seq<Rle>, i: nat)
    requires Canonical(s) && i < |s|
    ensures Last(s[i]) <= 0xFFFF
    ensures forall j :: 0 <= j < i ==> Last(s[j]) + 1 < s[i].value
    ensures forall j :: i < j < |s| ==> Last(s[i]) + 1 < s[j].value
  {
    Apart(s);
  }

  /** The runs next to run i end before it starts and start after it ends, not touching it. */
  lemma NextTo(s: seq<Rle>, i: nat)
    requires Canonical(s) && i < |s|
    ensures Last(s[i]) <= 0xFFFF
    ensures i > 0 ==> Last(s[i - 1]) + 1 < s[i].value
    ensures i + 1 < |s| ==> Last(s[i]) + 1 < s[i + 1].value
  {
    Apart(s);
  }

  /** The first n runs are those that end too early to overlap or touch `key`. */
  ghost predicate EndsAround(s: seq<Rle>, n: nat, key: int) {
    && n <= |s|
    && (forall i :: 0 <= i < n ==> Last(s[i]) + 1 < key)
    && (forall i :: n <= i < |s| ==> Last(s[i]) + 1 >= key)
  }

  /** The runs from n on are those that start too late to overlap or touch `key`. */
  ghost predicate StartsAround(s: seq<Rle>, n: nat, key: int) {
    && n <= |s|
    && (forall i :: 0 <= i < n ==> s[i].value <= key + 1)
    && (forall i :: n <= i < |s| ==> s[i].value > key + 1)
  }

  /** Run ends rise, so the runs on either side of n bound all others. */
  lemma EndsSplit(s: seq<Rle>, n: nat, key: int)
    requires Canonical(s) && n <= |s|
    requires n > 0 ==> Last(s[n - 1]) + 1 < key
    requires n < |s| ==> Last(s[n]) + 1 >= key
    ensures EndsAround(s, n, key)
  {
    Apart(s);
  }

  /** So do run starts. */
  lemma StartsSplit(s: seq<Rle>, n: nat, key: int)
    requires Canonical(s) && n <= |s|
    requires n > 0 ==> s[n - 1].value <= key + 1
    requires n < |s| ==> s[n].value > key + 1
    ensures StartsAround(s, n, key)
  {
    Apart(s);
  }

  /** A run that overlaps or touches `key` is the first, or the last, of those that do. */
  lemma EndsBefore(s: seq<Rle>, i: nat, key: int)
    requires Canonical(s) && i < |s| && s[i].value <= key <= Last(s[i]) + 1
    ensures EndsAround(s, i, key)
  {
    NextTo(s, i);
    EndsSplit(s, i, key);
  }

  lemma StartsAfter(s: seq<Rle>, i: nat, key: int)
    requires Canonical(s) && i < |s| && s[i].value <= key + 1 && key <= Last(s[i])
    ensures StartsAround(s, i + 1, key)
  {
    NextTo(s, i);
    StartsSplit(s, i + 1, key);
  }

  /** Number of runs that end too early to overlap or touch `key`. */
  method CountLess(a: array<Rle>, len: nat, key: U16) returns (n: nat)
    requires len <= a.Length && Canonical(a[..len])
    ensures n <= len && EndsAround(a[..len], n, key)
  {
    if len == 0 {
      return 0;
    }
    hide Canonical, EndsAround;
    ghost var s := a[..len];
    var low, high := 0, len - 1;
    while low <= high
      invariant 0 <= low <= high + 1 <= len
      invariant low > 0 ==> Last(s[low - 1]) + 1 < key
      invariant high < len - 1 ==> Last(s[high + 1]) + 1 >= key
    {
      var mid := (low + high) / 2;
      assert a[mid] == s[mid];
      RunBounds(s, mid, mid);
      var min: U16, max: U16 := a[mid].value, a[mid].value + a[mid].length;
      if max + 1 < key {
        low := mid + 1;
      } else if key < min {
        high := mid - 1;
      } else {
        EndsBefore(s, mid, key);
        return mid;
      }
    }
    EndsSplit(s, low, key);
    return low;
  }

  /** Number of runs that start too late to overlap or touch `key`. */
  method CountGreater(a: array<Rle>, len: nat, key: U16) returns (n: nat)
    requires len <= a.Length && Canonical(a[..len])
    ensures n <= len && StartsAround(a[..len], len - n, key)
  {
    if len == 0 {
      return 0;
    }
    hide Canonical, StartsAround;
    ghost var s := a[..len];
    var low, high := 0, len - 1;
    while low <= high
      invariant 0 <= low <= high + 1 <= len
      invariant low > 0 ==> s[low - 1].value <= key + 1
      invariant high < len - 1 ==> s[high + 1].value > key + 1
    {
      var mid := (low + high) / 2;
      assert a[mid] == s[mid];
      RunBounds(s, mid, mid);
      var min: U16, max: U16 := a[mid].value, a[mid].value + a[mid].length;
      if max < key {
        low := mid + 1;
      } else if key + 1 < min {
        high := mid - 1;
      } else {
        StartsAfter(s, mid, key);
        return len - (mid + 1);
      }
    }
    StartsSplit(s, low, key);
    return len - low;
  }

  /** After a miss, only the run just before the insertion point can contain the key. */
  lemma MissSplits(s: seq<Rle>, r: int, pos: U16)
    requires Canonical(s) && Started(s, r, pos) && r < 0
    ensures var index := -r - 2;
      && -1 <= index < |s|
      && (index >= 0 ==> s[index].value < pos)
      && (pos in Values(s) <==> index >= 0 && pos <= Last(s[index]))
      && (pos !in Values(s) ==> Denotes(s, Values(s) - {pos}))
  {
    Apart(s);
    var index := -r - 2;
    assert index >= 0 ==> forall i :: 0 <= i < index ==> Last(s[i]) + 1 < s[index].value;
  }

  /** A hit is the first value of its run. */
  lemma HitStarts(s: seq<Rle>, r: nat, pos: U16)
    requires Canonical(s) && Started(s, r, pos)
    ensures r < |s| && s[r].value == pos && pos in Values(s)
  {
  }

  /** t is s with a hole opened at `index`. */
  ghost predicate Opened(s: seq<Rle>, t: seq<Rle>, index: nat) {
    && index <= |s|
    && |t| == |s| + 1
    && t[..index] == s[..index]
    && t[index + 1..] == s[index..]
  }

  /** The four shapes that remove one value from run i: dropped, trimmed at its head, trimmed
      at its tail, split. */
  lemma DropRun(s: seq<Rle>, i: nat, pos: U16)
    requires Canonical(s) && i < |s| && s[i].value == pos == Last(s[i])
    ensures pos in Values(s) && Denotes(s[..i] + s[i + 1..], Values(s) - {pos})
  {
    hide Denotes, Canonical, Values;
    CutPoint(s, i, pos);
    NoMiddle(s[..i], s[i + 1..]);
  }

  lemma TrimHead(s: seq<Rle>, i: nat, pos: U16)
    requires Canonical(s) && i < |s| && s[i].value == pos < Last(s[i])
    ensures pos in Values(s) && pos < 0xFFFF
    ensures Denotes(s[i := Rle(pos + 1, s[i].length - 1)], Values(s) - {pos})
  {
    hide Denotes, Canonical, Values;
    CutPoint(s, i, pos);
    SetSplice(s, i, Rle(pos + 1, s[i].length - 1));
  }

  lemma TrimTail(s: seq<Rle>, i: nat, pos: U16)
    requires Canonical(s) && i < |s| && s[i].value < pos == Last(s[i])
    ensures pos in Values(s) && Denotes(s[i := Rle(s[i].value, s[i].length - 1)], Values(s) - {pos})
  {
    hide Denotes, Canonical, Values;
    CutPoint(s, i, pos);
    SetSplice(s, i, Rle(s[i].value, s[i].length - 1));
  }

  lemma CutPoint(s: seq<Rle>, i: nat, pos: U16)
    requires Canonical(s) && i < |s| && s[i].value <= pos <= Last(s[i])
    ensures pos in Values(s) && Last(s[i]) <= 0xFFFF
    ensures Denotes(Splice(s, i, i + 1, LeftOf(s[i], pos) + RightOf(s[i], pos)), Values(s) - {pos})
  {
    assert Holds(s, pos);
    hide Denotes, Canonical, Holds;
    InsideTouched(s, i, pos, pos);
    Cut(s, i, i + 1, pos, pos);
    PointRange(pos);
  }

  lemma NoMiddle<T>(s: seq<T>, t: seq<T>)
    ensures s + ([] + []) + t == s + t
  {
  }

  lemma SetSplice(s: seq<Rle>, i: nat, r: Rle)
    requires i < |s|
    ensures Splice(s, i, i + 1, [r] + []) == Splice(s, i, i + 1, [] + [r]) == Splice(s, i, i + 1, [r]) == s[i := r]
  {
    assert [r] + [] == [r] == [] + [r];
  }

  /** The value lies strictly inside run i: the left half is written first (t), then room is
      made after it (u), then the right half is written. */
  lemma SplitOne(s: seq<Rle>, t: seq<Rle>, u: seq<Rle>, i: nat, pos: U16)
    requires Canonical(s) && i < |s| && s[i].value < pos < Last(s[i])
    requires t == s[i := Rle(s[i].value, pos - s[i].value - 1)] && Opened(t, u, i + 1)
    ensures pos in Values(s) && Last(s[i]) <= 0xFFFF
    ensures Denotes(u[i + 1 := Rle(pos + 1, Last(s[i]) - pos - 1)], Values(s) - {pos})
  {
    hide Denotes, Canonical, Values;
    CutPoint(s, i, pos);
    SplitView(s, t, u, i, t[i], Rle(pos + 1, Last(s[i]) - pos - 1));
  }

  /** Run i of s, first overwritten by l (t), then given room after it (u), has become l and r. */
  lemma SplitView(s: seq<Rle>, t: seq<Rle>, u: seq<Rle>, i: nat, l: Rle, r: Rle)
    requires i < |s| && t == s[i := l] && Opened(t, u, i + 1)
    ensures u[i + 1 := r] == Splice(s, i, i + 1, [l] + [r])
  {
    assert u[..i + 1][i] == l;
    assert u[..i + 1] == s[..i] + [l];
    assert u[i + 2..] == s[i + 1..];
  }

  /** What the two searches of a range removal say about the runs a..b that meet the range. */
  lemma Ends(s: seq<Rle>, first: int, last: int, a: int, b: int, min: U16, max: U16)
    requires Canonical(s) && min <= max && Found(s, first, min) && Found(s, last, max)
    requires a == (if first >= 0 then first else -first - 1)
    requires b == (if last >= 0 then last + 1 else -last - 1)
    ensures 0 <= a <= b <= |s| && Touched(s, a, b, min, max)
    ensures first >= 0 ==> a < |s| && s[a].value <= min <= Last(s[a]) <= 0xFFFF
    ensures first < 0 ==> a == b || s[a].value > min
    ensures last >= 0 ==> 0 < b && s[b - 1].value <= max <= Last(s[b - 1]) <= 0xFFFF
    ensures last < 0 ==> a == b || Last(s[b - 1]) < max
    ensures first >= 0 && max < Last(s[a]) ==> b == a + 1
    ensures first >= 0 ==> a < b
    ensures a < b ==> Last(s[a]) <= 0xFFFF && Last(s[b - 1]) <= 0xFFFF
  {
    Apart(s);
    FoundTouched(s, first, last, min, max);
    if first >= 0 && a + 1 < b { assert Last(s[a]) + 1 < s[b - 1].value; }
  }

  /** The range lies strictly inside run i: making room after it and writing the two halves. */
  lemma SplitRemoved(s: seq<Rle>, u: seq<Rle>, i: nat, min: U16, max: U16)
    requires Canonical(s) && i < |s| && Opened(s, u, i + 1)
    requires s[i].value < min <= max < Last(s[i])
    ensures u[i] == s[i] && Last(s[i]) <= 0xFFFF
    ensures Denotes(u[i + 1 := Rle(max + 1, Last(s[i]) - (max + 1))][i := Rle(s[i].value, min - 1 - s[i].value)],
                    Values(s) - Range(min, max))
  {
    hide Denotes, Canonical, Values;
    InsideTouched(s, i, min, max);
    Cut(s, i, i + 1, min, max);
    assert u[..i + 1][i] == s[..i + 1][i];
    var l, r := Rle(s[i].value, min - 1 - s[i].value), Rle(max + 1, Last(s[i]) - (max + 1));
    SplitView(s, s[i := l], u[i := l], i, l, r) by {
      assert u[i := l][..i + 1] == s[i := l][..i + 1];
      assert u[i := l][i + 2..] == s[i := l][i + 1..];
    }
    assert u[i := l][i + 1 := r] == u[i + 1 := r][i := l];
  }

  ghost predicate LeftTrimmed(s: seq<Rle>, a: nat, b: nat, min: U16, t: seq<Rle>, first: int)
    requires a <= b <= |s|
  {
    if a < b && s[a].value < min
    then t == s[a := Rle(s[a].value, min - 1 - s[a].value)] && first == a + 1
    else t == s && first == a
  }

  ghost predicate RightTrimmed(s: seq<Rle>, a: nat, b: nat, max: U16, t: seq<Rle>, u: seq<Rle>, last: int)
    requires a <= b <= |s| && |t| == |s| && (a < b ==> Last(s[b - 1]) <= 0xFFFF)
  {
    if a < b && Last(s[b - 1]) > max
    then u == t[b - 1 := Rle(max + 1, Last(s[b - 1]) - (max + 1))] && last == b - 2
    else u == t && last == b - 1
  }

  /** Trimming the first run leaves the last one as it was, or ending below the range. */
  lemma TrimmedStays(s: seq<Rle>, t: seq<Rle>, a: nat, b: nat, min: U16, max: U16, first: int)
    requires a < b <= |s| && LeftTrimmed(s, a, b, min, t, first)
    requires s[b - 1].value <= max <= Last(s[b - 1]) <= 0xFFFF && min <= max
    requires Last(s[a]) <= 0xFFFF && (s[a].value < min && max < Last(s[a]) ==> b != a + 1)
    ensures |t| == |s| && t[b - 1].value <= max && Last(t[b - 1]) <= 0xFFFF
    ensures Last(t[b - 1]) > max <==> Last(s[b - 1]) > max
    ensures Last(s[b - 1]) > max ==> t[b - 1] == s[b - 1]
  {
  }

  /** The runs a..b meet the range: t has the first one trimmed, u also the last one, and the
      runs first..last are dropped. */
  lemma TrimRemoved(s: seq<Rle>, a: nat, b: nat, min: U16, max: U16,
                    t: seq<Rle>, u: seq<Rle>, first: nat, last: int)
    requires Canonical(s) && Touched(s, a, b, min, max) && min <= max && |t| == |s|
    requires a < b ==> Last(s[b - 1]) <= 0xFFFF
    requires !(a + 1 == b && s[a].value < min && Last(s[a]) > max)
    requires LeftTrimmed(s, a, b, min, t, first) && RightTrimmed(s, a, b, max, t, u, last)
    ensures first <= last + 1 <= |u| == |s|
    ensures Denotes(u[..first] + u[last + 1..], Values(s) - Range(min, max))
    ensures first == last + 1 ==> u[..first] + u[last + 1..] == u
  {
    hide Denotes, Canonical, Values;
    Cut(s, a, b, min, max);
    if a < b {
      TrimSlices(s, a, b, min, max, t, u, first, last);
      Regroup(s[..a], LeftOf(s[a], min), RightOf(s[b - 1], max), s[b..]);
    } else {
      TakeDrop(s, a);
    }
    if first == last + 1 { TakeDrop(u, first); }
  }

  lemma TrimSlices(s: seq<Rle>, a: nat, b: nat, min: U16, max: U16,
                   t: seq<Rle>, u: seq<Rle>, first: nat, last: int)
    requires a < b <= |s| && Last(s[a]) <= 0xFFFF && Last(s[b - 1]) <= 0xFFFF
    requires s[a].value <= max && Last(s[b - 1]) >= min && s[b - 1].value <= max
    requires !(a + 1 == b && s[a].value < min && Last(s[a]) > max)
    requires if s[a].value < min
             then t == s[a := Rle(s[a].value, min - 1 - s[a].value)] && first == a + 1
             else t == s && first == a
    requires if Last(s[b - 1]) > max
             then u == t[b - 1 := Rle(max + 1, Last(s[b - 1]) - (max + 1))] && last == b - 2
             else u == t && last == b - 1
    ensures first <= last + 1
    ensures u[..first] == s[..a] + LeftOf(s[a], min)
    ensures u[last + 1..] == RightOf(s[b - 1], max) + s[b..]
  {
    if s[a].value < min {
      SetSlices(s, a, t[a]);
      SetSuffix(s, a, t[a], b);
    }
    assert t[b..] == s[b..];
    if Last(s[b - 1]) > max {
      SetSlices(t, b - 1, u[b - 1]);
      SetPrefix(t, b - 1, u[b - 1], first);
    }
  }

  lemma SplicePush(s: seq<Rle>, r: Rle)
    ensures Splice(s, |s|, |s|, [r]) == s + [r]
  {
  }

  /** Appending a run at the end joins it with the last run or leaves it on its own. */
  lemma AppendMerges(s: seq<Rle>, vl: Rle)
    requires Canonical(s) && s != [] && Last(vl) <= 0xFFFF && s[|s| - 1].value <= vl.value
    ensures Last(s[|s| - 1]) <= 0xFFFF
    ensures var n, v := |s| - 1, Values(s) + Range(vl.value, Last(vl));
      if vl.value > Last(s[n]) + 1 then Denotes(s + [vl], v)
      else if Last(vl) >= Last(s[n]) then Denotes(s[n := Rle(s[n].value, Last(vl) - s[n].value)], v)
      else Denotes(s, v)
  {
    hide Denotes, Canonical, Values, Merging, Splice;
    var n := |s| - 1;
    RunBounds(s, n, n);
    if vl.value > Last(s[n]) + 1 {
      LastMerging(s, vl);
      Join(s, n + 1, n + 1, vl.value, Last(vl));
      SplicePush(s, vl);
    } else {
      LastMerging(s, vl);
      Join(s, n, n + 1, vl.value, Last(vl));
      SetSplice(s, n, Union(s, n, n + 1, vl.value, Last(vl)));
      if Last(vl) < Last(s[n]) { assert s[n := s[n]] == s; }
    }
  }

  lemma LastMerging(s: seq<Rle>, vl: Rle)
    requires Canonical(s) && s != [] && s[|s| - 1].value <= vl.value
    ensures var n := |s| - 1;
      Merging(s, if vl.value > Last(s[n]) + 1 then n + 1 else n, n + 1, vl.value, Last(vl))
  {
    Around(s, |s| - 1);
  }

  lemma OpenedSet(s: seq<Rle>, t: seq<Rle>, i: nat, r: Rle)
    requires Opened(s, t, i)
    ensures t[i := r] == Splice(s, i, i, [r])
  {
    assert t[i := r] == t[..i] + [r] + t[i + 1..];
  }

  /** The runs a..b, the first overwritten by r, collapse into r when the tail closes up. */
  lemma CollapseView(s: seq<Rle>, t: seq<Rle>, a: nat, b: nat, r: Rle)
    requires a < b <= |s| && t == s[a := r]
    ensures t[..a + 1] + t[b..] == Splice(s, a, b, [r])
  {
    assert t[..a + 1] == s[..a] + [r];
    assert t[b..] == s[b..];
  }

  // ---- the container --------------------------------------------------------------------

  /** The effect of appending one value at the end of a run list. */
  ghost function Appended(s: seq<Rle>, v: U16): seq<Rle>
    requires s != [] ==> Last(s[|s| - 1]) <= 0xFFFF
  {
    if s == [] then [Rle(v, 0)] else
    var n, r := |s| - 1, s[|s| - 1];
    if v > Last(r) + 1 then s + [Rle(v, 0)]
    else if v == Last(r) + 1 then s[..n] + [Rle(r.value, r.length + 1)]
    else s
  }

  lemma AppendedCanonical(s: seq<Rle>, v: U16)
    requires Canonical(s)
    ensures Canonical(Appended(s, v))
  {
    var t := Appended(s, v);
    var n := |t| - 1;
    if s != [] {
      assert t[..n] == if v > Last(s[|s| - 1]) + 1 then s else s[..|s| - 1];
    }
  }

  /** Appending a value at the end adds exactly that value. */
  lemma AppendedDenotes(s: seq<Rle>, v: U16)
    requires Canonical(s) && (s != [] ==> s[|s| - 1].value <= v)
    ensures Denotes(Appended(s, v), Values(s) + {v})
  {
    if s == [] {
      FirstValue(v);
      assert Appended(s, v) == [Rle(v, 0)];
    } else if v <= Last(s[|s| - 1]) {
      OldValue(s, v);
    } else {
      NewValue(s, v);
    }
  }

  lemma NewValue(s: seq<Rle>, v: U16)
    requires Canonical(s) && s != [] && v > Last(s[|s| - 1])
    ensures Denotes(Appended(s, v), Values(s) + {v})
  {
    hide Denotes, Canonical, Values;
    var r := s[|s| - 1];
    RunBounds(s, |s| - 1, |s| - 1);
    AppendMerges(s, Rle(v, 0));
    PointRange(v);
    if v == Last(r) + 1 {
      SetLast(s, Rle(r.value, r.length + 1));
    }
  }

  lemma FirstValue(v: U16)
    ensures Denotes([Rle(v, 0)], Values([]) + {v})
  {
    forall x ensures Holds([Rle(v, 0)], x) <==> x == v { HoldsOne(Rle(v, 0), x); }
  }

  lemma SetLast(s: seq<Rle>, r: Rle)
    requires s != []
    ensures s[..|s| - 1] + [r] == s[|s| - 1 := r]
  {
  }

  lemma OldValue(s: seq<Rle>, v: U16)
    requires Canonical(s) && s != [] && s[|s| - 1].value <= v <= Last(s[|s| - 1])
    ensures Denotes(Appended(s, v), Values(s) + {v})
  {
    assert Holds(s, v);
  }

  /** The run list built by appending the values one after the other. */
  ghost function FromSorted(vals: seq<U16>): (s: seq<Rle>)
    ensures Canonical(s)
  {
    if vals == [] then [] else
    var n := |vals| - 1;
    var s := FromSorted(vals[..n]);
    AppendedCanonical(s, vals[n]);
    Appended(s, vals[n])
  }

  /** Appending a strictly increasing sequence builds the canonical list of its values, whose
      run count and length fields add up to the length of the sequence. */
  lemma {:induction false} FromSortedExact(vals: seq<U16>)
    requires forall i, j :: 0 <= i < j < |vals| ==> vals[i] < vals[j]
    ensures Denotes(FromSorted(vals), set v | v in vals)
    ensures |FromSorted(vals)| + SumLengths(FromSorted(vals)) == |vals|
    ensures vals != [] ==> FromSorted(vals) != [] && Last(FromSorted(vals)[|FromSorted(vals)| - 1]) == vals[|vals| - 1]
  {
    if vals == [] {
      assert Values([]) == {};
    } else {
      var n := |vals| - 1;
      var p, v := vals[..n], vals[n];
      FromSortedExact(p);
      var s := FromSorted(p);
      AddToSet(p, v, vals);
      NextLarger(s, v);
      AppendedCounts(s, v);
      AppendedDenotes(s, v);
    }
  }

  lemma FoldStep(vals: seq<U16>, i: nat)
    ensures FromSorted([]) == [] && FromSorted(vals[..0]) == []
    ensures i < |vals| ==> FromSorted(vals[..i + 1]) == Appended(FromSorted(vals[..i]), vals[i])
  {
    if i < |vals| { assert vals[..i + 1][..i] == vals[..i]; }
  }

  /** The fold never loses a run. */
  lemma {:induction false} FoldGrows(vals: seq<U16>, i: nat)
    requires i <= |vals|
    ensures |FromSorted(vals[..i])| <= |FromSorted(vals)|
  {
    if i == |vals| {
      assert vals[..i] == vals;
    } else {
      var n := |vals| - 1;
      FoldGrows(vals[..n], i);
      assert vals[..n][..i] == vals[..i];
    }
  }

  lemma FirstRun(v: U16)
    ensures Appended([], v) == [Rle(v, 0)]
  {
  }

  lemma MoreRuns(s: seq<Rle>, v: U16)
    requires Canonical(s) && s != []
    ensures v > Last(s[|s| - 1]) + 1 ==> |Appended(s, v)| == |s| + 1
  {
  }

  lemma AddToSet(p: seq<U16>, v: U16, vals: seq<U16>)
    requires vals != [] && p == vals[..|vals| - 1] && v == vals[|vals| - 1]
    ensures (set x | x in vals) == (set x | x in p) + {v}
  {
    assert vals == p + [v];
  }

  lemma NextLarger(s: seq<Rle>, v: int)
    requires s != [] ==> Last(s[|s| - 1]) < v
    ensures s != [] ==> s[|s| - 1].value <= v
  {
  }

  lemma AppendedCounts(s: seq<Rle>, v: U16)
    requires Canonical(s) && (s != [] ==> Last(s[|s| - 1]) < v)
    ensures var t := Appended(s, v);
      t != [] && Last(t[|t| - 1]) == v && |t| + SumLengths(t) == |s| + SumLengths(s) + 1
  {
    var t := Appended(s, v);
    assert t[..|t| - 1] == if s != [] && v == Last(s[|s| - 1]) + 1 then s[..|s| - 1] else s;
  }

  /** The counting loop of the range test: after the run that covers `start`, every further run
      below `end` falls short of the values it would have to cover by at least two. */
  ghost predicate Counted(s: seq<Rle>, index: nat, i: nat, start: int, end: int, count: int)
    requires index <= i <= |s| && index < |s|
  {
    && (i == index ==> count == 0)
    && (i == index + 1 ==> count == Last(s[index]) - start)
    && (i > index + 1 ==> count <= Last(s[i - 1]) - start - 2)
    && (i > index ==> Last(s[i - 1]) < end)
  }

  lemma CountedStart(s: seq<Rle>, index: nat, start: int, end: int)
    requires index < |s|
    ensures Counted(s, index, index, start, end, 0)
  {
  }

  lemma CountedNext(s: seq<Rle>, index: nat, i: nat, start: int, end: int, count: int)
    requires Canonical(s) && index <= i < |s| && s[index].value <= start <= Last(s[index])
    requires Counted(s, index, i, start, end, count) && Last(s[i]) < end
    ensures var m := if Last(s[i]) - start > 0 then Last(s[i]) - start else 0;
      Counted(s, index, i + 1, start, end, count + if m < s[i].length then m else s[i].length)
  {
    RunBounds(s, index, i);
    if i > index {
      RunBounds(s, i - 1, i);
    }
  }

  /** What the count says when the loop stops at run i. */
  lemma CountedEnd(s: seq<Rle>, index: nat, i: nat, start: int, end: int, count: int)
    requires Canonical(s) && index <= i <= |s| && index < |s| && s[index].value <= start <= Last(s[index])
    requires start < end && Counted(s, index, i, start, end, count)
    ensures i == |s| || s[i].value >= end ==> (count >= end - start - 1 <==> end - 1 <= Last(s[index]))
    ensures i < |s| && s[i].value < end <= Last(s[i]) ==>
      (count + (end - s[i].value) >= end - start - 1 <==> end - 1 <= Last(s[index]))
  {
    if i > index {
      RunBounds(s, index, i - 1);
      if i < |s| { RunBounds(s, i - 1, i); }
    }
  }

  /** One round of the counting loop; for an empty range there is no second one. */
  lemma CountedStep(s: seq<Rle>, index: nat, i: nat, start: int, end: int, count: int)
    requires Canonical(s) && index <= i < |s| && s[index].value <= start <= Last(s[index]) && start <= end
    requires if start < end then Counted(s, index, i, start, end, count) else i == index
    ensures var stop := s[i].value + s[i].length;
      && stop <= 0xFFFF && (start == end ==> stop >= end)
      && (start < end && s[i].value >= end ==> (count >= end - start - 1 <==> end - 1 <= Last(s[index])))
      && (start < end && s[i].value < end <= stop ==>
        (count + (end - s[i].value) >= end - start - 1 <==> end - 1 <= Last(s[index])))
      && (stop < end ==>
        var m := if stop - start > 0 then stop - start else 0;
        var c := count + if m < s[i].length then m else s[i].length;
        && Counted(s, index, i + 1, start, end, c)
        && (i + 1 == |s| ==> (c >= end - start - 1 <==> end - 1 <= Last(s[index]))))
  {
    hide Counted, Canonical;
    RunBounds(s, i, i);
    if start < end {
      CountedEnd(s, index, i, start, end, count);
      if Last(s[i]) < end {
        CountedNext(s, index, i, start, end, count);
        var m := if Last(s[i]) - start > 0 then Last(s[i]) - start else 0;
        CountedEnd(s, index, i + 1, start, end, count + if m < s[i].length then m else s[i].length);
      }
    }
  }

  lemma PrefixSlice<T>(a: array<T>, n: nat, m: nat)
    requires m <= n <= a.Length
    ensures a[..m] == a[..n][..m]
  {
  }

  lemma MergingSplit(s: seq<Rle>, nLess: nat, m: nat, min: int, max: int)
    requires nLess <= m <= |s| && EndsAround(s[..m], nLess, min) && StartsAround(s, m, max)
    ensures Merging(s, nLess, m, min, max)
  {
    assert forall i :: 0 <= i < m ==> s[..m][i] == s[i];
  }

  /** Only the list with the single run [0, 65535] denotes every 16-bit value. */
  lemma FullRun(s: seq<Rle>)
    requires Canonical(s)
    ensures Values(s) == Range(0, 0xFFFF) <==> |s| == 1 && s[0] == Rle(0, 0xFFFF)
  {
    var full := [Rle(0, 0xFFFF)];
    forall x ensures Holds(full, x) <==> 0 <= x <= 0xFFFF { HoldsOne(full[0], x); }
    if Values(s) == Range(0, 0xFFFF) {
      CanonicalUnique(s, full);
    }
    if |s| == 1 && s[0] == Rle(0, 0xFFFF) {
      assert s == full;
    }
  }

  lemma TailBounds(s: seq<Rle>)
    requires Canonical(s) && s != []
    ensures Last(s[|s| - 1]) in Values(s) && forall x :: x in Values(s) ==> x <= Last(s[|s| - 1])
  {
    Apart(s);
    var n := |s| - 1;
    assert forall i :: 0 <= i < n ==> Last(s[i]) + 1 < s[n].value;
    assert s[n].value <= Last(s[n]) <= Last(s[n]);
  }

  /** The last `count` of the entries v in front of a buffer, moved by `distance`. */
  lemma Shifted<T>(d: seq<T>, v: seq<T>, count: nat, distance: int)
    requires |v| <= |d| && v == d[..|v|] && count <= |v| && 0 <= |v| - count + distance && |v| + distance <= |d|
    ensures var t := Moved(d, |v| - count + distance, |v| - count, count);
      var n, kept := |v| + distance, |v| - count + if distance < 0 then distance else 0;
      |t| == |d| && t[..n][n - count..] == v[|v| - count..] && t[..n][..kept] == v[..kept]
  {
  }

  class RunContainer {
    var nRuns: nat
    var runs: array<Rle>       // its length is the container's capacity
    ghost var view: seq<Rle>   // the runs in use

    ghost predicate Rep()
      reads this, runs
    {
      nRuns <= runs.Length && view == runs[..nRuns]
    }

    ghost predicate Valid()
      reads this, runs
    {
      Rep() && Canonical(view)
    }

    ghost function Contents(): set<int>
      reads this
    {
      Values(view)
    }

    /** The container is well formed and its set is exactly v. */
    ghost predicate Is(v: set<int>)
      reads this, runs
    {
      Rep() && Denotes(view, v)
    }

    /** An empty container with room for `size` runs. */
    constructor (size: nat)
      ensures Valid() && view == [] && runs.Length == size && fresh(runs)
    {
      nRuns := 0;
      runs := new Rle[size];
      view := [];
    }

    /** The container whose only run is [start, stop). */
    constructor CreateRange(start: U32, stop: U32)
      requires start < stop <= 0x1_0000
      ensures Is(Range(start, stop - 1)) && fresh(runs)
      ensures view == [Rle(start, stop - start - 1)]
    {
      nRuns := 0;
      runs := new Rle[1];
      view := [];
      new;
      var r := Rle(start, stop - start - 1);
      var _ := AppendFirst(r);
      forall x ensures Holds([r], x) <==> start <= x <= stop - 1 { HoldsOne(r, x); }
    }

    // -- buffer primitives: what they do to the runs in use

    /** The runs in use are the buffer's first nRuns entries. */
    lemma Buffer()
      requires Rep()
      ensures nRuns == |view| && nRuns <= runs.Length && runs[..nRuns] == view
    {
    }

    function At(i: nat): (r: Rle)
      requires Rep() && i < |view|
      reads this, runs
      ensures r == view[i]
    {
      runs[i]
    }

    method Grow(min: nat)
      requires Rep() && nRuns <= min
      modifies this`runs
      ensures Rep() && fresh(runs) && runs.Length >= min
    {
      runs := Regrow(runs, nRuns, min);
    }

    /** Overwrites the run at `index`. */
    method SetRun(index: nat, r: Rle)
      requires Rep() && index < |view|
      modifies this`view, runs
      ensures Rep() && view == old(view)[index := r]
    {
      runs[index] := r;
      view := view[index := r];
    }

    /** Writes one more run behind those in use. */
    method PushRun(r: Rle)
      requires Rep() && |view| < runs.Length
      modifies this`view, this`nRuns, runs
      ensures Rep() && view == old(view) + [r]
    {
      runs[nRuns] := r;
      nRuns := nRuns + 1;
      view := view + [r];
    }

    /** `memmove` of the runs from `src` on down to `dst`, which drops the runs between. */
    method CloseUp(dst: nat, src: nat)
      requires Rep() && dst <= src <= |view|
      modifies this`nRuns, this`view, runs
      ensures Rep() && view == old(view)[..dst] + old(view)[src..]
    {
      hide Moved;
      MovedDown(runs[..], nRuns, dst, src);
      Move(runs, dst, src, nRuns - src);
      nRuns := nRuns - (src - dst);
      ghost var t := runs[..];
      assert runs[..nRuns] == t[..nRuns];
      view := view[..dst] + view[src..];
    }

    method RecoverRoomAtIndex(index: U16)
      requires Rep() && index < |view|
      modifies this`nRuns, this`view, runs
      ensures Rep() && view == old(view)[..index] + old(view)[index + 1..]
    {
      CloseUp(index, index + 1);
    }

    /** Opens a hole at `index`; what the hole holds is left open. */
    method MakeRoomAtIndex(index: U16)
      requires Rep() && index <= |view|
      modifies this, runs
      ensures Rep() && (runs == old(runs) || fresh(runs))
      ensures Opened(old(view), view, index)
    {
      if nRuns + 1 > runs.Length {
        Grow(nRuns + 1);
      }
      Move(runs, index + 1, index, nRuns - index);
      nRuns := nRuns + 1;
      assert runs[..index] == view[..index] && runs[index + 1..nRuns] == view[index..];
      view := runs[..nRuns];
    }

    /** Shifts the last `count` runs by `distance`: to the left over other runs, or to the right,
        leaving a hole whose contents are left open. The test for room counts the shifted runs
        alone, so a right shift of fewer than all runs relies on the caller for room. */
    method ShiftTail(count: nat, distance: int)
      requires Rep() && count <= |view| && 0 <= |view| - count + distance
      requires distance > 0 ==> count == |view| || |view| + distance <= runs.Length
      modifies this, runs
      ensures Rep() && |view| == |old(view)| + distance
      ensures view[|view| - count..] == old(view)[|old(view)| - count..]
      ensures var kept := |old(view)| - count + if distance < 0 then distance else 0;
        view[..kept] == old(view)[..kept]
      ensures runs == old(runs) || (distance > 0 && fresh(runs))
    {
      if distance > 0 {
        if runs.Length < count + distance {
          Grow(count + distance);
        }
      }
      MoveTail(count, distance);
    }

    /** The `memmove` of a tail shift, once there is room. */
    method MoveTail(count: nat, distance: int)
      requires Rep() && count <= |view| && 0 <= |view| - count + distance
      requires |view| + distance <= runs.Length
      modifies this`nRuns, this`view, runs
      ensures Rep() && |view| == |old(view)| + distance
      ensures view[|view| - count..] == old(view)[|old(view)| - count..]
      ensures var kept := |old(view)| - count + if distance < 0 then distance else 0;
        view[..kept] == old(view)[..kept]
    {
      hide Moved;
      Buffer();
      ghost var d := runs[..];
      assert runs[..nRuns] == d[..nRuns];
      Shifted(d, view, count, distance);
      var srcpos := nRuns - count;
      var dstpos := srcpos + distance;
      Move(runs, dstpos, srcpos, count);
      nRuns := nRuns + distance;
      ghost var t := runs[..];
      view := t[..nRuns];
      assert runs[..nRuns] == view;
    }

    // -- queries

    /** Membership by bisection on the run starts. */
    method Contains(pos: U16) returns (b: bool)
      requires Valid()
      ensures b <==> pos in Contents()
    {
      hide Canonical, Values, Started;
      Buffer();
      var index := InterleavedBinarySearch(runs, nRuns, pos);
      if index >= 0 {
        HitStarts(view, index, pos);
        return true;
      }
      MissSplits(view, index, pos);
      index := -index - 2;
      if index != -1 {
        var offset := pos - At(index).value;
        var le := At(index).length;
        if offset <= le {
          return true;
        }
      }
      return false;
    }

    /** Whether every value of [start, end) is present, decided by counting; no for an empty range,
        whose length less one wraps around. */
    method ContainsRange(start: U32, end: U32) returns (b: bool)
      requires Valid() && start <= end <= 0x1_0000 && start < 0x1_0000
      ensures b <==> start < end && Range(start, end - 1) <= Contents()
    {
      hide Canonical, Values, Rep;
      Buffer();
      var index := CoveringRun(start);
      if index == -1 {
        assert start < end ==> start in Range(start, end - 1);
        return false;
      }
      // the run at index covers start; the range is covered iff that run reaches end - 1
      if start < end { RangeInOneRun(view, index, start, end - 1); }
      var count := CountFrom(index, start, end);
      return count >= (end - start - 1) % 0x1_0000_0000;
    }

    /** The run that holds a value, or -1. */
    method CoveringRun(start: U16) returns (index: int)
      requires Valid()
      ensures -1 <= index < |view| && (index == -1 <==> start !in Contents())
      ensures index >= 0 ==> view[index].value <= start <= Last(view[index])
    {
      hide Canonical, Values, Started, Rep;
      Buffer();
      index := InterleavedBinarySearch(runs, nRuns, start);
      if index < 0 {
        MissSplits(view, index, start);
        index := -index - 2;
        if index == -1 || start - At(index).value > At(index).length {
          return -1;
        }
      } else {
        HitStarts(view, index, start);
      }
    }

    /** Adds up what the runs from the covering one on have below end, each one value short. */
    method CountFrom(index: nat, start: U32, end: U32) returns (count: nat)
      requires Valid() && index < |view| && view[index].value <= start <= Last(view[index]) && start <= end <= 0x1_0000
      ensures start < end ==> (count >= end - start - 1 <==> end - 1 <= Last(view[index]))
      ensures start == end ==> count <= 0x1_0000
    {
      hide Canonical, Rep, Counted, Last;
      Buffer();
      count := 0;
      CountedStart(view, index, start, end);
      var i := index;
      while i < nRuns
        invariant index <= i <= nRuns
        invariant if start < end then Counted(view, index, i, start, end, count) else i == index && count == 0
        invariant start < end && i == nRuns ==> (count >= end - start - 1 <==> end - 1 <= Last(view[index]))
      {
        CountedStep(view, index, i, start, end, count);
        var stop := At(i).value + At(i).length;
        if At(i).value >= end {
          break;
        }
        if stop >= end {
          count := count + if end - At(i).value > 0 then end - At(i).value else 0;
          break;
        }
        var min := if stop - start > 0 then stop - start else 0;
        count := count + if min < At(i).length then min else At(i).length;
        i := i + 1;
      }
    }

    /** Values present: the run count plus the sum of the length fields. */
    method Cardinality() returns (sum: nat)
      requires Valid()
      ensures sum == |Contents()|
    {
      sum := nRuns;
      for k := 0 to nRuns
        invariant sum == nRuns + SumLengths(view[..k])
      {
        assert view[..k + 1][..k] == view[..k];
        sum := sum + runs[k].length;
      }
      assert view[..nRuns] == view;
      RunSpec.Cardinality(view);
    }

    /** Constant-time test for the run [0, 65535]. */
    method IsFull() returns (b: bool)
      requires Valid() && runs.Length > 0
      ensures b <==> Contents() == Range(0, 0xFFFF)
    {
      var vl := runs[0];
      b := nRuns == 1 && vl.value == 0 && vl.length == 0xFFFF;
      FullRun(view);
    }

    method Minimum() returns (v: U16)
      requires Valid()
      ensures if Contents() == {} then v == 0 else v in Contents() && forall x :: x in Contents() ==> v <= x
    {
      if nRuns == 0 {
        return 0;
      }
      HeadBounds(view);
      return runs[0].value;
    }

    method Maximum() returns (v: U16)
      requires Valid()
      ensures if Contents() == {} then v == 0 else v in Contents() && forall x :: x in Contents() ==> x <= v
    {
      if nRuns == 0 {
        return 0;
      }
      TailBounds(view);
      return runs[nRuns - 1].value + runs[nRuns - 1].length;
    }

    // -- appending at the end

    method AppendFirst(vl: Rle) returns (previous: Rle)
      requires Rep() && view == [] && runs.Length > 0 && Last(vl) <= 0xFFFF
      modifies this`nRuns, this`view, runs
      ensures Valid() && view == [vl] && previous == vl
    {
      PushRun(vl);
      return vl;
    }

    /** Appends a run at the end, merging it with the last run where they overlap or touch. */
    method Append(vl: Rle, previous: Rle) returns (previous': Rle)
      requires Valid() && view != [] && view[|view| - 1] == previous
      requires Last(vl) <= 0xFFFF && previous.value <= vl.value
      requires vl.value > Last(previous) + 1 ==> |view| < runs.Length
      modifies this`nRuns, this`view, runs
      ensures view != [] && view[|view| - 1] == previous'
      ensures Is(old(Contents()) + Range(vl.value, Last(vl)))
    {
      hide Canonical, Values, Denotes, Rep;
      Buffer();
      AppendMerges(view, vl);
      var previousend := previous.value + previous.length;
      previous' := previous;
      if vl.value > previousend + 1 {
        PushRun(vl);
        previous' := vl;
      } else {
        var newend := vl.value + vl.length + 1;
        if newend > previousend {
          previous' := Rle(previous.value, newend - 1 - previous.value);
          SetRun(nRuns - 1, previous');
        }
      }
    }

    /** Appends a single value at the end. */
    method AppendValue(val: U16, previous: Rle) returns (previous': Rle)
      requires Valid() && view != [] && view[|view| - 1] == previous
      requires val > Last(previous) + 1 ==> |view| < runs.Length
      modifies this`nRuns, this`view, runs
      ensures Valid() && view != [] && view[|view| - 1] == previous'
      ensures view == Appended(old(view), val)
    {
      AppendedCanonical(view, val);
      var previousend := previous.value + previous.length;
      previous' := previous;
      if val > previousend + 1 {
        previous' := Rle(val, 0);
        PushRun(previous');
      } else if val == previousend + 1 {
        previous' := Rle(previous.value, previous.length + 1);
        SetRun(nRuns - 1, previous');
        assert view == old(view)[..|old(view)| - 1] + [previous'];
      }
    }

    method AppendValueFirst(val: U16) returns (previous: Rle)
      requires Rep() && view == [] && runs.Length > 0
      modifies this`nRuns, this`view, runs
      ensures Valid() && view == Appended([], val) && previous == Rle(val, 0)
    {
      previous := Rle(val, 0);
      PushRun(previous);
    }

    /** Fills an empty container with a strictly increasing sequence, value by value. */
    method AppendSorted(vals: seq<U16>)
      requires Rep() && view == [] && |FromSorted(vals)| <= runs.Length
      requires forall i, j :: 0 <= i < j < |vals| ==> vals[i] < vals[j]
      modifies this`nRuns, this`view, runs
      ensures view == FromSorted(vals) && Is(set v | v in vals)
      ensures |view| + SumLengths(view) == |vals|
    {
      hide Canonical, FromSorted, Appended, Denotes;
      FoldStep(vals, 0);
      if |vals| > 0 {
        FirstRun(vals[0]);
        FoldGrows(vals, 1);
        var previous := AppendValueFirst(vals[0]);
        for i := 1 to |vals|
          invariant Valid() && view == FromSorted(vals[..i]) && view != [] && view[|view| - 1] == previous
        {
          FoldStep(vals, i);
          FoldGrows(vals, i + 1);
          MoreRuns(view, vals[i]);
          previous := AppendValue(vals[i], previous);
        }
      }
      assert vals[..|vals|] == vals;
      FromSortedExact(vals);
    }

    // -- set operations with one value or a range

    /** Removes one value and reports whether it was there. */
    method Remove(pos: U16) returns (present: bool)
      requires Valid()
      modifies this, runs
      ensures runs == old(runs) || fresh(runs)
      ensures present <==> pos in old(Contents())
      ensures Is(old(Contents()) - {pos})
    {
      hide Denotes, Canonical, Values, Started, Rep, Opened;
      ghost var s := view;
      RunCount(s);
      Buffer();
      var index := InterleavedBinarySearch(runs, nRuns, pos);
      if index >= 0 {
        HitStarts(s, index, pos);
        var le := At(index).length;
        if le == 0 {
          DropRun(s, index, pos);
          RecoverRoomAtIndex(index);
        } else {
          TrimHead(s, index, pos);
          SetRun(index, Rle(At(index).value + 1, At(index).length - 1));
        }
        return true;
      }
      MissSplits(s, index, pos);
      index := -index - 2;
      if index >= 0 {
        var offset := pos - At(index).value;
        var le := At(index).length;
        if offset < le {
          // need to break in two
          SetRun(index, Rle(At(index).value, offset - 1));
          ghost var t := view;
          MakeRoomAtIndex(index + 1);
          SplitOne(s, t, view, index, pos);
          SetRun(index + 1, Rle(pos + 1, le - offset - 1));
          return true;
        } else if offset == le {
          TrimTail(s, index, pos);
          SetRun(index, Rle(At(index).value, At(index).length - 1));
          return true;
        }
      }
      return false;
    }

    /** Adds [min, max], given how many runs lie clear below and clear above it. */
    method AddRangeNruns(min: U32, max: U32, nLess: nat, nGreater: nat)
      requires Valid() && min <= max <= 0xFFFF
      requires nLess + nGreater <= |view| && Merging(view, nLess, |view| - nGreater, min, max)
      modifies this, runs
      ensures runs == old(runs) || fresh(runs)
      ensures |view| == nLess + 1 + nGreater
      ensures Is(old(Contents()) + Range(min, max))
    {
      hide Denotes, Canonical, Values, Rep, Merging;
      ghost var s := view;
      RunCount(s);
      Buffer();
      Join(s, nLess, |s| - nGreater, min, max);
      var nCommon := nRuns - nLess - nGreater;
      if nCommon == 0 {
        MakeRoomAtIndex(nLess);
        OpenedSet(s, view, nLess, Rle(min, max - min));
        SetRun(nLess, Rle(min, max - min));
      } else {
        MergeCommon(min, max, nLess, nCommon);
      }
    }

    /** The runs that overlap or touch [min, max] and the range itself become one run. */
    method MergeCommon(min: U16, max: U16, nLess: nat, nCommon: nat)
      requires Valid() && min <= max && nCommon > 0 && nLess + nCommon <= |view|
      modifies this, runs
      ensures Rep() && runs == old(runs)
      ensures var s, b := old(view), nLess + nCommon;
        && Last(s[nLess]) <= 0xFFFF && Last(s[b - 1]) <= 0xFFFF
        && view == Splice(s, nLess, b, [Union(s, nLess, b, min, max)])
    {
      hide Canonical, Rep, Splice;
      ghost var s := view;
      Buffer();
      RunBounds(s, nLess, nLess + nCommon - 1);
      var commonMin := At(nLess).value;
      var commonMax := At(nLess + nCommon - 1).value + At(nLess + nCommon - 1).length;
      var resultMin := if commonMin < min then commonMin else min;
      var resultMax := if commonMax > max then commonMax else max;
      SetRun(nLess, Rle(resultMin, resultMax - resultMin));
      CollapseView(s, view, nLess, nLess + nCommon, Rle(resultMin, resultMax - resultMin));
      CloseUp(nLess + 1, nLess + nCommon);
    }

    /** How many runs lie clear below [min, max] and how many clear above it. */
    method CountAround(min: U32, max: U32) returns (nLess: nat, nGreater: nat)
      requires Valid() && min <= max <= 0xFFFF
      ensures nLess + nGreater <= |view| && Merging(view, nLess, |view| - nGreater, min, max)
    {
      hide Canonical, Rep, EndsAround, StartsAround, Merging;
      Buffer();
      nGreater := CountGreater(runs, nRuns, max);
      PrefixSlice(runs, nRuns, nRuns - nGreater);
      CanonicalPrefix(view, nRuns - nGreater);
      nLess := CountLess(runs, nRuns - nGreater, min);
      assert runs[..nRuns - nGreater] == view[..nRuns - nGreater];
      MergingSplit(view, nLess, nRuns - nGreater, min, max);
    }

    method AddRange(min: U32, max: U32)
      requires Valid() && min <= max <= 0xFFFF
      modifies this, runs
      ensures runs == old(runs) || fresh(runs)
      ensures Is(old(Contents()) + Range(min, max))
    {
      hide Canonical, Values, Rep, Denotes, Merging;
      var nLess, nGreater := CountAround(min, max);
      AddRangeNruns(min, max, nLess, nGreater);
    }

    /** Splits the run at `first` into what it keeps on either side of [min, max]. */
    method SplitAround(first: nat, min: U32, max: U32)
      requires Valid() && first < |view| && view[first].value < min <= max < Last(view[first])
      requires Last(view[first]) <= 0xFFFF
      modifies this, runs
      ensures runs == old(runs) || fresh(runs)
      ensures Is(old(Contents()) - Range(min, max))
    {
      hide Denotes, Canonical, Values, Opened, Rep;
      ghost var s := view;
      RunCount(s);
      MakeRoomAtIndex(first + 1);
      SplitRemoved(s, view, first, min, max);
      SetRun(first + 1, Rle(max + 1, (At(first).value + At(first).length) - (max + 1)));
      SetRun(first, Rle(At(first).value, (min - 1) - At(first).value));
    }

    /** Updates the left-most partial run; the result is the first run to drop. */
    method TrimFirst(r: int, min: U16) returns (first: nat)
      requires Rep() && r < |view|
      modifies this`view, runs
      ensures Rep()
      ensures if r >= 0 && old(view)[r].value < min
              then view == old(view)[r := Rle(old(view)[r].value, min - 1 - old(view)[r].value)] && first == r + 1
              else view == old(view) && first == if r >= 0 then r else -r - 1
    {
      if r >= 0 {
        if min > At(r).value {
          SetRun(r, Rle(At(r).value, (min - 1) - At(r).value));
          return r + 1;
        }
        return r;
      }
      return -r - 1;
    }

    /** Updates the right-most partial run; the result is the last run to drop. */
    method TrimLast(r: int, max: U16) returns (last: int)
      requires Rep() && r < |view|
      requires r >= 0 ==> view[r].value <= max + 1 && Last(view[r]) <= 0xFFFF
      modifies this`view, runs
      ensures Rep()
      ensures if r >= 0 && Last(old(view)[r]) > max
              then view == old(view)[r := Rle(max + 1, Last(old(view)[r]) - (max + 1))] && last == r - 1
              else view == old(view) && last == if r >= 0 then r else (-r - 1) - 1
    {
      if r >= 0 {
        var runMax: U16 := At(r).value + At(r).length;
        if runMax > max {
          SetRun(r, Rle(max + 1, runMax - (max + 1)));
          return r - 1;
        }
        return r;
      }
      return (-r - 1) - 1;
    }

    /** Trims the outer two of the runs that meet [min, max] and drops those between. */
    method TrimAround(first: int, last: int, min: U32, max: U32)
      requires Valid() && min <= max <= 0xFFFF && Found(view, first, min) && Found(view, last, max)
      requires !(first >= 0 && min > view[first].value && max < Last(view[first]))
      modifies this, runs
      ensures runs == old(runs)
      ensures Is(old(Contents()) - Range(min, max))
    {
      hide Denotes, Canonical, Values, Found, Touched, Rep;
      ghost var s := view;
      // a..b: the runs that meet the range
      ghost var a := if first >= 0 then first else -first - 1;
      ghost var b := if last >= 0 then last + 1 else -last - 1;
      Ends(s, first, last, a, b, min, max);

      var firstDropped := TrimFirst(first, min);
      ghost var t := view;
      assert LeftTrimmed(s, a, b, min, t, firstDropped);
      if last >= 0 {
        TrimmedStays(s, t, a, b, min, max, firstDropped);
      }
      var lastDropped := TrimLast(last, max);
      ghost var u := view;
      assert RightTrimmed(s, a, b, max, t, u, lastDropped);
      TrimRemoved(s, a, b, min, max, t, u, firstDropped, lastDropped);

      DropBetween(firstDropped, lastDropped);
    }

    /** Removes the intermediate runs. */
    method DropBetween(first: nat, last: int)
      requires Rep() && first <= last + 1 <= |view|
      modifies this, runs
      ensures Rep() && runs == old(runs)
      ensures view == if first <= last then old(view)[..first] + old(view)[last + 1..] else old(view)
    {
      if first <= last {
        Buffer();
        ghost var s := view;
        ShiftTail(nRuns - (last + 1), -(last - first + 1));
        TakeDrop(view, first);
        assert view[first..] == s[last + 1..];
      }
    }

    /** Removes [min, max]: splits one run, or trims the two outer runs and drops those between. */
    method RemoveRange(min: U32, max: U32)
      requires Valid() && min <= max <= 0xFFFF
      modifies this, runs
      ensures runs == old(runs) || fresh(runs)
      ensures Is(old(Contents()) - Range(min, max))
    {
      hide Denotes, Canonical, Values, Touched, Rep;
      Buffer();
      var first := FindRun(runs, nRuns, min);
      var last := FindRun(runs, nRuns, max);
      if first >= 0 && min > At(first).value && max < At(first).value + At(first).length {
        RunBounds(view, first, first);
        SplitAround(first, min, max);
      } else {
        TrimAround(first, last, min, max);
      }
    }
  }
}
