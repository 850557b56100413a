/** Array containers: a set of 16-bit values kept as a strictly increasing buffer. */
module ArrayContainers {
  import opened Memory
  import opened SortedArray

  // ---- searches -------------------------------------------------------------------------------

  method BinarySearch(a: array<U16>, len: nat, key: U16) returns (r: int)
    requires len <= a.Length && Increasing(a[..len])
    ensures Located(a[..len], r, key)
  {
    ghost var s := a[..len];
    var low, high := 0, len - 1;
    while low <= high
      invariant 0 <= low <= high + 1 <= len
      invariant forall i :: 0 <= i < low ==> s[i] < key
      invariant forall i :: high < i < len ==> s[i] > key
    {
      var mid := (low + high) / 2;
      assert a[mid] == s[mid];
      if a[mid] < key {
        low := mid + 1;
      } else if a[mid] > key {
        high := mid - 1;
      } else {
        return mid;
      }
    }
    return -(low + 1);
  }

  /** In an increasing sequence all values up to one below min are below min, and all values from
      one not below min on are not. */
  lemma Side(s: seq<U16>, i: nat, min: int)
    requires Increasing(s) && i < |s|
    ensures s[i] < min ==> forall j :: 0 <= j <= i ==> s[j] < min
    ensures s[i] >= min ==> forall j :: i <= j < |s| ==> s[j] >= min
  {
  }

  /** The value before a match is smaller. */
  lemma JustBelow(s: seq<U16>, i: nat, min: int)
    requires Increasing(s) && 0 < i < |s| && s[i] <= min
    ensures s[i - 1] < min
  {
  }

  /** Galloping search: the least index after `pos` whose value is at least `min`, or `length`; a
      `pos` at or beyond the end is just advanced. */
  method AdvanceUntil(a: array<U16>, pos: int, length: nat, min: U16) returns (r: nat)
    requires length <= a.Length && Increasing(a[..length]) && -1 <= pos
    ensures pos < r && (pos + 1 >= length ==> r == pos + 1) && (pos + 1 < length ==> r <= length)
    ensures forall i :: pos < i < r && i < length ==> a[..length][i] < min
    ensures r < length ==> a[..length][r] >= min
  {
    ghost var s := a[..length];
    hide Increasing;
    var lower := pos + 1;
    if lower >= length || a[lower] >= min {
      return lower;
    }
    var spansize := Gallop(a, lower, length, min);
    var upper := if lower + spansize < length then lower + spansize else length - 1;
    assert a[upper] == s[upper];
    if a[upper] == min {
      if upper > 0 {
        JustBelow(s, upper, min);
        Side(s, upper - 1, min);
      }
      return upper;
    }
    if a[upper] < min {
      Side(s, upper, min);
      return length;
    }
    // array[lower + spansize / 2] < min < array[upper]
    lower := lower + spansize / 2;
    r := Bisect(a, lower, upper, length, min);
  }

  /** Doubles the span until its end reaches min or the end of the array. */
  method Gallop(a: array<U16>, lower: nat, length: nat, min: U16) returns (spansize: nat)
    requires lower < length <= a.Length && a[lower] < min
    ensures spansize >= 1 && lower + spansize / 2 < length && a[lower + spansize / 2] < min
    ensures lower + spansize < length ==> a[lower + spansize] >= min
  {
    spansize := 1;
    while lower + spansize < length && a[lower + spansize] < min
      invariant spansize == 1 || spansize % 2 == 0
      invariant spansize >= 1 && lower + spansize / 2 < length && a[lower + spansize / 2] < min
      decreases length - spansize
    {
      spansize := spansize * 2;
    }
  }

  /** Bisects between a value below min and one above it. */
  method Bisect(a: array<U16>, from: nat, to: nat, length: nat, min: U16) returns (r: nat)
    requires from < to < length <= a.Length && a[from] < min < a[to] && Increasing(a[..length])
    ensures from < r <= to && a[..length][r] >= min && forall i :: 0 <= i < r ==> a[..length][i] < min
  {
    ghost var s := a[..length];
    hide Increasing;
    var lower, upper := from, to;
    var mid := 0;
    while lower + 1 != upper
      invariant from <= lower < upper <= to && s[lower] < min < s[upper]
      decreases upper - lower
    {
      mid := (lower + upper) / 2;
      assert a[mid] == s[mid];
      if a[mid] == min {
        JustBelow(s, mid, min);
        Side(s, mid - 1, min);
        return mid;
      } else if a[mid] < min {
        lower := mid;
      } else {
        upper := mid;
      }
    }
    Side(s, lower, min);
    return upper;
  }

  /** Number of values below `key`: their split point. */
  method CountLess(a: array<U16>, len: nat, key: U16) returns (n: nat)
    requires len <= a.Length && Increasing(a[..len])
    ensures SplitsAt(a[..len], n, key)
  {
    if len == 0 {
      return 0;
    }
    var pos := BinarySearch(a, len, key);
    LocatedSplits(a[..len], pos, key);
    return if pos >= 0 then pos else -(pos + 1);
  }

  /** Number of values above `key`: what is left after their split point. */
  method CountGreater(a: array<U16>, len: nat, key: U16) returns (n: nat)
    requires len <= a.Length && Increasing(a[..len])
    ensures n <= len && SplitsAt(a[..len], len - n, key + 1)
  {
    if len == 0 {
      return 0;
    }
    var pos := BinarySearch(a, len, key);
    LocatedSplits(a[..len], pos, key);
    if pos >= 0 {
      return len - (pos + 1);
    } else {
      return len - (-pos - 1);
    }
  }

  /** Counting the smaller values in the part without the greater ones is counting them all. */
  lemma SplitInPrefix(s: seq<U16>, n: nat, m: nat, min: int, max: int)
    requires m <= |s| && min <= max && SplitsAt(s[..m], n, min) && SplitsAt(s, m, max + 1)
    ensures SplitsAt(s, n, min)
  {
    assert forall i :: 0 <= i < m ==> s[..m][i] == s[i];
  }

  lemma PrefixIncreasing(a: array<U16>, n: nat, m: nat)
    requires m <= n <= a.Length && Increasing(a[..n])
    ensures a[..m] == a[..n][..m] && Increasing(a[..m])
  {
    assert forall i :: 0 <= i < m ==> a[..m][i] == a[..n][i];
  }

  /** The first entry at or above a key shows whether the key is present. */
  lemma FirstAtLeast(s: seq<U16>, r: nat, min: U16)
    requires Increasing(s) && SplitsAt(s, r, min)
    ensures min in Elements(s) <==> r < |s| && s[r] == min
  {
  }

  lemma Ordered(s: seq<U16>, i: nat, j: nat)
    requires Increasing(s) && i < |s| && j < |s| && s[i] <= s[j]
    ensures i <= j
  {
  }

  /** A hole made at `index` and filled with `value`. */
  lemma Opened(t: seq<U16>, s: seq<U16>, index: nat, value: U16)
    requires index <= |s| && |t| == |s| + 1
    requires t[..index] == s[..index] && t[index] == value && t[index + 1..] == s[index..]
    ensures t == s[..index] + [value] + s[index..]
  {
  }

  /** At most 65536 values fit. */
  lemma SmallArray(s: seq<U16>)
    requires Increasing(s)
    ensures |s| <= 0x1_0000
  {
    if s != [] { Rises(s, 0, |s| - 1); }
  }

  /** The values of [min, max] among s, with room for all of them. */
  lemma FitsAround(s: seq<U16>, p: nat, q: nat, min: int, max: int)
    requires Increasing(s) && p <= q && min <= max && SplitsAt(s, p, min) && SplitsAt(s, q, max + 1)
    ensures q - p <= max - min + 1
  {
    if p < q { Rises(s, p, q - 1); }
  }

  ghost function Ramp(min: U16, max: U16): (m: seq<U16>)
    requires min <= max
    ensures Consecutive(m, min, max)
  {
    seq(max - min + 1, i requires 0 <= i <= max - min => min + i)
  }

  lemma RampCount(min: U16, max: U16)
    requires min <= max
    ensures |Ramp(min, max)| == max - min + 1
  {
  }

  /** Writes min, min + 1, .., max from index `at` on. */
  method WriteRun(a: array<U16>, at: nat, min: U16, max: U16)
    requires min <= max && at + (max - min + 1) <= a.Length
    modifies a
    ensures a[..] == Overwritten(old(a[..]), Ramp(min, max), at)
  {
    var i := 0;
    while i <= max - min
      invariant 0 <= i <= max - min + 1
      invariant forall j :: 0 <= j < a.Length && !(at <= j < at + i) ==> a[j] == old(a[j])
      invariant forall j :: at <= j < at + i ==> a[j] == min + (j - at)
    {
      a[at + i] := min + i;
      i := i + 1;
    }
  }

  lemma FrontOf(a: array<U16>, n: nat)
    requires n <= a.Length
    ensures a[..n] == a[..][..n]
  {
  }

  /** The buffer d0 holds s in front; its last nGreater values are moved to end at n, and m is
      written behind the first nLess: the first n entries are then those three parts. */
  lemma Assembled(s: seq<U16>, d0: seq<U16>, m: seq<U16>, nLess: nat, nGreater: nat, n: nat)
    requires nLess + nGreater <= |s| <= n == nLess + |m| + nGreater <= |d0| && d0[..|s|] == s
    ensures var d := Moved(d0, n - nGreater, |s| - nGreater, nGreater);
      Overwritten(d, m, nLess)[..n] == s[..nLess] + m + s[|s| - nGreater..]
  {
    var d := Moved(d0, n - nGreater, |s| - nGreater, nGreater);
    assert d0[..|s|][..nLess] == d0[..nLess];
    assert d[..nLess] == s[..nLess];
    assert d[n - nGreater..n] == d0[|s| - nGreater..|s|] == s[|s| - nGreater..];
    Clipped(d, m, nLess, n - nGreater, n);
  }

  ghost function Overwritten(d: seq<U16>, m: seq<U16>, at: nat): (t: seq<U16>)
    requires at + |m| <= |d|
    ensures |t| == |d|
  {
    d[..at] + m + d[at + |m|..]
  }

  lemma Clipped(d: seq<U16>, m: seq<U16>, p: nat, q: nat, n: nat)
    requires p + |m| == q <= n <= |d|
    ensures (d[..p] + m + d[q..])[..n] == d[..p] + m + d[q..n]
  {
  }

  // ---- the container ------------------------------------------------------------------------------

  /** The test on the two ends decides whether the values between them are all present. */
  lemma RangeByEnds(s: seq<U16>, first: nat, last: nat, rs: U16, re: U16)
    requires Increasing(s) && first <= last <= |s|
    requires (forall i :: 0 <= i < first ==> s[i] < rs) && (first < |s| ==> s[first] >= rs)
    requires (forall i :: first <= i < last ==> s[i] < re) && (last < |s| ==> s[last] >= re)
    ensures first < |s| && last < |s| && (last - first) % 0x1_0000 == re - rs && s[first] == rs && s[last] == re
      <==> rs <= re && Range(rs, re) <= Elements(s)
  {
    if first < |s| { Side(s, first, rs); }
    if rs <= re {
      assert rs in Range(rs, re) && re in Range(rs, re);
      LastAtLeast(s, first, last, rs, re);
      FirstAtLeast(s, first, rs);
      FirstAtLeast(s, last, re);
      if first < |s| && last < |s| && s[first] == rs && s[last] == re {
        Ordered(s, first, last);
        Rises(s, first, last);
        Dense(s, first, last);
      }
    }
  }

  lemma LastAtLeast(s: seq<U16>, first: nat, last: nat, rs: U16, re: U16)
    requires Increasing(s) && first <= last <= |s| && rs <= re
    requires SplitsAt(s, first, rs) && (forall i :: first <= i < last ==> s[i] < re) && (last < |s| ==> s[last] >= re)
    ensures SplitsAt(s, last, re)
  {
  }

  lemma WholeRange(s: seq<U16>)
    ensures Range(0, 0xFFFF) <= Elements(s) <==> Elements(s) == Range(0, 0xFFFF)
  {
  }

  class ArrayContainer {
    var cardinality: nat
    var data: array<U16>        // its length is the container's capacity
    ghost var view: seq<U16>    // the values in use

    ghost predicate Rep()
      reads this, data
    {
      cardinality <= data.Length && view == data[..cardinality]
    }

    ghost predicate Valid()
      reads this, data
    {
      Rep() && Increasing(view)
    }

    ghost function Contents(): set<int>
      reads this
    {
      Elements(view)
    }

    /** The container is well formed and its set is exactly v. */
    ghost predicate Is(v: set<int>)
      reads this, data
    {
      Rep() && Lists(view, v)
    }

    constructor (capacity: nat)
      ensures Valid() && view == [] && data.Length == capacity && fresh(data)
    {
      cardinality := 0;
      data := new U16[capacity];
      view := [];
    }

    lemma Buffer()
      requires Rep()
      ensures cardinality == |view| && cardinality <= data.Length && data[..cardinality] == view
    {
    }

    method Grow(min: nat)
      requires Rep() && cardinality <= min
      modifies this`data
      ensures Rep() && fresh(data) && data.Length >= min
    {
      data := Regrow(data, cardinality, min);
    }

    /** Appends a value; the caller knows it to be larger than all others. */
    method Append(pos: U16)
      requires Valid() && forall i :: 0 <= i < |view| ==> view[i] < pos
      modifies this, data
      ensures data == old(data) || fresh(data)
      ensures view == old(view) + [pos] && Is(old(Contents()) + {pos})
    {
      Inserted(view, |view|, pos);
      assert view[..|view|] + [pos] + view[|view|..] == view + [pos];
      if cardinality == data.Length {
        Grow(data.Length + 1);
      }
      data[cardinality] := pos;
      cardinality := cardinality + 1;
      view := view + [pos];
    }

    /** Shifts the values from `index` on and writes `value` there, growing a full buffer. */
    method InsertAt(index: nat, value: U16)
      requires Rep() && index <= |view|
      modifies this, data
      ensures Rep() && (data == old(data) || fresh(data))
      ensures view == old(view)[..index] + [value] + old(view)[index..]
    {
      if cardinality == data.Length {
        Grow(data.Length + 1);
      }
      Move(data, index + 1, index, cardinality - index);
      data[index] := value;
      cardinality := cardinality + 1;
      Opened(data[..cardinality], view, index, value);
      view := view[..index] + [value] + view[index..];
    }

    /** Adds a value unless the cardinality would exceed `max`: 1 added, 0 present, -1 refused. */
    method TryAdd(value: U16, max: nat) returns (code: int)
      requires Valid()
      modifies this, data
      ensures data == old(data) || fresh(data)
      ensures code == if value in old(Contents()) then 0 else if |old(view)| < max then 1 else -1
      ensures Is(if code == 1 then old(Contents()) + {value} else old(Contents()))
    {
      if (cardinality == 0 || data[cardinality - 1] < value) && cardinality < max {
        Append(value);
        return 1;
      }
      hide Increasing, Located, SplitsAt;
      var loc := BinarySearch(data, cardinality, value);
      LocatedSplits(view, loc, value);
      if loc >= 0 {
        return 0;
      } else if cardinality < max {
        var index := -loc - 1;
        Inserted(view, index, value);
        InsertAt(index, value);
        return 1;
      } else {
        return -1;
      }
    }

    /** Adds a value; true when it was not present (the limit is 2^31 - 1, out of reach). */
    method Add(value: U16) returns (added: bool)
      requires Valid()
      modifies this, data
      ensures data == old(data) || fresh(data)
      ensures added == (value !in old(Contents()))
      ensures Is(old(Contents()) + {value})
    {
      SmallArray(view);
      var code := TryAdd(value, 0x7FFF_FFFF);
      assert value in old(Contents()) ==> old(Contents()) + {value} == old(Contents());
      return code == 1;
    }

    /** Removes a value; true when it was present. */
    method Remove(pos: U16) returns (present: bool)
      requires Valid()
      modifies this`cardinality, this`view, data
      ensures present == (pos in old(Contents()))
      ensures Is(old(Contents()) - {pos})
    {
      var idx := BinarySearch(data, cardinality, pos);
      LocatedSplits(view, idx, pos);
      present := idx >= 0;
      if present {
        Deleted(view, idx);
        DropEntries(idx, 1);
      } else {
        assert old(Contents()) - {pos} == old(Contents());
      }
    }

    /** Removes the entries pos .. pos + count - 1. */
    method DropEntries(pos: nat, count: nat)
      requires Rep() && pos + count <= |view|
      modifies this`cardinality, this`view, data
      ensures Rep() && view == old(view)[..pos] + old(view)[pos + count..]
    {
      hide Moved;
      MovedDown(data[..], cardinality, pos, pos + count);
      if count != 0 {
        Move(data, pos, pos + count, cardinality - pos - count);
        cardinality := cardinality - count;
        ghost var t := data[..];
        assert data[..cardinality] == t[..cardinality];
      } else {
        TakeDrop(view, pos);
      }
      view := view[..pos] + view[pos + count..];
    }

    /** Membership: bisection down to sixteen entries, then a linear scan. */
    method Contains(pos: U16) returns (b: bool)
      requires Valid()
      ensures b <==> pos in Contents()
    {
      ghost var s := view;
      assert forall i :: 0 <= i < cardinality ==> data[i] == s[i];
      var low, high := 0, cardinality - 1;
      while high >= low + 16
        invariant 0 <= low <= high + 1 <= cardinality
        invariant forall i :: 0 <= i < low ==> s[i] < pos
        invariant forall i :: high < i < cardinality ==> s[i] > pos
      {
        var mid := (low + high) / 2;
        if data[mid] < pos {
          low := mid + 1;
        } else if data[mid] > pos {
          high := mid - 1;
        } else {
          return true;
        }
      }
      var i := low;
      while i <= high
        invariant low <= i <= high + 1
        invariant forall j :: 0 <= j < i ==> s[j] < pos
      {
        if data[i] == pos {
          return true;
        }
        if data[i] > pos {
          return false;
        }
        i := i + 1;
      }
      return false;
    }

    /** Whether every value of [start, end) is present: the index distance of the two ends must be
        their value distance. For an empty range the 16-bit ends are out of order and the answer is
        no, except that [0, 0) and [65536, 65536) become the full range. */
    method ContainsRange(start: U32, end: U32) returns (b: bool)
      requires Valid() && start <= end <= 0x1_0000
      ensures start < end ==> (b <==> Range(start, end - 1) <= Contents())
      ensures start == end ==> (b <==> start % 0x1_0000 == 0 && Contents() == Range(0, 0xFFFF))
    {
      hide Increasing, Range;
      var rs: U16, re: U16 := start % 0x1_0000, (end - 1) % 0x1_0000;
      var first := AdvanceUntil(data, -1, cardinality, rs);
      var last := AdvanceUntil(data, first - 1, cardinality, re);
      b := first < cardinality && last < cardinality
        && (last - first) % 0x1_0000 == re - rs
        && data[first] == rs && data[last] == re;
      RangeByEnds(view, first, last, rs, re);
      if start == end { WholeRange(view); }
    }

    /** Number of values at most x. */
    method Rank(x: U16) returns (n: nat)
      requires Valid()
      ensures n == |set y | y in Contents() && y <= x|
    {
      var idx := BinarySearch(data, cardinality, x);
      LocatedSplits(view, idx, x);
      n := if idx >= 0 then idx + 1 else -idx - 1;
      BelowCount(view, n, x + 1);
      assert (set y | y in Contents() && y < x + 1) == (set y | y in Contents() && y <= x);
    }

    /** Moves the last `nGreater` values up, writes min..max behind the first `nLess`. */
    method Spread(nLess: nat, nGreater: nat, min: U16, max: U16)
      requires Rep() && min <= max && nLess + nGreater <= |view| <= nLess + (max - min + 1) + nGreater
      modifies this, data
      ensures Rep() && (data == old(data) || fresh(data))
      ensures view == old(view)[..nLess] + Ramp(min, max) + old(view)[|old(view)| - nGreater..]
    {
      hide Ramp, Consecutive, Moved, Overwritten;
      ghost var s := view;
      RampCount(min, max);
      var unionCardinality := nLess + (max - min + 1) + nGreater;
      if unionCardinality > data.Length {
        Grow(unionCardinality);
      }
      Buffer();
      FrontOf(data, cardinality);
      Assembled(s, data[..], Ramp(min, max), nLess, nGreater, unionCardinality);
      Move(data, unionCardinality - nGreater, cardinality - nGreater, nGreater);
      WriteRun(data, nLess, min, max);
      cardinality := unionCardinality;
      FrontOf(data, cardinality);
      view := data[..cardinality];
    }

    /** Adds [min, max], given how many values lie below and above it. */
    method AddRangeNvals(min: U32, max: U32, nLess: nat, nGreater: nat)
      requires Valid() && min <= max <= 0xFFFF && nLess + nGreater <= |view|
      requires SplitsAt(view, nLess, min) && SplitsAt(view, |view| - nGreater, max + 1)
      modifies this, data
      ensures data == old(data) || fresh(data)
      ensures |view| == nLess + (max - min + 1) + nGreater
      ensures Is(old(Contents()) + Range(min, max))
    {
      hide Increasing, SplitsAt, Ramp;
      ghost var s := view;
      FitsAround(s, nLess, |s| - nGreater, min, max);
      Filled(s, nLess, |s| - nGreater, min, max, Ramp(min, max));
      Spread(nLess, nGreater, min, max);
    }

    /** How many values lie below min and how many above max. */
    method CountAround(min: U32, max: U32) returns (nLess: nat, nGreater: nat)
      requires Valid() && min <= max <= 0xFFFF
      ensures nLess + nGreater <= |view|
      ensures SplitsAt(view, nLess, min) && SplitsAt(view, |view| - nGreater, max + 1)
    {
      hide Increasing;
      Buffer();
      nGreater := CountGreater(data, cardinality, max);
      PrefixIncreasing(data, cardinality, cardinality - nGreater);
      nLess := CountLess(data, cardinality - nGreater, min);
      assert data[..cardinality - nGreater] == view[..cardinality - nGreater];
      SplitInPrefix(view, nLess, cardinality - nGreater, min, max);
    }

    method AddRange(min: U32, max: U32)
      requires Valid() && min <= max <= 0xFFFF
      modifies this, data
      ensures data == old(data) || fresh(data)
      ensures Is(old(Contents()) + Range(min, max))
    {
      var nLess, nGreater := CountAround(min, max);
      AddRangeNvals(min, max, nLess, nGreater);
    }
  }
}
