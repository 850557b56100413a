/** The C library's memory primitives, the integer widths the containers use, and facts about
    sequences and sets that several containers share. */
module Memory {
  type U16 = x: int | 0 <= x < 0x1_0000
  type U32 = x: int | 0 <= x < 0x1_0000_0000
  type U64 = x: int | 0 <= x < 0x1_0000_0000_0000_0000

  datatype Option<T> = None | Some(value: T)

  /** The n elements at src copied over the n at dst. */
  ghost function Moved<T>(s: seq<T>, dst: nat, src: nat, n: nat): (t: seq<T>)
    requires src + n <= |s| && dst + n <= |s|
    ensures |t| == |s|
  {
    s[..dst] + s[src..src + n] + s[dst + n..]
  }

  /** `memmove`: the n elements at src are copied to dst; the two ranges may overlap. */
  method Move<T>(a: array<T>, dst: nat, src: nat, n: nat)
    requires src + n <= a.Length && dst + n <= a.Length
    modifies a
    ensures a[..] == Moved(old(a[..]), dst, src, n)
  {
    forall i | 0 <= i < n {
      a[dst + i] := a[src + i];
    }
  }

  /** What moving the tail of the first n elements down over a gap leaves of them. */
  lemma MovedDown<T>(s: seq<T>, n: nat, dst: nat, src: nat)
    requires dst <= src <= n <= |s|
    ensures Moved(s, dst, src, n - src)[..n - (src - dst)] == s[..n][..dst] + s[..n][src..]
  {
  }

  /** `realloc` to a capacity of n with the first `used` elements kept. */
  method Regrow<T(0)>(a: array<T>, used: nat, n: nat) returns (b: array<T>)
    requires used <= a.Length && used <= n
    ensures fresh(b) && b.Length == n && b[..used] == a[..used]
  {
    b := new T[n];
    forall i | 0 <= i < used {
      b[i] := a[i];
    }
  }

  /** Slices of a sequence with one element overwritten. */
  lemma SetSlices<T>(s: seq<T>, i: nat, r: T)
    requires i < |s|
    ensures s[i := r][..i] == s[..i] && s[i := r][..i + 1] == s[..i] + [r]
    ensures s[i := r][i..] == [r] + s[i + 1..] && s[i := r][i + 1..] == s[i + 1..]
  {
  }

  lemma Regroup<T>(a: seq<T>, b: seq<T>, c: seq<T>, d: seq<T>)
    ensures (a + b) + (c + d) == a + (b + c) + d
  {
  }

  lemma TakeDrop<T>(s: seq<T>, i: nat)
    requires i <= |s|
    ensures s[..i] + s[i..] == s && s[..i] + [] + s[i..] == s
  {
  }

  lemma SetPrefix<T>(s: seq<T>, i: nat, r: T, k: nat)
    requires k <= i < |s|
    ensures s[i := r][..k] == s[..k]
  {
  }

  lemma SetSuffix<T>(s: seq<T>, i: nat, r: T, k: nat)
    requires i < k <= |s|
    ensures s[i := r][k..] == s[k..]
  {
  }

  ghost predicate Within(lo: int, x: int, hi: int) {
    lo <= x <= hi
  }

  /** The closed interval [lo, hi] as a set. */
  ghost function Range(lo: int, hi: int): (r: set<int>)
    ensures forall x :: x in r <==> lo <= x <= hi
  {
    set x: int | lo <= x <= hi && Within(lo, x, hi)
  }

  lemma PointRange(v: int)
    ensures Range(v, v) == {v}
  {
  }

  lemma {:induction false} RangeSize(lo: int, hi: int)
    requires lo <= hi + 1
    ensures |Range(lo, hi)| == hi + 1 - lo
    decreases hi + 1 - lo
  {
    if lo <= hi {
      RangeSize(lo, hi - 1);
      assert Range(lo, hi) == Range(lo, hi - 1) + {hi};
    } else {
      assert Range(lo, hi) == {};
    }
  }

  lemma UnionSize<T>(v: set<T>, r: set<T>)
    ensures |v + r| == |v| + |r| - |v * r|
    ensures |v - r| == |v| - |v * r|
  {
    assert v == (v - r) + v * r;
    assert v + r == (v - r) + r;
  }

  lemma SubsetSize<T>(v: set<T>, r: set<T>)
    requires v <= r
    ensures |v| <= |r| && (|v| == |r| ==> v == r)
  {
    assert r == v + (r - v);
  }
}
