/** Range operations on a bitmap of 64-bit words, specified bit by bit. */
module Bitset {
  import opened Memory
  import opened Words

  /** Whether position x is set. */
  ghost predicate Has(s: seq<bv64>, x: int) {
    0 <= x < 64 * |s| && Bit(s[x / 64], x % 64)
  }

  /** t is s with the operation applied to exactly the positions in [lo, hi). */
  ghost predicate Ranged(op: Op, s: seq<bv64>, t: seq<bv64>, lo: int, hi: int) {
    |t| == |s| && forall x :: 0 <= x < 64 * |s| ==> (Has(t, x) <==> Want(op, Has(s, x), lo <= x < hi))
  }

  /** From words to positions. */
  lemma Lift(op: Op, s: seq<bv64>, t: seq<bv64>, lo: int, hi: int)
    requires |t| == |s|
    requires forall i :: 0 <= i < |s| ==> Done(op, s[i], t[i], i, lo, hi)
    ensures Ranged(op, s, t, lo, hi)
  {
    forall x | 0 <= x < 64 * |s|
      ensures Has(t, x) <==> Want(op, Has(s, x), lo <= x < hi)
    {
      var i, k := x / 64, x % 64;
      assert 0 <= i < |s| && x == 64 * i + k;
      assert Done(op, s[i], t[i], i, lo, hi);
    }
  }

  /** What the words of t must be for the operation on [lo, hi): two edge words combined with
      their masks, the words between them overwritten, the others untouched. */
  lemma ByWords(op: Op, s: seq<bv64>, t: seq<bv64>, lo: nat, hi: nat)
    requires lo < hi <= 64 * |s| && |t| == |s|
    requires var f, e := lo / 64, (hi - 1) / 64;
      && (forall i :: 0 <= i < |s| && (i < f || e < i) ==> t[i] == s[i])
      && Done(op, s[f], t[f], f, lo, hi) && Done(op, s[e], t[e], e, lo, hi)
      && (forall i :: f < i < e ==> t[i] == if op == Set then ONES else if op == Reset then 0 else Not(s[i]))
    ensures Ranged(op, s, t, lo, hi)
  {
    var f, e := lo / 64, (hi - 1) / 64;
    forall i | 0 <= i < |s|
      ensures Done(op, s[i], t[i], i, lo, hi)
    {
      hide Done, Not;
      if i < f || e < i {
        Outside(op, s[i], i, lo, hi);
      } else if f < i < e {
        Whole(op, s[i], i, lo, hi);
      }
    }
    Lift(op, s, t, lo, hi);
  }

  /** What each operation does to each position of a bitmap. */
  lemma RangedParts(s: seq<bv64>, t: seq<bv64>, lo: int, hi: int)
    ensures Ranged(Set, s, t, lo, hi) <==>
      |t| == |s| && forall x :: 0 <= x < 64 * |s| ==> (Has(t, x) <==> Has(s, x) || lo <= x < hi)
    ensures Ranged(Reset, s, t, lo, hi) <==>
      |t| == |s| && forall x :: 0 <= x < 64 * |s| ==> (Has(t, x) <==> Has(s, x) && !(lo <= x < hi))
    ensures Ranged(Flip, s, t, lo, hi) <==>
      |t| == |s| && forall x :: 0 <= x < 64 * |s| ==> (Has(t, x) <==> (Has(s, x) != (lo <= x < hi)))
  {
    hide Has;
  }

  lemma Nothing(op: Op, s: seq<bv64>, lo: int)
    ensures Ranged(op, s, s, lo, lo)
  {
  }

  /** The three edge masks of the range [lo, hi). */
  lemma EdgeMasks(lo: nat, hi: nat)
    requires lo < hi <= 0x1_0000_0000
    ensures var f, e := lo / 64, (hi - 1) / 64;
      var first, last := Left(ONES, lo % 64), Right(ONES, Neg32(hi) % 64);
      if f == e then Masks(And(first, last), f, lo, hi)
      else Masks(first, f, lo, hi) && Masks(last, e, lo, hi)
  {
    hide Masks, And, Left, Right, Neg32;
    var f, e := lo / 64, (hi - 1) / 64;
    if f == e {
      FirstMask(lo, 64 * f + 64);
      LastMask(64 * e, hi);
      MeetMask(Left(ONES, lo % 64), Right(ONES, Neg32(hi) % 64), f, lo, hi, 64 * e, 64 * f + 64);
    } else {
      FirstMask(lo, hi);
      LastMask(lo, hi);
    }
  }

  /** The loop over the words between the two edge words. */
  method Fill(bitmap: array<bv64>, from: nat, endword: nat, w: bv64)
    requires from <= endword < bitmap.Length
    modifies bitmap
    ensures forall j :: from <= j < endword ==> bitmap[j] == w
    ensures forall j :: 0 <= j < bitmap.Length && (j < from || endword <= j) ==> bitmap[j] == old(bitmap[j])
  {
    for i := from to endword
      invariant forall j :: from <= j < i ==> bitmap[j] == w
      invariant forall j :: 0 <= j < bitmap.Length && (j < from || i <= j) ==> bitmap[j] == old(bitmap[j])
    {
      bitmap[i] := w;
    }
  }

  /** Sets [start, end). */
  method SetRange(bitmap: array<bv64>, start: U32, end: U32)
    requires start <= end <= 64 * bitmap.Length
    modifies bitmap
    ensures Ranged(Set, old(bitmap[..]), bitmap[..], start, end)
  {
    hide Masks, Done, Ranged, Or, And, Left, Right, Neg32;
    ghost var s := bitmap[..];
    if start == end {
      Nothing(Set, s, start);
      return;
    }
    var firstword, endword := start / 64, (end - 1) / 64;
    EdgeMasks(start, end);
    if firstword == endword {
      var m := And(Left(ONES, start % 64), Right(ONES, Neg32(end) % 64));
      Apply(Set, s[firstword], m, firstword, start, end);
      bitmap[firstword] := Or(bitmap[firstword], m);
      ByWords(Set, s, bitmap[..], start, end);
      return;
    }
    Apply(Set, s[firstword], Left(ONES, start % 64), firstword, start, end);
    Apply(Set, s[endword], Right(ONES, Neg32(end) % 64), endword, start, end);
    bitmap[firstword] := Or(bitmap[firstword], Left(ONES, start % 64));
    Fill(bitmap, firstword + 1, endword, ONES);
    bitmap[endword] := Or(bitmap[endword], Right(ONES, Neg32(end) % 64));
    ByWords(Set, s, bitmap[..], start, end);
  }

  /** Shift count of the single-word mask of the length form: `(63 - lenminusone) % 64`. */
  function BlockShift(n: U32): (k: nat)
    ensures k < 64
  {
    ((63 - n) % 0x1_0000_0000) % 64
  }

  /** Shift count of its end mask: `((~start + 1) - lenminusone - 1) % 64`. */
  function TailShift(start: U32, n: U32): (k: nat)
    ensures k < 64
  {
    ((Neg32(start) - n - 1) % 0x1_0000_0000) % 64
  }

  /** The shift counts of the length form are those of the end form. */
  lemma LenShift(start: U32, n: U32)
    requires start + n <= 0xFFFF_FFFF
    ensures TailShift(start, n) == Neg32(start + n + 1) % 64
    ensures start / 64 == (start + n) / 64 ==> start % 64 + n < 64 && BlockShift(n) == 63 - n
  {
    hide BlockShift, Neg32;
    TailWrap(start, n);
    if start / 64 == (start + n) / 64 {
      SameQuotient(start, n);
      BlockSmall(n);
    }
  }

  lemma TailWrap(start: U32, n: U32)
    requires start + n <= 0xFFFF_FFFF
    ensures (Neg32(start) - n - 1) % 0x1_0000_0000 == Neg32(start + n + 1)
  {
    var m := 0x1_0000_0000;
    if start == 0 {
      Wraps(Neg32(0), 0);
      Wraps(0 - n - 1, m - n - 1);
    } else {
      Wraps(m - start, m - start);
      Wraps(m - start - n - 1, m - start - n - 1);
    }
  }

  lemma Wraps(x: int, y: nat)
    requires y < 0x1_0000_0000 && (x == y || x == y - 0x1_0000_0000)
    ensures x % 0x1_0000_0000 == y
  {
  }

  lemma SameQuotient(a: nat, n: nat)
    requires a / 64 == (a + n) / 64
    ensures a % 64 + n < 64
  {
  }

  lemma BlockSmall(n: nat)
    requires n < 64
    ensures BlockShift(n) == 63 - n
  {
    Wraps(63 - n, 63 - n);
  }

  /** Sets the values [start, start + lenminusone]; an end word the loop ran over is restored from
      its saved value. */
  method SetLenRange(bitmap: array<bv64>, start: U32, lenminusone: U32)
    requires start + lenminusone < 64 * bitmap.Length && start + lenminusone <= 0xFFFF_FFFF
    modifies bitmap
    ensures Ranged(Set, old(bitmap[..]), bitmap[..], start, start + lenminusone + 1)
  {
    hide Masks, Done, Ranged, Or, And, Left, Right, Neg32, BlockShift, TailShift;
    ghost var s := bitmap[..];
    ghost var end := start + lenminusone + 1;
    var firstword, endword := start / 64, (start + lenminusone) / 64;
    LenShift(start, lenminusone);
    if firstword == endword {
      BlockMask(start, lenminusone);
      var m := Left(Right(ONES, BlockShift(lenminusone)), start % 64);
      Apply(Set, s[firstword], m, firstword, start, end);
      bitmap[firstword] := Or(bitmap[firstword], m);
      ByWords(Set, s, bitmap[..], start, end);
      return;
    }
    EdgeMasks(start, end);
    Apply(Set, s[firstword], Left(ONES, start % 64), firstword, start, end);
    Apply(Set, s[endword], Right(ONES, Neg32(end) % 64), endword, start, end);
    var temp := bitmap[endword];
    bitmap[firstword] := Or(bitmap[firstword], Left(ONES, start % 64));
    FillPairs(bitmap, firstword + 1, endword);
    bitmap[endword] := Or(temp, Right(ONES, TailShift(start, lenminusone)));
    ByWords(Set, s, bitmap[..], start, end);
  }

  /** The loop of the length form: two words at a time, so it may run over the end word. */
  method FillPairs(bitmap: array<bv64>, from: nat, endword: nat)
    requires from <= endword < bitmap.Length
    modifies bitmap
    ensures forall j :: from <= j < endword ==> bitmap[j] == ONES
    ensures forall j :: 0 <= j < bitmap.Length && (j < from || endword < j) ==> bitmap[j] == old(bitmap[j])
  {
    var i := from;
    while i < endword
      invariant from <= i <= endword + 1
      invariant forall j :: from <= j < i ==> bitmap[j] == ONES
      invariant forall j :: 0 <= j < bitmap.Length && (j < from || i <= j) ==> bitmap[j] == old(bitmap[j])
    {
      bitmap[i + 1] := ONES;
      bitmap[i] := ONES;
      i := i + 2;
    }
  }

  /** Flips [start, end); the low bits of the first word are flipped twice. */
  method FlipRange(bitmap: array<bv64>, start: U32, end: U32)
    requires start <= end <= 64 * bitmap.Length
    modifies bitmap
    ensures Ranged(Flip, old(bitmap[..]), bitmap[..], start, end)
  {
    hide Masks, Done, Ranged, Xor, Not, Left, Right, Neg32;
    ghost var s := bitmap[..];
    if start == end {
      Nothing(Flip, s, start);
      return;
    }
    var firstword, endword := start / 64, (end - 1) / 64;
    var m := Left(ONES, start % 64);
    FlipEdges(s[firstword], s[endword], start, end);
    bitmap[firstword] := Xor(bitmap[firstword], Not(m));
    for i := firstword to endword
      invariant bitmap[firstword] == if i == firstword then Xor(s[firstword], Not(m)) else Not(Xor(s[firstword], Not(m)))
      invariant forall j :: firstword < j < i ==> bitmap[j] == Not(s[j])
      invariant forall j :: 0 <= j < bitmap.Length && (j < firstword || i <= j) && j != firstword ==> bitmap[j] == s[j]
    {
      bitmap[i] := Not(bitmap[i]);
    }
    bitmap[endword] := Xor(bitmap[endword], Right(ONES, Neg32(end) % 64));
    ByWords(Flip, s, bitmap[..], start, end);
  }

  /** What the flips of the two edge words amount to. */
  lemma FlipEdges(w: bv64, v: bv64, start: U32, end: U32)
    requires start < end
    ensures var f, e := start / 64, (end - 1) / 64;
      var m, l := Left(ONES, start % 64), Right(ONES, Neg32(end) % 64);
      if f == e then Done(Flip, w, Xor(Xor(w, Not(m)), l), f, start, end)
      else Done(Flip, w, Not(Xor(w, Not(m))), f, start, end) && Done(Flip, v, Xor(v, l), e, start, end)
  {
    hide Masks, Done, Xor, Not, Left, Right, Neg32;
    var f, e := start / 64, (end - 1) / 64;
    var m, l := Left(ONES, start % 64), Right(ONES, Neg32(end) % 64);
    if f == e {
      FirstMask(start, 64 * f + 64);
      LastMask(64 * e, end);
      DifferenceMask(m, l, f, start, end);
      XorAssoc(w, Not(m), l);
      Apply(Flip, w, Xor(Not(m), l), f, start, end);
    } else {
      EdgeMasks(start, end);
      FlipTwice(w, m);
      Apply(Flip, w, m, f, start, end);
      Apply(Flip, v, l, e, start, end);
    }
  }

  /** The bits below lo and the bits below hi differ exactly in [lo, hi). */
  lemma DifferenceMask(m: bv64, l: bv64, i: nat, lo: int, hi: int)
    requires 64 * i <= lo <= hi <= 64 * i + 64
    requires Masks(m, i, lo, 64 * i + 64) && Masks(l, i, 64 * i, hi)
    ensures Masks(Xor(Not(m), l), i, lo, hi)
  {
    hide Xor, Not, Bit;
    forall k: nat | k < 64
      ensures Bit(Xor(Not(m), l), k) <==> lo <= 64 * i + k < hi
    {
      XorBit(Not(m), l, k);
      NotBit(m, k);
    }
  }

  /** Clears [start, end). */
  method ResetRange(bitmap: array<bv64>, start: U32, end: U32)
    requires start <= end <= 64 * bitmap.Length
    modifies bitmap
    ensures Ranged(Reset, old(bitmap[..]), bitmap[..], start, end)
  {
    hide Masks, Done, Ranged, And, Not, Left, Right, Neg32;
    ghost var s := bitmap[..];
    if start == end {
      Nothing(Reset, s, start);
      return;
    }
    var firstword, endword := start / 64, (end - 1) / 64;
    EdgeMasks(start, end);
    if firstword == endword {
      var m := And(Left(ONES, start % 64), Right(ONES, Neg32(end) % 64));
      Apply(Reset, s[firstword], m, firstword, start, end);
      bitmap[firstword] := And(bitmap[firstword], Not(m));
      ByWords(Reset, s, bitmap[..], start, end);
      return;
    }
    Apply(Reset, s[firstword], Left(ONES, start % 64), firstword, start, end);
    Apply(Reset, s[endword], Right(ONES, Neg32(end) % 64), endword, start, end);
    bitmap[firstword] := And(bitmap[firstword], Not(Left(ONES, start % 64)));
    Fill(bitmap, firstword + 1, endword, 0);
    bitmap[endword] := And(bitmap[endword], Not(Right(ONES, Neg32(end) % 64)));
    ByWords(Reset, s, bitmap[..], start, end);
  }

  // ---- counting -------------------------------------------------------------------------------------

  /** Set positions in [lo, hi). */
  ghost function Count(s: seq<bv64>, lo: int, hi: int): nat
    decreases hi - lo
  {
    if lo >= hi then 0 else Count(s, lo, hi - 1) + if Has(s, hi - 1) then 1 else 0
  }

  lemma {:induction false} CountSplit(s: seq<bv64>, lo: int, mid: int, hi: int)
    requires lo <= mid <= hi
    ensures Count(s, lo, hi) == Count(s, lo, mid) + Count(s, mid, hi)
    decreases hi - mid
  {
    if mid < hi { CountSplit(s, lo, mid, hi - 1); }
  }

  ghost function Positions(s: seq<bv64>, lo: int, hi: int): (r: set<int>)
    ensures forall x :: x in r <==> lo <= x < hi && Has(s, x)
  {
    set x: int | lo <= x < hi && Has(s, x)
  }

  /** Counting positions is the cardinality of their set. */
  lemma {:induction false} CountSet(s: seq<bv64>, lo: int, hi: int)
    ensures |Positions(s, lo, hi)| == Count(s, lo, hi)
    decreases hi - lo
  {
    hide Has;
    if lo < hi {
      CountSet(s, lo, hi - 1);
      LastPosition(s, lo, hi);
    } else {
      assert Positions(s, lo, hi) == {};
    }
  }

  lemma LastPosition(s: seq<bv64>, lo: int, hi: int)
    requires lo < hi
    ensures |Positions(s, lo, hi)| == |Positions(s, lo, hi - 1)| + if Has(s, hi - 1) then 1 else 0
  {
    hide Has;
    var p := Positions(s, lo, hi - 1);
    if Has(s, hi - 1) {
      assert Positions(s, lo, hi) == p + {hi - 1};
    } else {
      assert Positions(s, lo, hi) == p;
    }
  }

  /** Counting the bits of a masked word counts the positions of that word in the range. */
  lemma {:induction false} MaskedCount(s: seq<bv64>, m: bv64, i: nat, lo: int, hi: int, n: nat)
    requires i < |s| && Masks(m, i, lo, hi) && n <= 64
    ensures Pop(And(s[i], m), n) == Count(s, Max(lo, 64 * i), Min(hi, 64 * i + n))
  {
    hide And, Bit, Has;
    if n > 0 {
      MaskedCount(s, m, i, lo, hi, n - 1);
      AndBit(s[i], m, n - 1);
      HasBit(s, i, n - 1);
    }
  }

  lemma HasBit(s: seq<bv64>, i: nat, k: nat)
    requires i < |s| && k < 64
    ensures Has(s, 64 * i + k) <==> Bit(s[i], k)
  {
    hide Bit;
    assert (64 * i + k) / 64 == i && (64 * i + k) % 64 == k;
  }

  lemma WordCount(s: seq<bv64>, i: nat)
    requires i < |s|
    ensures Hamming(s[i]) == Count(s, 64 * i, 64 * i + 64)
  {
    hide And;
    AllMask(s[i], i);
    MaskedCount(s, ONES, i, 64 * i, 64 * i + 64, 64);
  }

  lemma AllMask(w: bv64, i: nat)
    ensures And(w, ONES) == w && Masks(ONES, i, 64 * i, 64 * i + 64)
  {
    forall k: nat | k < 64 ensures Bit(ONES, k) { OnesBit(k); }
    assert w & ONES == w;
  }

  ghost function Max(a: int, b: int): int { if a > b then a else b }
  ghost function Min(a: int, b: int): int { if a < b then a else b }

  /** Number of set positions in [start, start + lenminusone]. */
  method LenRangeCardinality(bitmap: array<bv64>, start: U32, lenminusone: U32) returns (answer: nat)
    requires start + lenminusone < 64 * bitmap.Length && start + lenminusone <= 0xFFFF_FFFF
    ensures answer == Count(bitmap[..], start, start + lenminusone + 1)
  {
    hide Masks, And, Left, Right, Neg32, BlockShift, TailShift, Hamming, Has, Count;
    ghost var s := bitmap[..];
    ghost var end := start + lenminusone + 1;
    var firstword, endword := start / 64, (start + lenminusone) / 64;
    LenShift(start, lenminusone);
    if firstword == endword {
      BlockMask(start, lenminusone);
      var m := Left(Right(ONES, BlockShift(lenminusone)), start % 64);
      EdgeCount(s, m, firstword, start, end);
      return Hamming(And(bitmap[firstword], m));
    }
    EdgeMasks(start, end);
    var first := Left(ONES, start % 64);
    EdgeCount(s, first, firstword, start, end);
    answer := Hamming(And(bitmap[firstword], first));
    for i := firstword + 1 to endword
      invariant answer == Count(s, start, 64 * i)
    {
      WordCount(s, i);
      CountSplit(s, start, 64 * i, 64 * i + 64);
      answer := answer + Hamming(bitmap[i]);
    }
    var last := Right(ONES, TailShift(start, lenminusone));
    EdgeCount(s, last, endword, start, end);
    CountSplit(s, start, 64 * endword, end);
    answer := answer + Hamming(And(bitmap[endword], last));
  }

  lemma EdgeCount(s: seq<bv64>, m: bv64, i: nat, lo: int, hi: int)
    requires i < |s| && Masks(m, i, lo, hi)
    ensures Hamming(And(s[i], m)) == Count(s, Max(lo, 64 * i), Min(hi, 64 * i + 64))
  {
    MaskedCount(s, m, i, lo, hi, 64);
  }

  /** Whether no position of [start, start + lenminusone] is set. */
  method LenRangeEmpty(bitmap: array<bv64>, start: U32, lenminusone: U32) returns (b: bool)
    requires start + lenminusone < 64 * bitmap.Length && start + lenminusone <= 0xFFFF_FFFF
    ensures b <==> Clear(bitmap[..], start, start + lenminusone + 1)
  {
    hide Masks, And, Left, Right, Neg32, BlockShift, TailShift, Has, Clear;
    ghost var s := bitmap[..];
    ghost var end := start + lenminusone + 1;
    var firstword, endword := start / 64, (start + lenminusone) / 64;
    LenShift(start, lenminusone);
    if firstword == endword {
      BlockMask(start, lenminusone);
      var m := Left(Right(ONES, BlockShift(lenminusone)), start % 64);
      EmptyEdge(s, m, firstword, start, end);
      return And(bitmap[firstword], m) == 0;
    }
    EdgeMasks(start, end);
    var first := Left(ONES, start % 64);
    EmptyEdge(s, first, firstword, start, end);
    ClearSplit(s, start, 64 * firstword + 64, end);
    if And(bitmap[firstword], first) != 0 {
      assert bitmap[..] == s;
      return false;
    }
    for i := firstword + 1 to endword
      invariant Clear(s, start, 64 * i)
    {
      AllMask(s[i], i);
      EmptyEdge(s, ONES, i, 64 * i, 64 * i + 64);
      ClearSplit(s, start, 64 * i, 64 * i + 64);
      ClearSplit(s, start, 64 * i + 64, end);
      if bitmap[i] != 0 {
        assert bitmap[..] == s;
        return false;
      }
    }
    var last := Right(ONES, TailShift(start, lenminusone));
    EmptyEdge(s, last, endword, start, end);
    assert bitmap[..] == s;
    ClearSplit(s, start, 64 * endword, end);
    if And(bitmap[endword], last) != 0 {
      assert bitmap[..] == s;
      return false;
    }
    return true;
  }

  ghost predicate Clear(s: seq<bv64>, lo: int, hi: int) {
    forall x :: lo <= x < hi ==> !Has(s, x)
  }

  lemma ClearSplit(s: seq<bv64>, lo: int, mid: int, hi: int)
    requires lo <= mid <= hi
    ensures Clear(s, lo, hi) <==> Clear(s, lo, mid) && Clear(s, mid, hi)
  {
  }

  /** A masked word is zero exactly when its positions in the range are clear. */
  lemma EmptyEdge(s: seq<bv64>, m: bv64, i: nat, lo: int, hi: int)
    requires i < |s| && Masks(m, i, lo, hi)
    ensures And(s[i], m) == 0 <==> Clear(s, Max(lo, 64 * i), Min(hi, 64 * i + 64))
  {
    hide And, Bit, Has;
    var w := And(s[i], m);
    forall k: nat | k < 64
      ensures Bit(w, k) <==> Has(s, 64 * i + k) && lo <= 64 * i + k < hi
    {
      AndBit(s[i], m, k);
      HasBit(s, i, k);
    }
    ZeroWord(w);
    if w == 0 {
      forall x | Max(lo, 64 * i) <= x < Min(hi, 64 * i + 64) ensures !Has(s, x) {
        assert !Bit(w, x - 64 * i);
      }
    }
  }

}
