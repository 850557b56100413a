/** Bitset containers: 65536 positions in 1024 words, with the cardinality cached. */
module BitsetContainers {
  import opened Memory
  import opened Words
  import opened Bitset

  const SIZE_IN_WORDS := 1024

  /** The positions of a bitset container's words as a set. */
  ghost function Members(s: seq<bv64>): set<int> {
    Positions(s, 0, 0x1_0000)
  }

  lemma MembersBounded(s: seq<bv64>)
    ensures forall x :: x in Members(s) ==> 0 <= x <= 0xFFFF
  {
  }

  /** An operation on a range of positions, as an operation on sets. */
  ghost function Applied(op: Op, v: set<int>, lo: int, hi: int): set<int> {
    match op
    case Set => v + Range(lo, hi - 1)
    case Reset => v - Range(lo, hi - 1)
    case Flip => (v - Range(lo, hi - 1)) + (Range(lo, hi - 1) - v)
  }

  lemma RangedMembers(op: Op, s: seq<bv64>, t: seq<bv64>, lo: int, hi: int)
    requires |s| == SIZE_IN_WORDS && Ranged(op, s, t, lo, hi) && 0 <= lo <= hi <= 0x1_0000
    ensures Members(t) == Applied(op, Members(s), lo, hi)
  {
    hide Has;
    var v := Applied(op, Members(s), lo, hi);
    forall x ensures x in Members(t) <==> x in v {
      if 0 <= x < 0x1_0000 {
        assert Has(t, x) <==> Want(op, Has(s, x), lo <= x < hi);
      }
    }
  }

  lemma SetMembers(s: seq<bv64>, t: seq<bv64>, lo: int, hi: int)
    requires |s| == SIZE_IN_WORDS && Ranged(Set, s, t, lo, hi) && 0 <= lo <= hi <= 0x1_0000
    ensures Members(t) == Members(s) + Range(lo, hi - 1)
  {
    hide Ranged, Members;
    RangedMembers(Set, s, t, lo, hi);
  }

  lemma ResetMembers(s: seq<bv64>, t: seq<bv64>, lo: int, hi: int)
    requires |s| == SIZE_IN_WORDS && Ranged(Reset, s, t, lo, hi) && 0 <= lo <= hi <= 0x1_0000
    ensures Members(t) == Members(s) - Range(lo, hi - 1)
  {
    hide Ranged, Members;
    RangedMembers(Reset, s, t, lo, hi);
  }

  /** |v ∪ [lo, hi)| and |v \ [lo, hi)| from the number of members inside the range. */
  lemma InclusionExclusion(s: seq<bv64>, lo: int, hi: int)
    requires 0 <= lo <= hi <= 0x1_0000
    ensures |Members(s) + Range(lo, hi - 1)| == |Members(s)| + (hi - lo) - Count(s, lo, hi)
    ensures |Members(s) - Range(lo, hi - 1)| == |Members(s)| - Count(s, lo, hi)
  {
    hide Has, Count;
    var v, r := Members(s), Range(lo, hi - 1);
    CountSet(s, lo, hi);
    RangeSize(lo, hi - 1);
    assert v * r == Positions(s, lo, hi);
    UnionSize(v, r);
  }

  /** Writing one word with one bit set or cleared. */
  lemma OneWord(op: Op, s: seq<bv64>, pos: U16)
    requires |s| == SIZE_IN_WORDS
    ensures var i, m := pos / 64, Left(1, pos % 64);
      && (op == Set ==> Members(s[i := Or(s[i], m)]) == Members(s) + {pos})
      && (op == Reset ==> Members(s[i := And(s[i], Not(m))]) == Members(s) - {pos})
  {
    hide Has, Done, Masks, Or, And, Not, Left, Ranged;
    var i, m := pos / 64, Left(1, pos % 64);
    PointMask(pos);
    Apply(op, s[i], m, i, pos, pos + 1);
    PointRange(pos);
    if op == Set {
      var t := s[i := Or(s[i], m)];
      ByWords(Set, s, t, pos, pos + 1);
      RangedMembers(Set, s, t, pos, pos + 1);
    } else if op == Reset {
      var t := s[i := And(s[i], Not(m))];
      ByWords(Reset, s, t, pos, pos + 1);
      RangedMembers(Reset, s, t, pos, pos + 1);
    }
  }

  lemma PointMask(pos: U16)
    ensures Masks(Left(1, pos % 64), pos / 64, pos, pos + 1)
  {
    hide Left, Bit;
    forall k: nat | k < 64
      ensures Bit(Left(1, pos % 64), k) <==> pos <= 64 * (pos / 64) + k < pos + 1
    {
      LeftBit(1, pos % 64, k);
      if k >= pos % 64 { OneBit(k - pos % 64); }
    }
  }

  /** Whether pos is a member, as the bit read from its word; and the change an update makes. */
  lemma ReadBit(s: seq<bv64>, pos: U16)
    requires |s| == SIZE_IN_WORDS
    ensures var w, k := s[pos / 64], pos % 64;
      && (Odd(Right(w, k)) <==> pos in Members(s))
      && Right(Xor(w, Or(w, Left(1, k))), k) == (if pos in Members(s) then 0 else 1)
      && Right(Xor(w, And(w, Not(Left(1, k)))), k) == (if pos in Members(s) then 1 else 0)
  {
    hide Has, Odd, Or, And, Not, Xor, Left, Right, Bit;
    HasBit(s, pos / 64, pos % 64);
    assert 64 * (pos / 64) + pos % 64 == pos;
    ReadBy(s[pos / 64], pos % 64);
    Changed(s[pos / 64], pos % 64);
  }

  // ---- full ranges -------------------------------------------------------------------------------

  ghost predicate Full(s: seq<bv64>, lo: int, hi: int) {
    forall x :: lo <= x < hi ==> Has(s, x)
  }

  lemma FullSplit(s: seq<bv64>, lo: int, mid: int, hi: int)
    requires lo <= mid <= hi
    ensures Full(s, lo, hi) <==> Full(s, lo, mid) && Full(s, mid, hi)
  {
  }

  lemma FullRange(s: seq<bv64>, lo: int, hi: int)
    requires 0 <= lo <= hi <= 0x1_0000
    ensures Full(s, lo, hi) <==> Range(lo, hi - 1) <= Members(s)
  {
    hide Has;
    if Range(lo, hi - 1) <= Members(s) {
      forall x | lo <= x < hi ensures Has(s, x) { assert x in Range(lo, hi - 1); }
    }
  }

  /** A word contains its whole mask exactly when its positions in the range are all set. */
  lemma FullEdge(s: seq<bv64>, m: bv64, i: nat, lo: int, hi: int)
    requires i < |s| && Masks(m, i, lo, hi)
    ensures And(s[i], m) == m <==> Full(s, Max(lo, 64 * i), Min(hi, 64 * i + 64))
  {
    hide And, Bit, Has;
    var w := And(s[i], m);
    forall k: nat | k < 64
      ensures Bit(w, k) <==> Has(s, 64 * i + k) && Bit(m, k)
    {
      AndBit(s[i], m, k);
      HasBit(s, i, k);
    }
    SameWord(w, m);
    if w == m {
      forall x | Max(lo, 64 * i) <= x < Min(hi, 64 * i + 64) ensures Has(s, x) {
        assert Bit(w, x - 64 * i);
      }
    }
  }

  /** The masks of the range test: `~((1 << (lo & 63)) - 1)` and `(1 << (hi & 63)) - 1`. */
  lemma TestMasks(lo: nat, hi: nat)
    requires lo <= hi
    ensures var first, last := Not(Below(lo % 64)), Below(hi % 64);
      && (lo / 64 < hi / 64 ==> Masks(first, lo / 64, lo, hi) && Masks(last, hi / 64, lo, hi))
      && (lo / 64 == hi / 64 ==> Masks(And(first, last), lo / 64, lo, hi))
  {
    hide Masks, And, Not, Left, Below;
    BelowMask(lo % 64);
    BelowMask(hi % 64);
    var f, e := lo / 64, hi / 64;
    TailMask(hi);
    if f < e {
      FirstMask(lo, hi);
      Widen(Below(hi % 64), e, hi, lo);
    } else {
      FirstMask(lo, 64 * f + 64);
      MeetMask(Not(Below(lo % 64)), Below(hi % 64), f, lo, hi, 64 * e, 64 * f + 64);
    }
  }

  lemma TailMask(hi: nat)
    ensures Masks(Not(Left(ONES, hi % 64)), hi / 64, 64 * (hi / 64), hi)
  {
    hide Left, Not, Bit;
    forall k: nat | k < 64
      ensures Bit(Not(Left(ONES, hi % 64)), k) <==> 64 * (hi / 64) <= 64 * (hi / 64) + k < hi
    {
      NotBit(Left(ONES, hi % 64), k);
      LeftBit(ONES, hi % 64, k);
      if k >= hi % 64 { OnesBit(k - hi % 64); }
    }
  }

  lemma Widen(m: bv64, i: nat, hi: int, lo: int)
    requires Masks(m, i, 64 * i, hi) && lo <= 64 * i
    ensures Masks(m, i, lo, hi)
  {
  }

  class BitsetContainer {
    var cardinality: int
    const words: array<bv64>

    ghost predicate Valid()
      reads this, words
    {
      words.Length == SIZE_IN_WORDS && cardinality == |Members(words[..])|
    }

    ghost function Contents(): set<int>
      reads words
    {
      Members(words[..])
    }

    ghost predicate Is(v: set<int>)
      reads this, words
    {
      Valid() && Contents() == v
    }

    constructor ()
      ensures Is({}) && fresh(words)
    {
      cardinality := 0;
      words := new bv64[SIZE_IN_WORDS](_ => 0);
      new;
      forall x | 0 <= x < 0x1_0000 ensures !Has(words[..], x) { ZeroBit(x % 64); }
    }

    /** Adds a value; true when it was not present. */
    method Add(pos: U16) returns (added: bool)
      requires Valid()
      modifies this`cardinality, words
      ensures Is(old(Contents()) + {pos}) && added == (pos !in old(Contents()))
    {
      hide Or, Xor, Left, Right, Members;
      ghost var s := words[..];
      OneWord(Set, s, pos);
      ReadBit(s, pos);
      var oldWord := words[pos / 64];
      var index := pos % 64;
      var newWord := Or(oldWord, Left(1, index));
      var increment := Right(Xor(oldWord, newWord), index);
      cardinality := cardinality + increment as int;
      words[pos / 64] := newWord;
      assert words[..] == s[pos / 64 := newWord];
      AddedSize(Members(s), pos);
      return increment > 0;
    }

    /** Removes a value; true when it was present. */
    method Remove(pos: U16) returns (removed: bool)
      requires Valid()
      modifies this`cardinality, words
      ensures Is(old(Contents()) - {pos}) && removed == (pos in old(Contents()))
    {
      hide And, Not, Xor, Left, Right, Members;
      ghost var s := words[..];
      OneWord(Reset, s, pos);
      ReadBit(s, pos);
      var oldWord := words[pos / 64];
      var index := pos % 64;
      var newWord := And(oldWord, Not(Left(1, index)));
      var increment := Right(Xor(oldWord, newWord), index);
      cardinality := cardinality - increment as int;
      words[pos / 64] := newWord;
      assert words[..] == s[pos / 64 := newWord];
      AddedSize(Members(s), pos);
      return increment > 0;
    }

    method Get(pos: U16) returns (b: bool)
      requires Valid()
      ensures b <==> pos in Contents()
    {
      hide Odd, Right, Members;
      ReadBit(words[..], pos);
      return Odd(Right(words[pos / 64], pos % 64));
    }

    /** Whether every value of [start, end) is present; yes for an empty range. */
    method GetRange(start: U32, end: U32) returns (b: bool)
      requires Valid() && start <= end <= 0x1_0000 && start < 0x1_0000
      ensures b <==> Range(start, end - 1) <= Contents()
    {
      hide And, Not, Below, Members, Full, Masks;
      ghost var s := words[..];
      var startWord, endWord := start / 64, end / 64;
      var first, last := Not(Below(start % 64)), Below(end % 64);
      TestMasks(start, end);
      FullRange(s, start, end);
      if startWord == endWord {
        FullEdge(s, And(first, last), startWord, start, end);
        return And(words[endWord], And(first, last)) == And(first, last);
      }
      FullEdge(s, first, startWord, start, end);
      FullSplit(s, start, 64 * startWord + 64, end);
      if And(words[startWord], first) != first {
        return false;
      }
      assert start <= 64 * endWord <= end <= 64 * endWord + 64;
      FullSplit(s, start, 64 * endWord, end);
      if endWord < SIZE_IN_WORDS {
        FullEdge(s, last, endWord, start, end);
        if And(words[endWord], last) != last {
          return false;
        }
      } else {
        EmptyFull(s, end);
      }
      var i := startWord + 1;
      while i < SIZE_IN_WORDS && i < endWord
        invariant startWord < i <= endWord && i <= SIZE_IN_WORDS
        invariant Full(s, start, 64 * i)
      {
        WholeWord(s, i);
        FullSplit(s, start, 64 * i, 64 * i + 64);
        FullSplit(s, start, 64 * i + 64, 64 * endWord);
        if words[i] != ONES {
          return false;
        }
        i := i + 1;
      }
      return true;
    }
  }

  lemma EmptyFull(s: seq<bv64>, lo: int)
    ensures Full(s, lo, lo)
  {
  }

  lemma WholeWord(s: seq<bv64>, i: nat)
    requires i < |s|
    ensures s[i] == ONES <==> Full(s, 64 * i, 64 * i + 64)
  {
    hide And, Full;
    AllMask(s[i], i);
    FullEdge(s, ONES, i, 64 * i, 64 * i + 64);
  }

  lemma AddedSize(v: set<int>, x: int)
    ensures |v + {x}| == |v| + if x in v then 0 else 1
    ensures |v - {x}| == |v| - if x in v then 1 else 0
  {
    if x in v { assert v + {x} == v; } else { assert v - {x} == v; }
  }
}
