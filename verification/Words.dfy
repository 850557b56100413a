/** 64-bit words seen bit by bit: the C operators on `uint64_t`, the masks built by shifting all
    ones, and what combining a word with a mask does to each bit. The operators are named
    functions so that proofs can hide them and reason about single bits only; a shift by a variable
    amount is that many shifts by one. */
module Words {
  import opened Memory

  const ONES: bv64 := 0xFFFF_FFFF_FFFF_FFFF
  const ONES63: bv64 := 0x7FFF_FFFF_FFFF_FFFF

  function Or(a: bv64, b: bv64): bv64 { a | b }
  function And(a: bv64, b: bv64): bv64 { a & b }
  function Xor(a: bv64, b: bv64): bv64 { a ^ b }
  function Not(a: bv64): bv64 { !a }
  function Half(a: bv64): bv64 { a >> 1 }
  function Twice(a: bv64): bv64 { a << 1 }
  predicate Odd(a: bv64) { a & 1 == 1 }

  /** `a << s` and `a >> s`; a shift by 64 or more is undefined in C. */
  function Left(a: bv64, s: nat): bv64
    requires s < 64
  {
    if s == 0 then a else Twice(Left(a, s - 1))
  }

  function Right(a: bv64, s: nat): bv64
    requires s < 64
  {
    if s == 0 then a else Half(Right(a, s - 1))
  }

  /** `(1 << s) - 1`. */
  function Below(s: nat): bv64
    requires s < 64
  {
    Left(1, s) - 1
  }

  /** Bit k of a word, bit 0 being the least significant; there is no bit 64 or beyond. */
  predicate Bit(w: bv64, k: nat) {
    if k == 0 then Odd(w) else Bit(Half(w), k - 1)
  }

  /** Two's-complement negation of a 32-bit unsigned integer, as `~x + 1` computes it; 2^32 stands
      for the 0 it wraps to. */
  function Neg32(x: nat): U32 {
    (0x1_0000_0000 - x) % 0x1_0000_0000
  }

  // ---- bit-vector facts about a shift by one ------------------------------------------------------

  lemma OrHalf(a: bv64, b: bv64)
    ensures Half(Or(a, b)) == Or(Half(a), Half(b))
  {
  }

  lemma OrOdd(a: bv64, b: bv64)
    ensures Odd(Or(a, b)) <==> Odd(a) || Odd(b)
  {
  }

  lemma AndDown(a: bv64, b: bv64)
    ensures Half(And(a, b)) == And(Half(a), Half(b)) && (Odd(And(a, b)) <==> Odd(a) && Odd(b))
  {
  }

  lemma XorDown(a: bv64, b: bv64)
    ensures Half(Xor(a, b)) == Xor(Half(a), Half(b)) && (Odd(Xor(a, b)) <==> Odd(a) != Odd(b))
  {
  }

  lemma NotIsXor(a: bv64)
    ensures Not(a) == Xor(a, ONES)
  {
  }

  lemma ZeroDown()
    ensures Half(0) == 0 && !Odd(0)
  {
  }

  lemma TwiceDown(a: bv64)
    ensures Half(Twice(a)) == And(a, ONES63) && !Odd(Twice(a))
  {
  }

  lemma HalvesEqual(a: bv64, b: bv64)
    requires Half(a) == Half(b) && (Odd(a) <==> Odd(b))
    ensures a == b
  {
  }

  // ---- the same, bit by bit -----------------------------------------------------------------------

  lemma {:induction false} OrBit(a: bv64, b: bv64, k: nat)
    ensures Bit(Or(a, b), k) <==> Bit(a, k) || Bit(b, k)
    decreases k
  {
    hide Or, Half, Odd;
    OrHalf(a, b);
    OrOdd(a, b);
    if k > 0 { OrBit(Half(a), Half(b), k - 1); }
  }

  lemma {:induction false} AndBit(a: bv64, b: bv64, k: nat)
    ensures Bit(And(a, b), k) <==> Bit(a, k) && Bit(b, k)
    decreases k
  {
    hide And, Half, Odd;
    AndDown(a, b);
    if k > 0 { AndBit(Half(a), Half(b), k - 1); }
  }

  lemma {:induction false} XorBit(a: bv64, b: bv64, k: nat)
    ensures Bit(Xor(a, b), k) <==> Bit(a, k) != Bit(b, k)
    decreases k
  {
    hide Xor, Half, Odd;
    XorDown(a, b);
    if k > 0 { XorBit(Half(a), Half(b), k - 1); }
  }

  lemma {:induction false} ZeroBit(k: nat)
    ensures !Bit(0, k)
  {
    hide Half, Odd;
    ZeroDown();
    if k > 0 { ZeroBit(k - 1); }
  }

  /** w has at most n significant bits. */
  predicate Narrow(w: bv64, n: nat)
    decreases n
  {
    if n == 0 then w == 0 else Narrow(Half(w), n - 1)
  }

  /** The n lowest bits of w are set. */
  predicate AllOdd(w: bv64, n: nat)
    decreases n
  {
    n == 0 || (Odd(w) && AllOdd(Half(w), n - 1))
  }

  predicate AtMost(a: bv64, b: bv64) { a <= b }

  lemma HalfOrder(a: bv64, b: bv64)
    requires AtMost(a, b)
    ensures AtMost(Half(a), Half(b))
  {
  }

  lemma {:induction false} NarrowBelow(a: bv64, b: bv64, n: nat)
    requires AtMost(a, b) && Narrow(b, n)
    ensures Narrow(a, n)
    decreases n
  {
    hide Half;
    if n > 0 {
      HalfOrder(a, b);
      NarrowBelow(Half(a), Half(b), n - 1);
    }
  }

  /** The word with its n lowest bits set. */
  function Ones(n: nat): bv64 {
    if n == 0 then 0 else Or(Twice(Ones(n - 1)), 1)
  }

  lemma NextOne(a: bv64, b: bv64)
    ensures Half(Or(Twice(a), 1)) == And(a, ONES63) && Odd(Or(Twice(a), 1))
    ensures And(a, b) == a ==> And(Or(Twice(a), 1), Or(Twice(b), 1)) == Or(Twice(a), 1)
  {
  }

  lemma {:induction false} OnesNested(n: nat)
    ensures And(Ones(n), Ones(n + 1)) == Ones(n)
  {
    hide And, Or, Twice;
    if n == 0 {
      AndZero(Ones(1));
    } else {
      OnesNested(n - 1);
      NextOne(Ones(n - 1), Ones(n));
    }
  }

  lemma AndZero(a: bv64)
    ensures And(0, a) == 0
  {
  }

  lemma AndChain(a: bv64, b: bv64, c: bv64)
    requires And(a, b) == a && And(b, c) == b
    ensures And(a, c) == a
  {
  }

  lemma Ones63()
    ensures Ones(63) == ONES63 && And(ONES63, ONES63) == ONES63
  {
    hide Ones;
    OnesZero();
    OnesEight(0, 0);
    OnesEight(8, 0xFF);
    OnesEight(16, 0xFFFF);
    OnesEight(24, 0xFF_FFFF);
    OnesEight(32, 0xFFFF_FFFF);
    OnesEight(40, 0xFF_FFFF_FFFF);
    OnesEight(48, 0xFFFF_FFFF_FFFF);
    OnesFour(56, 0xFF_FFFF_FFFF_FFFF);
    OnesTwo(60, 0xFFF_FFFF_FFFF_FFFF);
    OnesNext(62);
  }

  lemma OnesZero()
    ensures Ones(0) == 0
  {
  }

  lemma OnesTwo(n: nat, w: bv64)
    requires Ones(n) == w
    ensures Ones(n + 2) == (w << 2) | 3
  {
    hide Ones, Or, Twice;
    OnesNext(n);
    OnesNext(n + 1);
    TwoOnes(w);
  }

  lemma TwoOnes(w: bv64)
    ensures Or(Twice(Or(Twice(w), 1)), 1) == (w << 2) | 3
  {
  }

  lemma OnesFour(n: nat, w: bv64)
    requires Ones(n) == w
    ensures Ones(n + 4) == (w << 4) | 0xF
  {
    hide Ones;
    OnesTwo(n, w);
    OnesTwo(n + 2, (w << 2) | 3);
  }

  lemma OnesEight(n: nat, w: bv64)
    requires Ones(n) == w
    ensures Ones(n + 8) == (w << 8) | 0xFF
  {
    hide Ones;
    OnesFour(n, w);
    OnesFour(n + 4, (w << 4) | 0xF);
  }

  lemma {:induction false} OnesIn63(n: nat)
    requires n <= 63
    ensures And(Ones(n), ONES63) == Ones(n)
    decreases 63 - n
  {
    hide And, Ones;
    if n == 63 {
      Ones63();
    } else {
      OnesNested(n);
      OnesIn63(n + 1);
      AndChain(Ones(n), Ones(n + 1), ONES63);
    }
  }

  lemma {:induction false} OnesShape(n: nat)
    requires n <= 64
    ensures AllOdd(Ones(n), n) && Narrow(Ones(n), n)
  {
    hide And, Or, Twice, Half, Odd;
    if n > 0 {
      OnesShape(n - 1);
      OnesIn63(n - 1);
      NextOne(Ones(n - 1), 0);
    }
  }

  lemma Ones64()
    ensures Ones(64) == ONES
  {
    hide Ones;
    Ones63();
    OnesNext(63);
  }

  lemma OnesNext(n: nat)
    ensures Ones(n + 1) == Or(Twice(Ones(n)), 1)
  {
  }

  lemma Width(w: bv64)
    ensures Narrow(w, 64)
  {
    hide Narrow, Half, Ones;
    OnesShape(64);
    Ones64();
    assert AtMost(w, ONES);
    NarrowBelow(w, ONES, 64);
  }

  lemma {:induction false} NoBit(w: bv64, n: nat, k: nat)
    requires Narrow(w, n) && n <= k
    ensures !Bit(w, k)
    decreases n
  {
    hide Half, Odd;
    if n == 0 { ZeroBit(k); } else { NoBit(Half(w), n - 1, k - 1); }
  }

  lemma {:induction false} OddBit(w: bv64, n: nat, k: nat)
    requires AllOdd(w, n) && k < n
    ensures Bit(w, k)
    decreases k
  {
    hide Half, Odd;
    if k > 0 { OddBit(Half(w), n - 1, k - 1); }
  }

  lemma OnesBit(k: nat)
    ensures Bit(ONES, k) <==> k < 64
    ensures Bit(ONES63, k) <==> k < 63
  {
    hide Bit, AllOdd, Narrow, Ones;
    OnesShape(64);
    Ones64();
    OnesShape(63);
    Ones63();
    if k < 64 { OddBit(ONES, 64, k); } else { NoBit(ONES, 64, k); }
    if k < 63 { OddBit(ONES63, 63, k); } else { NoBit(ONES63, 63, k); }
  }

  lemma NotBit(a: bv64, k: nat)
    requires k < 64
    ensures Bit(Not(a), k) <==> !Bit(a, k)
  {
    hide Xor, Not, Bit;
    NotIsXor(a);
    XorBit(a, ONES, k);
    OnesBit(k);
  }

  lemma OneDown()
    ensures Half(1) == 0 && Odd(1)
  {
  }

  lemma OneBit(k: nat)
    ensures Bit(1, k) <==> k == 0
  {
    hide Half, Odd;
    OneDown();
    if k > 0 { ZeroBit(k - 1); }
  }

  /** A left shift by s moves every bit up by s and drops those that pass bit 63. */
  lemma {:induction false} LeftBit(a: bv64, s: nat, k: nat)
    requires s < 64 && k < 64
    ensures Bit(Left(a, s), k) <==> k >= s && Bit(a, k - s)
  {
    hide Half, Odd, Twice, And;
    if s > 0 {
      var y := Left(a, s - 1);
      TwiceDown(y);
      if k > 0 {
        AndBit(y, ONES63, k - 1);
        OnesBit(k - 1);
        LeftBit(a, s - 1, k - 1);
      }
    }
  }

  /** A right shift by s moves every bit down by s. */
  lemma {:induction false} RightBit(w: bv64, s: nat, k: nat)
    requires s < 64
    ensures Bit(Right(w, s), k) <==> Bit(w, k + s)
    decreases s
  {
    hide Half, Odd;
    if s > 0 {
      assert Bit(Half(Right(w, s - 1)), k) == Bit(Right(w, s - 1), k + 1);
      RightBit(w, s - 1, k + 1);
    }
  }

  /** `(w >> k) & 1` reads bit k. */
  lemma ReadBy(w: bv64, k: nat)
    requires k < 64
    ensures Odd(Right(w, k)) <==> Bit(w, k)
  {
    hide Odd, Right;
    RightBit(w, k, 0);
    assert Bit(Right(w, k), 0) == Odd(Right(w, k));
  }

  /** All ones shifted right by m leave the 64 - m lowest bits set. */
  lemma OnesRight(m: nat, k: nat)
    requires m < 64
    ensures Bit(Right(ONES, m), k) <==> k + m < 64
  {
    hide Bit, Right;
    RightBit(ONES, m, k);
    OnesBit(k + m);
  }

  // ---- words from their bits ----------------------------------------------------------------------

  ghost predicate SameBits(a: bv64, b: bv64, n: nat) {
    forall k: nat :: k < n ==> (Bit(a, k) <==> Bit(b, k))
  }

  lemma SameDown(a: bv64, b: bv64, n: nat)
    requires n > 0 && SameBits(a, b, n)
    ensures SameBits(Half(a), Half(b), n - 1) && (Odd(a) <==> Odd(b))
  {
    hide Half, Odd;
    assert Bit(a, 0) <==> Bit(b, 0);
    forall k: nat | k < n - 1 ensures Bit(Half(a), k) <==> Bit(Half(b), k) {
      assert Bit(a, k + 1) <==> Bit(b, k + 1);
    }
  }

  lemma {:induction false} SameNarrow(a: bv64, b: bv64, n: nat)
    requires Narrow(a, n) && Narrow(b, n) && SameBits(a, b, n)
    ensures a == b
    decreases n
  {
    hide Half, Odd, SameBits;
    if n > 0 {
      SameDown(a, b, n);
      SameNarrow(Half(a), Half(b), n - 1);
      HalvesEqual(a, b);
    }
  }

  /** Two words with the same 64 bits are equal. */
  lemma SameWord(a: bv64, b: bv64)
    ensures SameBits(a, b, 64) <==> a == b
  {
    hide Narrow, Bit;
    Width(a);
    Width(b);
    if SameBits(a, b, 64) { SameNarrow(a, b, 64); }
  }

  ghost predicate Blank(w: bv64) {
    forall k: nat :: k < 64 ==> !Bit(w, k)
  }

  /** A word is zero exactly when it has no bit set. */
  lemma ZeroWord(w: bv64)
    ensures w == 0 <==> Blank(w)
  {
    hide Bit;
    forall k: nat | k < 64 ensures !Bit(0, k) { ZeroBit(k); }
    if Blank(w) {
      assert SameBits(w, 0, 64);
      SameWord(w, 0);
    }
  }

  lemma XorAssoc(a: bv64, b: bv64, c: bv64)
    ensures Xor(Xor(a, b), c) == Xor(a, Xor(b, c))
  {
    hide Xor, Bit;
    var l, r := Xor(Xor(a, b), c), Xor(a, Xor(b, c));
    forall k: nat | k < 64 ensures Bit(l, k) <==> Bit(r, k) {
      XorBit(Xor(a, b), c, k);
      XorBit(a, b, k);
      XorBit(a, Xor(b, c), k);
      XorBit(b, c, k);
    }
    SameWord(l, r);
  }

  /** Inverting a word after xoring it with an inverted mask is xoring it with the mask. */
  lemma FlipTwice(w: bv64, m: bv64)
    ensures Not(Xor(w, Not(m))) == Xor(w, m)
  {
    hide Xor, Not, Bit;
    var l, r := Not(Xor(w, Not(m))), Xor(w, m);
    forall k: nat | k < 64 ensures Bit(l, k) <==> Bit(r, k) {
      NotBit(Xor(w, Not(m)), k);
      XorBit(w, Not(m), k);
      NotBit(m, k);
      XorBit(w, m, k);
    }
    SameWord(l, r);
  }

  /** `(w ^ (w | (1 << k))) >> k` is 1 when bit k was clear, and the removing form is 1 when it
      was set: the amount the cached cardinality changes by. */
  lemma Changed(w: bv64, k: nat)
    requires k < 64
    ensures Right(Xor(w, Or(w, Left(1, k))), k) == if Bit(w, k) then 0 else 1
    ensures Right(Xor(w, And(w, Not(Left(1, k)))), k) == if Bit(w, k) then 1 else 0
  {
    hide Xor, Or, And, Not, Left, Right, Bit;
    var d, e := Xor(w, Or(w, Left(1, k))), Xor(w, And(w, Not(Left(1, k))));
    forall j: nat | j < 64
      ensures Bit(Right(d, k), j) <==> j == 0 && !Bit(w, k)
      ensures Bit(Right(e, k), j) <==> j == 0 && Bit(w, k)
    {
      RightBit(d, k, j);
      RightBit(e, k, j);
      ChangedBit(w, k, j + k);
    }
    UnitWord(Right(d, k), !Bit(w, k));
    UnitWord(Right(e, k), Bit(w, k));
  }

  lemma ChangedBit(w: bv64, k: nat, j: nat)
    requires k < 64
    ensures Bit(Xor(w, Or(w, Left(1, k))), j) <==> j == k && !Bit(w, k)
    ensures Bit(Xor(w, And(w, Not(Left(1, k)))), j) <==> j == k && Bit(w, k)
  {
    hide Xor, Or, And, Not, Left, Bit;
    var m := Left(1, k);
    XorBit(w, Or(w, m), j);
    OrBit(w, m, j);
    XorBit(w, And(w, Not(m)), j);
    AndBit(w, Not(m), j);
    if j < 64 {
      NotBit(m, j);
      LeftBit(1, k, j);
      if j >= k { OneBit(j - k); }
    } else {
      Beyond(w, j);
      Beyond(m, j);
    }
  }

  lemma Beyond(w: bv64, j: nat)
    requires j >= 64
    ensures !Bit(w, j)
  {
    hide Narrow, Bit;
    Width(w);
    NoBit(w, 64, j);
  }

  lemma UnitWord(w: bv64, b: bool)
    requires forall j: nat :: j < 64 ==> (Bit(w, j) <==> j == 0 && b)
    ensures w == if b then 1 else 0
  {
    hide Bit;
    var v: bv64 := if b then 1 else 0;
    forall j: nat | j < 64 ensures Bit(w, j) <==> Bit(v, j) {
      OneBit(j);
      ZeroBit(j);
    }
    SameWord(w, v);
  }

  lemma NotZero()
    ensures Not(0) == ONES && Not(ONES) == 0
  {
  }

  lemma BelowStep(y: bv64)
    ensures Not(Twice(y) - 1) == Twice(Not(y - 1)) && Not(Not(y)) == y
  {
  }

  /** `(1 << s) - 1` and its complement are the masks below and from position s. */
  lemma {:induction false} BelowMask(s: nat)
    requires s < 64
    ensures Not(Below(s)) == Left(ONES, s) && Below(s) == Not(Left(ONES, s))
  {
    hide Not, Twice;
    if s == 0 {
      NotZero();
    } else {
      BelowMask(s - 1);
      BelowStep(Left(1, s - 1));
      BelowStep(Below(s));
    }
  }

  // ---- masks for an interval of positions -------------------------------------------------------

  /** Bit k of m says whether position 64 * i + k lies in [lo, hi). */
  ghost predicate Masks(m: bv64, i: nat, lo: int, hi: int) {
    forall k: nat :: k < 64 ==> (Bit(m, k) <==> lo <= 64 * i + k < hi)
  }

  /** The mask of the first word: `~0 << (lo % 64)`. */
  lemma FirstMask(lo: nat, hi: int)
    requires hi >= 64 * (lo / 64) + 64
    ensures Masks(Left(ONES, lo % 64), lo / 64, lo, hi)
  {
    hide Left, Bit;
    forall k: nat | k < 64
      ensures Bit(Left(ONES, lo % 64), k) <==> lo <= 64 * (lo / 64) + k < hi
    {
      LeftBit(ONES, lo % 64, k);
      if k >= lo % 64 { OnesBit(k - lo % 64); }
    }
  }

  lemma Remainder(x: int, q: int, r: int)
    requires x == 64 * q + r && 0 <= r < 64
    ensures x % 64 == r
  {
  }

  lemma NegMod(hi: nat)
    requires 0 < hi <= 0x1_0000_0000
    ensures Neg32(hi) % 64 == 63 - (hi - 1) % 64
  {
    NegSmall(hi);
    hide Neg32;
    var q, r := (hi - 1) / 64, (hi - 1) % 64;
    Remainder(Neg32(hi), 0x400_0000 - q - 1, 63 - r);
  }

  lemma NegSmall(hi: nat)
    requires 0 < hi <= 0x1_0000_0000
    ensures Neg32(hi) == 0x1_0000_0000 - hi
  {
  }

  /** The mask of the last word: `~0 >> ((~hi + 1) % 64)`. */
  lemma LastMask(lo: int, hi: nat)
    requires 0 < hi <= 0x1_0000_0000 && lo <= 64 * ((hi - 1) / 64)
    ensures Masks(Right(ONES, Neg32(hi) % 64), (hi - 1) / 64, lo, hi)
  {
    hide Right, Bit;
    var m := Neg32(hi) % 64;
    NegMod(hi);
    forall k: nat | k < 64
      ensures Bit(Right(ONES, m), k) <==> lo <= 64 * ((hi - 1) / 64) + k < hi
    {
      OnesRight(m, k);
    }
  }

  /** Both ends in one word: the meet of the two masks. */
  lemma MeetMask(a: bv64, b: bv64, i: nat, lo: int, hi: int, lo': int, hi': int)
    requires Masks(a, i, lo, hi') && Masks(b, i, lo', hi)
    requires hi' >= 64 * i + 64 && lo' <= 64 * i
    ensures Masks(And(a, b), i, lo, hi)
  {
    hide And, Bit;
    forall k: nat | k < 64
      ensures Bit(And(a, b), k) <==> lo <= 64 * i + k < hi
    {
      AndBit(a, b, k);
    }
  }

  /** Both ends in one word, as a moved block: `(~0 >> ((63 - n) % 64)) << (lo % 64)`. */
  lemma BlockMask(lo: nat, n: nat)
    requires lo % 64 + n < 64
    ensures Masks(Left(Right(ONES, 63 - n), lo % 64), lo / 64, lo, lo + n + 1)
  {
    hide Left, Right, Bit;
    var block := Right(ONES, 63 - n);
    forall k: nat | k < 64
      ensures Bit(Left(block, lo % 64), k) <==> lo <= 64 * (lo / 64) + k < lo + n + 1
    {
      LeftBit(block, lo % 64, k);
      if k >= lo % 64 { OnesRight(63 - n, k - lo % 64); }
    }
  }

  // ---- what an operation does to a word ---------------------------------------------------------

  datatype Op = Set | Reset | Flip

  /** The new value of a bit, given the old one and whether its position is in the range. */
  predicate Want(op: Op, bit: bool, inside: bool) {
    match op
    case Set => bit || inside
    case Reset => bit && !inside
    case Flip => bit != inside
  }

  /** w' is w with the operation applied to the positions of word i that lie in [lo, hi). */
  ghost predicate Done(op: Op, w: bv64, w': bv64, i: nat, lo: int, hi: int) {
    forall k: nat :: k < 64 ==> (Bit(w', k) <==> Want(op, Bit(w, k), lo <= 64 * i + k < hi))
  }

  lemma Apply(op: Op, w: bv64, m: bv64, i: nat, lo: int, hi: int)
    requires Masks(m, i, lo, hi)
    ensures op == Set ==> Done(op, w, Or(w, m), i, lo, hi)
    ensures op == Reset ==> Done(op, w, And(w, Not(m)), i, lo, hi)
    ensures op == Flip ==> Done(op, w, Xor(w, m), i, lo, hi)
  {
    hide Or, And, Xor, Not, Bit;
    forall k: nat | k < 64
      ensures Bit(Or(w, m), k) <==> Bit(w, k) || Bit(m, k)
      ensures Bit(And(w, Not(m)), k) <==> Bit(w, k) && !Bit(m, k)
      ensures Bit(Xor(w, m), k) <==> Bit(w, k) != Bit(m, k)
    {
      OrBit(w, m, k);
      AndBit(w, Not(m), k);
      NotBit(m, k);
      XorBit(w, m, k);
    }
  }

  lemma Outside(op: Op, w: bv64, i: nat, lo: int, hi: int)
    requires hi <= 64 * i || 64 * i + 64 <= lo
    ensures Done(op, w, w, i, lo, hi)
  {
  }

  lemma Whole(op: Op, w: bv64, i: nat, lo: int, hi: int)
    requires lo <= 64 * i && 64 * i + 64 <= hi
    ensures op == Set ==> Done(op, w, ONES, i, lo, hi)
    ensures op == Reset ==> Done(op, w, 0, i, lo, hi)
    ensures op == Flip ==> Done(op, w, Not(w), i, lo, hi)
  {
    hide Not, Bit;
    forall k: nat | k < 64
      ensures Bit(ONES, k) && !Bit(0, k) && (Bit(Not(w), k) <==> !Bit(w, k))
    {
      OnesBit(k);
      ZeroBit(k);
      NotBit(w, k);
    }
  }

  // ---- population count ---------------------------------------------------------------------------

  /** Set bits among the n lowest. */
  function Pop(w: bv64, n: nat): nat {
    if n == 0 then 0 else Pop(w, n - 1) + if Bit(w, n - 1) then 1 else 0
  }

  /** `hamming`: the number of set bits of a word. */
  function Hamming(w: bv64): nat {
    Pop(w, 64)
  }
}
