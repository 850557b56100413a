/** Range union and range difference over the three container kinds, with the changes of
    representation they make. */
module Containers {
  import opened Memory
  import opened RunSpec
  import opened RunContainers
  import opened Words
  import opened Bitset
  import opened BitsetContainers
  import opened SortedArray
  import opened ArrayContainers

  /** Containers with this many values or fewer should be arrays. */
  const DEFAULT_MAX_SIZE := 4096

  /** A container pointer with its type code. */
  datatype Container =
    | BitsetC(bitset: BitsetContainer)
    | ArrayC(arr: ArrayContainer)
    | RunC(run: RunContainer)
  {
    /** The container object with its buffer. */
    ghost function Footprint(): set<object>
      reads if BitsetC? then {bitset as object} else if ArrayC? then {arr as object} else {run as object}
    {
      if BitsetC? then {bitset as object, bitset.words as object}
      else if ArrayC? then {arr as object, arr.data as object}
      else {run as object, run.runs as object}
    }

    /** The container is well formed and its set is exactly v. */
    ghost predicate Is(v: set<int>)
      reads if BitsetC? then {bitset as object} else if ArrayC? then {arr as object} else {run as object}
      reads Footprint()
    {
      if BitsetC? then bitset.Is(v) else if ArrayC? then arr.Is(v) else run.Is(v)
    }
  }


  // ---- conversions ------------------------------------------------------------------------------

  /** A new bitset with the values of an array. */
  method BitsetFromArray(a: ArrayContainer) returns (b: BitsetContainer)
    requires a.Valid()
    ensures fresh(b) && fresh(b.words) && b.Is(a.Contents())
  {
    hide Members, Elements, Increasing;
    b := new BitsetContainer();
    ghost var s := a.view;
    NoElements(s);
    for i := 0 to a.cardinality
      invariant fresh(b) && fresh(b.words)
      invariant b.Is(Elements(s[..i]))
    {
      NextElement(s, i);
      var _ := b.Add(a.data[i]);
    }
  }

  lemma NoElements(s: seq<U16>)
    ensures Elements(s[..0]) == {} && s[..|s|] == s
  {
  }

  lemma NextElement(s: seq<U16>, i: nat)
    requires i < |s|
    ensures Elements(s[..i + 1]) == Elements(s[..i]) + {s[i] as int}
  {
    assert s[..i + 1] == s[..i] + [s[i]];
  }

  /** Adds the values of [min, max] to a bitset one by one. */
  method AddEach(b: BitsetContainer, min: U16, max: U16)
    requires b.Valid() && min <= max
    modifies b`cardinality, b.words
    ensures b.Is(old(b.Contents()) + Range(min, max))
  {
    hide Positions, Has;
    ghost var v := b.Contents();
    NextValue(v, min, min);
    for x := min to max + 1
      invariant b.Is(v + Range(min, x - 1))
    {
      NextValue(v, min, x);
      var _ := b.Add(x);
    }
  }

  lemma NextValue(v: set<int>, min: int, x: int)
    requires min <= x
    ensures v + Range(min, x) == v + Range(min, x - 1) + {x}
    ensures min == x ==> v + Range(min, x - 1) == v
  {
  }

  /** A new bitset with the values of a run list. */
  method BitsetFromRun(r: RunContainer) returns (b: BitsetContainer)
    requires r.Valid()
    ensures fresh(b) && fresh(b.words) && b.Is(r.Contents())
  {
    hide Canonical, Values, Positions;
    b := new BitsetContainer();
    ghost var s := r.view;
    r.Buffer();
    NoRuns(s);
    for i := 0 to r.nRuns
      invariant fresh(b) && fresh(b.words)
      invariant r.Rep() && r.nRuns == |s| && b.Is(Values(s[..i]))
    {
      NextRun(s, i);
      AddEach(b, r.At(i).value, r.At(i).value + r.At(i).length);
    }
  }

  lemma NoRuns(s: seq<Rle>)
    ensures Values(s[..0]) == {} && s[..|s|] == s
  {
  }

  lemma NextRun(s: seq<Rle>, i: nat)
    requires Canonical(s) && i < |s|
    ensures Last(s[i]) <= 0xFFFF
    ensures Values(s[..i + 1]) == Values(s[..i]) + Range(s[i].value, Last(s[i]))
  {
    RunBounds(s, i, i);
    CanonicalPrefix(s, i + 1);
    assert s[..i + 1][..i] == s[..i];
    AddLast(s[..i + 1]);
  }

  method BitsetFromRunRange(r: RunContainer, min: U16, max: U16) returns (b: BitsetContainer)
    requires r.Valid() && min <= max
    ensures fresh(b) && fresh(b.words) && b.Is(r.Contents() + Range(min, max))
  {
    b := BitsetFromRun(r);
    AddEach(b, min, max);
  }

  /** A new array with the values of a bitset. */
  method ArrayFromBitset(b: BitsetContainer) returns (a: ArrayContainer)
    requires b.Valid()
    ensures fresh(a) && fresh(a.data) && a.Is(b.Contents())
  {
    hide Has;
    ghost var s := b.words[..];
    a := new ArrayContainer(b.cardinality);
    for x := 0 to 0x1_0000
      invariant fresh(a) && fresh(a.data) && b.Valid() && b.words[..] == s
      invariant a.Is(Positions(s, 0, x))
    {
      var present := b.Get(x);
      assert Positions(s, 0, x + 1) == Positions(s, 0, x) + if Has(s, x) then {x} else {};
      if present {
        assert forall i :: 0 <= i < |a.view| ==> a.view[i] as int in Elements(a.view);
        a.Append(x);
      }
    }
  }

  // ---- range union ----------------------------------------------------------------------------------

  /** Adds [min, max]; the container may be replaced by one of another kind. */
  method AddRange(c: Container, ghost v: set<int>, min: U32, max: U32) returns (r: Container)
    requires c.Is(v) && min <= max <= 0xFFFF
    modifies c.Footprint()
    ensures r.Is(v + Range(min, max))
    ensures c.BitsetC? ==> if |v + Range(min, max)| == 0x1_0000 then r.RunC? else r == c
    ensures c.ArrayC? ==>
      if |v + Range(min, max)| == 0x1_0000 then r.RunC?
      else if 2 * |v + Range(min, max)| <= 8192 then r == c
      else r.BitsetC?
    ensures c.RunC? ==> r == c || r.BitsetC?
    ensures c.RunC? ==> (r == c <==> forall s :: Denotes(s, v + Range(min, max)) ==> 4 * |s| <= 8192)
    ensures if r == c then fresh(r.Footprint() - old(c.Footprint())) else fresh(r.Footprint())
  {
    match c
    case BitsetC(bitset) => r := AddRangeBitset(bitset, min, max);
    case ArrayC(arr) => r := AddRangeArray(arr, min, max);
    case RunC(run) => r := AddRangeRun(run, min, max);
  }

  /** A new run container for a set of all 65536 values. */
  method FullRunContainer(ghost w: set<int>) returns (r: Container)
    requires |w| == 0x1_0000 && forall x :: x in w ==> 0 <= x <= 0xFFFF
    ensures r.Is(w) && r.RunC? && fresh(r.Footprint())
  {
    FullSet(w);
    var full := new RunContainer.CreateRange(0, 0x1_0000);
    return RunC(full);
  }

  lemma FullSet(w: set<int>)
    requires |w| == 0x1_0000 && forall x :: x in w ==> 0 <= x <= 0xFFFF
    ensures w == Range(0, 0xFFFF)
  {
    RangeSize(0, 0xFFFF);
    SubsetSize(w, Range(0, 0xFFFF));
  }

  method AddRangeBitset(bitset: BitsetContainer, min: U32, max: U32) returns (r: Container)
    requires bitset.Valid() && min <= max <= 0xFFFF
    modifies bitset, bitset.words
    ensures var w := old(bitset.Contents()) + Range(min, max);
      && r.Is(w)
      && if |w| == 0x1_0000 then r.RunC? && fresh(r.Footprint())
         else r == BitsetC(bitset)
  {
    hide Count, Ranged, Members;
    ghost var s := bitset.words[..];
    InclusionExclusion(s, min, max + 1);
    MembersBounded(s);
    var unionCardinality := 0;
    unionCardinality := unionCardinality + bitset.cardinality;
    unionCardinality := unionCardinality + max - min + 1;
    var inside := LenRangeCardinality(bitset.words, min, max - min);
    unionCardinality := unionCardinality - inside;
    if unionCardinality == 0x1_0000 {
      r := FullRunContainer(Members(s) + Range(min, max));
    } else {
      SetLenRange(bitset.words, min, max - min);
      SetMembers(s, bitset.words[..], min, max + 1);
      bitset.cardinality := unionCardinality;
      r := BitsetC(bitset);
    }
  }

  method AddRangeArray(arr: ArrayContainer, min: U32, max: U32) returns (r: Container)
    requires arr.Valid() && min <= max <= 0xFFFF
    modifies arr, arr.data
    ensures var w := old(arr.Contents()) + Range(min, max);
      && r.Is(w)
      && if |w| == 0x1_0000 then r.RunC? && fresh(r.Footprint())
         else if 2 * |w| <= 8192 then r == ArrayC(arr) && (arr.data == old(arr.data) || fresh(arr.data))
         else r.BitsetC? && fresh(r.Footprint())
  {
    hide Members, Count, SplitsAt, Increasing, Elements, Values;
    ghost var v := arr.Contents();
    arr.Buffer();
    var nLess, nGreater := arr.CountAround(min, max);
    var unionCardinality := nLess + (max - min + 1) + nGreater;
    UnionSizeByCounts(arr.view, nLess, |arr.view| - nGreater, min, max);
    if unionCardinality == 0x1_0000 {
      ElementsBounded(arr.view);
      r := FullRunContainer(v + Range(min, max));
    } else if unionCardinality <= DEFAULT_MAX_SIZE {
      arr.AddRangeNvals(min, max, nLess, nGreater);
      r := ArrayC(arr);
    } else {
      var bitset := BitsetFromArrayRange(arr, min, max, unionCardinality);
      r := BitsetC(bitset);
    }
  }

  /** A new bitset with the values of an array and a range, whose number is known. */
  method BitsetFromArrayRange(arr: ArrayContainer, min: U16, max: U16, card: nat) returns (bitset: BitsetContainer)
    requires arr.Valid() && min <= max && card == |arr.Contents() + Range(min, max)|
    ensures fresh(bitset) && fresh(bitset.words) && bitset.Is(arr.Contents() + Range(min, max))
  {
    hide Ranged, Members, Elements;
    bitset := BitsetFromArray(arr);
    ghost var s := bitset.words[..];
    SetLenRange(bitset.words, min, max - min);
    SetMembers(s, bitset.words[..], min, max + 1);
    bitset.cardinality := card;
  }

  lemma ElementsBounded(s: seq<U16>)
    ensures forall x :: x in Elements(s) ==> 0 <= x <= 0xFFFF
  {
  }

  /** The size of the union from the number of values below and above the range. */
  lemma UnionSizeByCounts(s: seq<U16>, p: nat, q: nat, min: U16, max: U16)
    requires Increasing(s) && SplitsAt(s, p, min) && SplitsAt(s, q, max + 1) && min <= max
    ensures p <= q <= |s|
    ensures |Elements(s) + Range(min, max)| == p + (max - min + 1) + (|s| - q)
    ensures |Elements(s) - Range(min, max)| == p + (|s| - q)
  {
    assert p <= q by { assert q < |s| ==> s[q] >= max + 1; }
    Filled(s, p, q, min, max, Ramp(min, max));
    DistinctCount(s[..p] + Ramp(min, max) + s[q..]);
    Replaced(s, p, q, min, max);
    DistinctCount(s[..p] + s[q..]);
  }

  method AddRangeRun(run: RunContainer, min: U32, max: U32) returns (r: Container)
    requires run.Valid() && min <= max <= 0xFFFF
    modifies run, run.runs
    ensures var w := old(run.Contents()) + Range(min, max);
      && r.Is(w)
      && (r == RunC(run) || (r.BitsetC? && fresh(r.Footprint())))
      && (r == RunC(run) ==> run.runs == old(run.runs) || fresh(run.runs))
      && (r == RunC(run) <==> forall s :: Denotes(s, w) ==> 4 * |s| <= 8192)
  {
    hide Canonical, Values, Merging, Has, Positions;
    ghost var s := run.view;
    var nLess, nGreater := run.CountAround(min, max);
    JoinCount(s, nLess, |s| - nGreater, min, max);
    var runSizeBytes := (nLess + 1 + nGreater) * 4;
    var bitsetSizeBytes := SIZE_IN_WORDS * 8;
    if runSizeBytes <= bitsetSizeBytes {
      run.AddRangeNruns(min, max, nLess, nGreater);
      r := RunC(run);
    } else {
      var b := BitsetFromRunRange(run, min, max);
      r := BitsetC(b);
    }
  }

  /** Every canonical list of the union has the length the counts predict. */
  lemma JoinCount(s: seq<Rle>, a: nat, b: nat, min: U16, max: U16)
    requires Canonical(s) && Merging(s, a, b, min, max) && min <= max
    ensures exists t :: Denotes(t, Values(s) + Range(min, max))
    ensures forall t :: Denotes(t, Values(s) + Range(min, max)) ==> |t| == a + 1 + (|s| - b)
  {
    Join(s, a, b, min, max);
    var u := Splice(s, a, b, [Union(s, a, b, min, max)]);
    forall t | Denotes(t, Values(s) + Range(min, max)) ensures t == u {
      CanonicalUnique(t, u);
    }
  }

  // ---- range difference -------------------------------------------------------------------------------

  /** Removes [min, max]; `None` (a null pointer) exactly when nothing is left. */
  method RemoveRange(c: Container, ghost v: set<int>, min: U32, max: U32) returns (r: Option<Container>)
    requires c.Is(v) && min <= max <= 0xFFFF
    modifies c.Footprint()
    ensures r.None? <==> v - Range(min, max) == {}
    ensures r.Some? ==> r.value.Is(v - Range(min, max))
    ensures r.Some? && c.BitsetC? ==>
      if 2 * |v - Range(min, max)| < 8192 then r.value.ArrayC? else r.value == c
    ensures r.Some? && c.ArrayC? ==> r.value == c
    ensures r.Some? && c.RunC? ==> r.value == c || r.value.BitsetC?
    ensures r.Some? && c.RunC? ==>
      (r.value == c <==> forall s :: Denotes(s, v - Range(min, max)) ==> 2 + 4 * |s| <= 8192)
    ensures r.Some? ==>
      if r.value == c then fresh(r.value.Footprint() - old(c.Footprint())) else fresh(r.value.Footprint())
  {
    match c
    case BitsetC(bitset) => r := RemoveRangeBitset(bitset, min, max);
    case ArrayC(arr) => r := RemoveRangeArray(arr, min, max);
    case RunC(run) => r := RemoveRangeRun(run, min, max);
  }

  method RemoveRangeBitset(bitset: BitsetContainer, min: U32, max: U32) returns (r: Option<Container>)
    requires bitset.Valid() && min <= max <= 0xFFFF
    modifies bitset, bitset.words
    ensures r.None? <==> old(bitset.Contents()) - Range(min, max) == {}
    ensures r.Some? ==> r.value.Is(old(bitset.Contents()) - Range(min, max))
    ensures r.Some? ==>
      if 2 * |old(bitset.Contents()) - Range(min, max)| < 8192 then r.value.ArrayC? && fresh(r.value.Footprint())
      else r.value == BitsetC(bitset)
  {
    hide Count, Ranged, Members;
    ghost var s := bitset.words[..];
    InclusionExclusion(s, min, max + 1);
    var inside := LenRangeCardinality(bitset.words, min, max - min);
    var resultCardinality := bitset.cardinality - inside;
    if resultCardinality == 0 {
      return None;
    }
    ResetRange(bitset.words, min, max + 1);
    ResetMembers(s, bitset.words[..], min, max + 1);
    bitset.cardinality := resultCardinality;
    if resultCardinality < DEFAULT_MAX_SIZE {
      var a := ArrayFromBitset(bitset);
      return Some(ArrayC(a));
    } else {
      return Some(BitsetC(bitset));
    }
  }

  method RemoveRangeArray(arr: ArrayContainer, min: U32, max: U32) returns (r: Option<Container>)
    requires arr.Valid() && min <= max <= 0xFFFF
    modifies arr, arr.data
    ensures var w := old(arr.Contents()) - Range(min, max);
      && (r.None? <==> w == {})
      && (r.Some? ==> r.value == ArrayC(arr) && arr.Is(w) && arr.data == old(arr.data))
  {
    hide SplitsAt, Increasing;
    arr.Buffer();
    var nLess, nGreater := arr.CountAround(min, max);
    var resultCardinality := nLess + nGreater;
    UnionSizeByCounts(arr.view, nLess, |arr.view| - nGreater, min, max);
    Replaced(arr.view, nLess, |arr.view| - nGreater, min, max);
    if resultCardinality == 0 {
      return None;
    }
    arr.DropEntries(nLess, arr.cardinality - resultCardinality);
    return Some(ArrayC(arr));
  }

  method RemoveRangeRun(run: RunContainer, min: U32, max: U32) returns (r: Option<Container>)
    requires run.Valid() && min <= max <= 0xFFFF
    modifies run, run.runs
    ensures r.None? <==> old(run.Contents()) - Range(min, max) == {}
    ensures r.Some? ==> r.value.Is(old(run.Contents()) - Range(min, max))
    ensures r.Some? ==> r.value == RunC(run) || (r.value.BitsetC? && fresh(r.value.Footprint()))
    ensures r.Some? && r.value == RunC(run) ==> run.runs == old(run.runs) || fresh(run.runs)
    ensures r.Some? ==>
      (r.value == RunC(run) <==> forall s :: Denotes(s, old(run.Contents()) - Range(min, max)) ==> 2 + 4 * |s| <= 8192)
  {
    hide Denotes, Values, RunContainer.Rep, Container.Is;
    ghost var w := run.Contents() - Range(min, max);
    var gone := CoversAll(run, min, max);
    if gone {
      return None;
    }
    run.RemoveRange(min, max);
    var c := RunOrBitset(run, w);
    return Some(c);
  }

  /** Whether [min, max] covers every value, judged by the least and the greatest one. */
  method CoversAll(run: RunContainer, min: U16, max: U16) returns (b: bool)
    requires run.Valid()
    ensures b <==> run.Contents() - Range(min, max) == {}
  {
    hide Canonical, Values;
    ghost var v := run.Contents();
    run.Buffer();
    EmptyList(run.view);
    if run.nRuns == 0 {
      return true;
    }
    var lo := run.Minimum();
    var hi := run.Maximum();
    CoveredByEnds(v, lo, hi, min, max);
    return min <= lo && max >= hi;
  }

  lemma CoveredByEnds(v: set<int>, lo: int, hi: int, min: int, max: int)
    requires lo in v && hi in v && forall x :: x in v ==> lo <= x <= hi
    ensures v - Range(min, max) == {} <==> min <= lo && max >= hi
  {
    if v - Range(min, max) == {} {
      assert lo !in v - Range(min, max) && hi !in v - Range(min, max);
    }
  }

  /** Keeps a run container that is no larger than a bitset, or else makes it one. */
  method RunOrBitset(run: RunContainer, ghost w: set<int>) returns (c: Container)
    requires run.Is(w)
    ensures c.Is(w)
    ensures c == RunC(run) || (c.BitsetC? && fresh(c.Footprint()))
    ensures c == RunC(run) <==> forall s :: Denotes(s, w) ==> 2 + 4 * |s| <= 8192
  {
    hide Canonical, Values;
    assert Denotes(run.view, w);
    UniqueLength(run.view, w);
    if 2 + 4 * run.nRuns <= SIZE_IN_WORDS * 8 {
      return RunC(run);
    }
    var b := BitsetFromRun(run);
    return BitsetC(b);
  }

  /** Adding a range and then removing it leaves the old set without the range, whatever changes
      of representation the two calls make. */
  method AddThenRemove(c: Container, ghost v: set<int>, min: U32, max: U32) returns (r: Option<Container>)
    requires c.Is(v) && min <= max <= 0xFFFF
    modifies c.Footprint()
    ensures r.None? <==> v <= Range(min, max)
    ensures r.Some? ==> r.value.Is(v - Range(min, max)) && fresh(r.value.Footprint() - old(c.Footprint()))
  {
    hide Container.Is, Denotes;
    var full := AddRange(c, v, min, max);
    r := RemoveRange(full, v + Range(min, max), min, max);
    WithAndWithout(v, Range(min, max));
  }

  lemma WithAndWithout<T>(v: set<T>, w: set<T>)
    ensures v + w - w == v - w && (v - w == {} <==> v <= w)
  {
    if v - w == {} { assert forall x :: x in v && x !in w ==> x in v - w; }
  }

  lemma EmptyList(s: seq<Rle>)
    requires Canonical(s)
    ensures s == [] <==> Values(s) == {}
  {
    if s != [] { HeadBounds(s); }
  }

  lemma UniqueLength(u: seq<Rle>, w: set<int>)
    requires Denotes(u, w)
    ensures forall t :: Denotes(t, w) ==> |t| == |u|
  {
    forall t | Denotes(t, w) ensures t == u { CanonicalUnique(t, u); }
  }
}
