/** The original tuple-based search, module-level functions: every dot
    count from 2 to length + 1 through itertools.combinations, keeping the
    tuples with both ends, then the measuring ones, then those of the size
    of the first. */
module IterOld {
  import opened Wrappers
  import opened Seqs
  import opened Rulers
  import opened Tuples
  import opened IterBased
  import BitBased

  /** distances_covered: the nested loops over pairs of points, collecting
      every positive difference. */
  method DistancesCovered(points: seq<int>) returns (distances: set<int>)
    ensures distances == Differences(points)
  {
    distances := {};
    for a := 0 to |points|
      invariant distances == set i, j | 0 <= i < a && 0 <= j < |points| && points[j] - points[i] > 0 :: points[j] - points[i]
    {
      for b := 0 to |points|
        invariant distances == (set i, j | 0 <= i < a && 0 <= j < |points| && points[j] - points[i] > 0 :: points[j] - points[i]) +
          (set j | 0 <= j < b && points[j] - points[a] > 0 :: points[j] - points[a])
      {
        if points[b] - points[a] > 0 {
          distances := distances + {points[b] - points[a]};
        }
      }
    }
  }

  /** Whether a tuple holds both ends of a ruler of the given length. */
  function HasEnds(length: int): seq<int> -> bool
  {
    c => 0 in c && length in c
  }

  /** combos_with_n_dots: the ndots-entry tuples over 0..length that hold
      both ends, in lexicographic order. */
  function CombosWithNDots(length: int, ndots: int): (r: Result<seq<seq<int>>>)
    ensures length < 1 ==> r == Failure(LengthTooSmall)
    ensures length >= 1 && ndots < 2 ==> r == Failure(TooFewDots)
    ensures r.Success? <==> length >= 1 && ndots >= 2
  {
    if length < 1 then Failure(LengthTooSmall)
    else if ndots < 2 then Failure(TooFewDots)
    else Success(Filter(HasEnds(length), Choose(Range(0, length + 1), ndots)))
  }

  lemma {:induction false} FilterLexSorted(keep: seq<int> -> bool, items: seq<seq<int>>)
    requires LexSorted(items)
    ensures LexSorted(Filter(keep, items))
    decreases |items|
  {
    if items != [] {
      var rest := Filter(keep, items[1..]);
      FilterLexSorted(keep, items[1..]);
      forall y | y in rest
        ensures LexLess(items[0], y)
      {
        FilterMembers(keep, items[1..], y);
        var j :| 0 <= j < |items[1..]| && items[1..][j] == y;
        assert items[j + 1] == y;
      }
    }
  }

  /** The tuples listed are exactly the span tuples of ndots entries, each
      once, in strictly increasing lexicographic order. */
  lemma CombosWithNDotsMembers(length: int, ndots: int, t: seq<int>)
    requires length >= 1 && ndots >= 2
    ensures t in CombosWithNDots(length, ndots).value <==> |t| == ndots && SpanTuple(t, length)
  {
    var vals := Range(0, length + 1);
    ChooseMembers(vals, ndots, t);
    FilterMembers(HasEnds(length), Choose(vals, ndots), t);
    forall x
      ensures x in vals <==> 0 <= x <= length
    {
      if 0 <= x <= length {
        assert vals[x] == x;
      }
    }
  }

  /** They come in strictly increasing lexicographic order. */
  lemma CombosWithNDotsSorted(length: int, ndots: int)
    requires length >= 1 && ndots >= 2
    ensures LexSorted(CombosWithNDots(length, ndots).value)
  {
    var vals := Range(0, length + 1);
    ChooseLexSorted(vals, ndots);
    FilterLexSorted(HasEnds(length), Choose(vals, ndots));
  }

  /** What possible_combos returns: a stream of tuples, or, for length 0 or
      less, an iterator over the bare integer 0. */
  datatype Possible = Stream(combos: seq<seq<int>>) | BareZero

  /** The tuples with k + 1 dots, one link of the chain. */
  function Layer(length: int, k: nat): seq<seq<int>>
  {
    match CombosWithNDots(length, k + 1)
    case Success(v) => v
    case Failure(_) => []
  }

  lemma LayerMembers(length: int, k: nat, t: seq<int>)
    requires length >= 1 && k >= 1
    ensures t in Layer(length, k) <==> |t| == k + 1 && SpanTuple(t, length)
  {
    CombosWithNDotsMembers(length, k + 1, t);
  }

  /** itertools.chain over layers 1 through count, in that order. */
  function Stack(layer: nat -> seq<seq<int>>, count: nat): seq<seq<int>>
  {
    if count == 0 then [] else Stack(layer, count - 1) + layer(count)
  }

  /** When layer k holds exactly the tuples of k + 1 entries that pass a
      test, the stack of layers 1 through count holds exactly the tuples of
      2 through count + 1 entries that pass it. */
  lemma {:induction false} StackMembers(layer: nat -> seq<seq<int>>, count: nat, t: seq<int>, pass: bool)
    requires forall k :: 1 <= k <= count ==> (t in layer(k) <==> |t| == k + 1 && pass)
    ensures t in Stack(layer, count) <==> 2 <= |t| <= count + 1 && pass
  {
    if count > 0 {
      StackMembers(layer, count - 1, t, pass);
      assert Stack(layer, count) == Stack(layer, count - 1) + layer(count);
    }
  }

  /** The span tuples with 2 through count + 1 dots, fewest dots first. */
  function Chain(length: int, count: nat): seq<seq<int>>
    requires length >= 1
  {
    Stack((k: nat) => Layer(length, k), count)
  }

  lemma ChainMembers(length: int, count: nat, t: seq<int>)
    requires length >= 1
    ensures t in Chain(length, count) <==> 2 <= |t| <= count + 1 && SpanTuple(t, length)
  {
    var layer := (k: nat) => Layer(length, k);
    forall k | 1 <= k <= count
      ensures t in layer(k) <==> |t| == k + 1 && SpanTuple(t, length)
    {
      LayerMembers(length, k, t);
    }
    StackMembers(layer, count, t, SpanTuple(t, length));
  }

  /** Stacking layers whose tuples all have k + 1 entries gives a stream
      ordered by size, none longer than count + 1. */
  lemma {:induction false} StackSorted(layer: nat -> seq<seq<int>>, count: nat)
    requires forall k, j :: 1 <= k <= count && 0 <= j < |layer(k)| ==> |layer(k)[j]| == k + 1
    ensures LengthSorted(Stack(layer, count))
    ensures forall i :: 0 <= i < |Stack(layer, count)| ==> |Stack(layer, count)[i]| <= count + 1
  {
    if count > 0 {
      var front, back := Stack(layer, count - 1), layer(count);
      StackSorted(layer, count - 1);
      assert Stack(layer, count) == front + back;
      AppendLengthSorted(front, back, count + 1);
      var all := front + back;
      forall i | 0 <= i < |all|
        ensures |all[i]| <= count + 1
      {
        if i >= |front| {
          assert all[i] == back[i - |front|];
        }
      }
    }
  }

  /** Every tuple of layer k has k + 1 dots. */
  lemma LayerLengths(length: int, k: nat, j: nat)
    requires length >= 1 && k >= 1 && j < |Layer(length, k)|
    ensures |Layer(length, k)[j]| == k + 1
  {
    LayerMembers(length, k, Layer(length, k)[j]);
  }

  lemma ChainSorted(length: int, count: nat)
    requires length >= 1
    ensures LengthSorted(Chain(length, count))
  {
    var layer := (k: nat) => Layer(length, k);
    forall k, j | 1 <= k <= count && 0 <= j < |layer(k)|
      ensures |layer(k)[j]| == k + 1
    {
      LayerLengths(length, k, j);
    }
    StackSorted(layer, count);
  }

  /** possible_combos: for a positive length, the tuples of every dot count
      2 through length + 1 chained together, fewest dots first. */
  function PossibleCombos(length: int): (r: Possible)
    ensures r.Stream? <==> length > 0
  {
    if length > 0 then Stream(Chain(length, length)) else BareZero
  }

  /** For a positive length, exactly the span tuples, smallest first. */
  lemma PossibleCombosMembers(length: int, t: seq<int>)
    requires length > 0
    ensures t in PossibleCombos(length).combos <==> SpanTuple(t, length)
    ensures LengthSorted(PossibleCombos(length).combos)
  {
    ChainMembers(length, length, t);
    ChainSorted(length, length);
    if SpanTuple(t, length) {
      SpanTupleShape(t, length);
      IncreasingSpread(t, |t| - 1);
    }
  }

  /** combo_measures: whether the points measure every distance 1 through
      length. */
  function ComboMeasures(points: seq<int>, length: int): (b: bool)
    ensures b <==> forall m :: 1 <= m <= length ==> Apart(points, m)
  {
    DifferencesMembers(points);
    CoversUpTo(points, length)
  }

  /** The plain-words test on the positions of a combo agrees with the
      bitwise shift-AND test. */
  lemma ComboMeasuresBits(c: nat, length: int)
    ensures ComboMeasures(Positions(c), length) == Measures(c, length)
  {
    MeasuresCovers(c, length);
  }

  /** The test good_combos applies: a dot one place in from an end, then
      the full measure. */
  function Hopeful(length: int): seq<int> -> bool
  {
    c => (1 in c || (length - 1) in c) && ComboMeasures(c, length)
  }

  /** good_combos: the measuring tuples of possible_combos. For length 0 or
      less the stream is the bare integer 0, and testing 1 in 0 raises. */
  function GoodCombos(length: int): (r: Result<seq<seq<int>>>)
    ensures r.Failure? <==> length <= 0
    ensures r.Failure? ==> r.error == NotIterable
  {
    match PossibleCombos(length)
    case BareZero => Failure(NotIterable)
    case Stream(combos) => Success(Filter(Hopeful(length), combos))
  }

  /** For a positive length, exactly the good tuples, smallest first: the
      near-end prefilter drops none of them. */
  lemma GoodCombosMembers(length: int)
    requires length > 0
    ensures forall t :: t in GoodCombos(length).value <==> GoodTuple(t, length)
    ensures LengthSorted(GoodCombos(length).value)
  {
    forall t
      ensures t in GoodCombos(length).value <==> GoodTuple(t, length)
    {
      PossibleCombosMembers(length, t);
      FilterMembers(Hopeful(length), PossibleCombos(length).combos, t);
      DifferencesMembers(t);
      if GoodTuple(t, length) {
        NearEndKeepsGood(t, length);
      }
    }
    PossibleCombosMembers(length, []);
    FilterLengthSorted(Hopeful(length), PossibleCombos(length).combos);
  }

  /** best_combos: the leading tuples of good_combos that have no more
      dots than the first. They are the position tuples of exactly the
      rulers the bitwise search finds. */
  method BestCombos(length: int) returns (r: Result<seq<seq<int>>>)
    ensures r.Failure? <==> length <= 0
    ensures r.Failure? ==> r.error == NotIterable
    ensures r.Success? ==>
      RunEnd(GoodCombos(length).value, |r.value|) && r.value == GoodCombos(length).value[..|r.value|]
    ensures r.Success? ==> forall t :: t in r.value ==>
      BitsOf(t) in BitBased.Best(length) && Positions(BitsOf(t)) == t
    ensures r.Success? ==> forall x :: x in BitBased.Best(length) ==> Positions(x) in r.value
  {
    var hopeful :- GoodCombos(length);
    var results := KeepFewest(hopeful);
    r := Success(results);
    RunOfGoodIsBest(length, |results|);
  }

  /** The loop of best_combos: the first tuple's size is the fewest dots,
      tuples are kept until the first one with more dots than that. */
  method KeepFewest(hopeful: seq<seq<int>>) returns (results: seq<seq<int>>)
    ensures |results| <= |hopeful| && results == hopeful[..|results|]
    ensures hopeful != [] ==> |results| >= 1
    ensures forall k :: 0 <= k < |results| ==> |hopeful[k]| <= |hopeful[0]|
    ensures |results| < |hopeful| ==> |hopeful[|results|]| > |hopeful[0]|
  {
    results := [];
    var first := true;
    var minDots := 0;
    var i := 0;
    while i < |hopeful|
      invariant 0 <= i <= |hopeful| && results == hopeful[..i]
      invariant first <==> i == 0
      invariant !first ==> minDots == |hopeful[0]|
      invariant forall k :: 0 <= k < i ==> |hopeful[k]| <= minDots
    {
      var c := hopeful[i];
      if first {
        minDots := |c|;
        first := false;
      }
      if |c| > minDots {
        return;
      }
      results := results + [c];
      i := i + 1;
    }
  }

  /** The full ruler is good, so there is always a first tuple; the stream
      comes fewest dots first. */
  lemma GoodCombosShape(length: int)
    requires length > 0
    ensures |GoodCombos(length).value| > 0 && LengthSorted(GoodCombos(length).value)
  {
    GoodCombosMembers(length);
    FullRulerGood(length);
    assert Range(0, length + 1) in GoodCombos(length).value;
  }

  /** The leading run of the good tuples holds the positions of exactly the
      rulers the bitwise search finds. */
  lemma RunOfGoodIsBest(length: int, n: nat)
    requires length > 0 && n <= |GoodCombos(length).value|
    requires GoodCombos(length).value != [] ==> n >= 1
    requires forall k :: 0 <= k < n ==> |GoodCombos(length).value[k]| <= |GoodCombos(length).value[0]|
    requires n < |GoodCombos(length).value| ==> |GoodCombos(length).value[n]| > |GoodCombos(length).value[0]|
    ensures RunEnd(GoodCombos(length).value, n)
    ensures forall t :: t in GoodCombos(length).value[..n] ==>
      BitsOf(t) in BitBased.Best(length) && Positions(BitsOf(t)) == t
    ensures forall x :: x in BitBased.Best(length) ==> Positions(x) in GoodCombos(length).value[..n]
  {
    var good := GoodCombos(length).value;
    GoodCombosShape(length);
    assert RunEnd(good, n) by {
      forall k | 0 <= k < n
        ensures |good[k]| == |good[0]|
      {
        assert |good[0]| <= |good[k]|;
      }
    }
    GoodCombosMembers(length);
    BitBased.BestOptimal(length);
    RunIsBest(good, n, length, BitBased.Best(length));
  }
}
