/** The retired function-based bitwise search: every odd integer between
    2^length and 2^(length + 1) is a ruler with both end dots, the shift-AND
    test keeps the measuring ones, and a running minimum of the popcount
    keeps those with the fewest dots. */
module BitOld {
  import opened Wrappers
  import opened Bits
  import opened Seqs
  import opened Rulers
  import BitBased

  /** n_dots_in_bit_combo: test each power of two up to the value with a
      bitwise AND and count the hits. A negative value has no power of two
      below it, so it counts zero. */
  method NDotsInBitCombo(bitsInt: int) returns (nDots: nat)
    ensures bitsInt >= 0 ==> nDots == Pop(bitsInt)
    ensures bitsInt < 0 ==> nDots == 0
  {
    nDots := 0;
    var bitPosition: nat := 0;
    var bitValue: nat := Pow2(bitPosition);
    while bitsInt >= bitValue
      invariant bitValue == Pow2(bitPosition)
      invariant bitsInt >= 0 ==> nDots + Pop(Shr(bitsInt, bitPosition)) == Pop(bitsInt)
      invariant bitsInt < 0 ==> nDots == 0
      decreases bitsInt - bitValue
    {
      var rest := Shr(bitsInt, bitPosition);
      assert Pop(rest) == (if HasBit(bitsInt, bitPosition) then 1 else 0) + Pop(Shr(bitsInt, bitPosition + 1)) by {
        ShrBit(bitsInt, bitPosition, 0);
        ShrStep(bitsInt, bitPosition);
      }
      AndPow2(bitsInt, bitPosition);
      if And(bitsInt, bitValue) != 0 {
        nDots := nDots + 1;
      }
      bitPosition := bitPosition + 1;
      bitValue := Pow2(bitPosition);
    }
    if bitsInt >= 0 {
      ShrPositive(bitsInt, bitPosition);
    }
  }

  /** range(lo, hi, 2): lo, lo + 2, ... while below hi. */
  function StepRange(lo: nat, hi: int): (r: seq<nat>)
    ensures forall x :: x in r <==> lo <= x < hi && (x - lo) % 2 == 0
    ensures Increasing(r)
    decreases hi - lo
  {
    if hi <= lo then []
    else
      var rest := StepRange(lo + 2, hi);
      IncreasingAppend([lo], rest);
      [lo] + rest
  }

  /** possible_bit_combos: the odd integers from 2^length + 1 up to
      2^(length + 1). A negative length makes 2 ** (length - 1 + 1) a float,
      which range() refuses. */
  function PossibleBitCombos(length: int): (r: Result<seq<nat>>)
    ensures r.Failure? <==> length < 0
    ensures r.Failure? ==> r.error == FloatRange
  {
    if length < 0 then Failure(FloatRange)
    else Success(StepRange(Pow2(length) + 1, Pow2(length + 1)))
  }

  /** For a positive length these are exactly the combos of length + 1
      positions with both end dots, ascending; for length 0 there are none. */
  lemma PossibleBitCombosMembers(length: nat)
    ensures length == 0 ==> PossibleBitCombos(length).value == []
    ensures length >= 1 ==> forall x: nat ::
      x in PossibleBitCombos(length).value <==> x < Pow2(length + 1) && Spans(x, length)
    ensures Increasing(PossibleBitCombos(length).value)
  {
    var d := length;
    if d >= 1 {
      assert Pow2(d) % 2 == 0;
      forall x: nat
        ensures x in PossibleBitCombos(d).value <==> x < Pow2(d + 1) && Spans(x, d)
      {
        if x < Pow2(d + 1) {
          TopBit(x, d);
        }
      }
    }
  }

  /** bit_combo_measures: the shift-AND test for every spacing 1 through
      length, returning False at the first that fails. */
  method BitComboMeasures(bitsInt: nat, length: int) returns (b: bool)
    ensures b <==> Measures(bitsInt, length)
  {
    // range(1, length + 1) is empty when length < 1
    var stop := if length >= 1 then length + 1 else 1;
    for distance := 1 to stop
      invariant forall s: nat :: 1 <= s < distance ==> ShiftAnd(bitsInt, s)
    {
      var bitsIntShifted := Shr(bitsInt, distance);
      if And(bitsInt, bitsIntShifted) == 0 {
        assert !ShiftAnd(bitsInt, distance);
        return false;
      }
    }
    return true;
  }

  /** good_bit_combos: the possible combos that measure every length. */
  function GoodBitCombos(length: int): (r: Result<seq<nat>>)
    ensures r.Failure? <==> length < 0
    ensures r.Failure? ==> r.error == FloatRange
  {
    var possible :- PossibleBitCombos(length);
    Success(BitBased.MeasuringOnly(possible, length))
  }

  /** Exactly the combos of length + 1 positions that measure every length
      through length (they have both end dots of themselves), ascending. */
  lemma GoodBitCombosMembers(length: nat)
    ensures forall x: nat :: x in GoodBitCombos(length).value <==>
      length >= 1 && x < Pow2(length + 1) && Measures(x, length)
    ensures Increasing(GoodBitCombos(length).value)
  {
    PossibleBitCombosMembers(length);
    BitBased.MeasuringOnlyIncreasing(PossibleBitCombos(length).value, length);
    if length >= 1 {
      forall x: nat | x < Pow2(length + 1) && Measures(x, length)
        ensures Spans(x, length)
      {
        MeasuresSpans(x, length);
      }
    }
  }

  /** The test for "has exactly k dots". */
  function WithDots(k: int): nat -> bool
  {
    (x: nat) => Pop(x) == k
  }

  /** best_bit_combos: one pass over the good combos with a running
      minimum of the dot count, appending a combo that ties it and starting
      over at a combo that beats it. The combos kept are the rulers the
      escalating bitwise search finds. */
  method BestBitCombos(length: int) returns (r: Result<seq<nat>>)
    ensures r.Failure? <==> length < 0
    ensures r.Failure? ==> r.error == FloatRange
    ensures length >= 0 ==> r == Success(BitBased.Best(length))
  {
    var good :- GoodBitCombos(length);
    var bestCombosYet: seq<nat> := [];
    var fewestDotsYet := length + 1;
    for i := 0 to |good|
      invariant bestCombosYet == Filter(WithDots(fewestDotsYet), good[..i])
      invariant forall k :: 0 <= k < i ==> fewestDotsYet <= Pop(good[k])
      invariant fewestDotsYet == length + 1 || bestCombosYet != []
    {
      var bc := good[i];
      var dotsInBc := NDotsInBitCombo(bc);
      assert dotsInBc == Pop(good[i]);
      assert good[..i + 1] == good[..i] + [bc];
      if dotsInBc == fewestDotsYet {
        FilterSnoc(WithDots(fewestDotsYet), good[..i], bc);
        bestCombosYet := bestCombosYet + [bc];
      } else if dotsInBc < fewestDotsYet {
        forall x | x in good[..i]
          ensures !WithDots(dotsInBc)(x)
        {
          var k :| 0 <= k < i && good[k] == x;
        }
        FilterNone(WithDots(dotsInBc), good[..i]);
        FilterSnoc(WithDots(dotsInBc), good[..i], bc);
        fewestDotsYet := dotsInBc;
        bestCombosYet := [bc];
      } else {
        FilterSnoc(WithDots(fewestDotsYet), good[..i], bc);
      }
      assert fewestDotsYet <= dotsInBc;
      forall k | 0 <= k < i + 1
        ensures fewestDotsYet <= Pop(good[k])
      {
      }
    }
    assert good[..|good|] == good;
    r := Success(bestCombosYet);
    BestIsOptimal(length, good, fewestDotsYet, bestCombosYet);
  }

  /** The combos of the minimum's dot count, after the pass, are the rulers
      of BitBased.Best. */
  lemma BestIsOptimal(length: nat, good: seq<nat>, fewest: int, best: seq<nat>)
    requires good == GoodBitCombos(length).value
    requires best == Filter(WithDots(fewest), good)
    requires forall k :: 0 <= k < |good| ==> fewest <= Pop(good[k])
    requires fewest == length + 1 || best != []
    ensures best == BitBased.Best(length)
  {
    BitBased.BestOptimal(length);
    assert Increasing(best) by {
      GoodBitCombosMembers(length);
      FilterIncreasing(WithDots(fewest), good);
    }
    forall x: nat
      ensures x in best <==> x in BitBased.Best(length)
    {
      if x in best {
        KeptIsOptimal(length, good, fewest, best, x);
      }
      if length >= 1 && BitBased.Optimal(x, length) {
        OptimalIsKept(length, good, fewest, best, x);
      }
    }
    SortedUnique(best, BitBased.Best(length));
  }

  lemma KeptIsOptimal(length: nat, good: seq<nat>, fewest: int, best: seq<nat>, x: nat)
    requires good == GoodBitCombos(length).value
    requires best == Filter(WithDots(fewest), good)
    requires forall k :: 0 <= k < |good| ==> fewest <= Pop(good[k])
    requires x in best
    ensures length >= 1 && BitBased.Optimal(x, length)
  {
    GoodBitCombosMembers(length);
    FilterMembers(WithDots(fewest), good, x);
    forall y: nat | y < Pow2(length + 1) && Measures(y, length)
      ensures Pop(x) <= Pop(y)
    {
      var k :| 0 <= k < |good| && good[k] == y;
    }
  }

  lemma OptimalIsKept(length: nat, good: seq<nat>, fewest: int, best: seq<nat>, x: nat)
    requires good == GoodBitCombos(length).value
    requires best == Filter(WithDots(fewest), good)
    requires forall k :: 0 <= k < |good| ==> fewest <= Pop(good[k])
    requires fewest == length + 1 || best != []
    requires length >= 1 && BitBased.Optimal(x, length)
    ensures x in best
  {
    GoodBitCombosMembers(length);
    FilterMembers(WithDots(fewest), good, x);
    var k :| 0 <= k < |good| && good[k] == x;
    if fewest == length + 1 {
      PopBound(x, length + 1);
    } else {
      var z := best[0];
      FilterMembers(WithDots(fewest), good, z);
    }
  }
}
