/** The bitwise search for the best rulers of a given length: for each dot
    count from 2 upward, enumerate the combos with both end dots and keep
    those that measure every length; stop after the first dot count that
    yields any. */
module BitBased {
  import opened Wrappers
  import opened Bits
  import opened Seqs
  import opened Gospers
  import opened Rulers
  import opened Combinatorics

  // ---------------------------------------------------------------------
  // Generating combos

  /** Every combo of dotcount dots over distance + 1 positions, ascending,
      after the three argument checks of the original. */
  method BitCombosWithNDots(distance: int, dotcount: int) returns (r: Result<seq<nat>>)
    ensures distance < 0 ==> r == Failure(NegativeDistance)
    ensures distance >= 0 && dotcount < 0 ==> r == Failure(NegativeDotCount)
    ensures distance >= 0 && dotcount > distance + 1 ==> r == Failure(TooManyDots)
    ensures r.Success? <==> 0 <= distance && 0 <= dotcount <= distance + 1
    ensures r.Success? ==> r.value == BitCombos(distance + 1, dotcount)
  {
    if distance < 0 {
      return Failure(NegativeDistance);
    }
    if dotcount < 0 {
      return Failure(NegativeDotCount);
    }
    if dotcount > distance + 1 {
      return Failure(TooManyDots);
    }
    var combos := BitCombosGospers(distance + 1, dotcount);
    if dotcount == 0 {
      BitCombosNoDots(distance + 1);
    }
    return Success(combos);
  }

  /** An inner combo moved up one place, with dots added at 0 and at d. */
  function EndsSplice(c: nat, d: nat): nat
  {
    Or(Or(Shl(c, 1), 1), Shl(1, d))
  }

  /** The two ORs only add bits the shifted inner combo does not have. */
  lemma EndsSpliceValue(c: nat, d: nat)
    requires d >= 1 && c < Pow2(d - 1)
    ensures EndsSplice(c, d) == Pow2(d) + 2 * c + 1
  {
    OrDisjoint(c, 1, 1);
    var w := c * Pow2(1) + 1;
    var P := Pow2(d);
    PowerHalf(d);
    assert w == 2 * c + 1 < P;
    BitwiseSplit(OrOp, w, P, 0, w, 1, 0, d);
    BitwiseZeroLeft(OrOp, 1);
    BitwiseZeroRight(OrOp, w);
  }

  /** A spliced combo spans d, fits d + 1 bits and has two more dots. */
  lemma SpliceSpans(c: nat, d: nat)
    requires d >= 1 && c < Pow2(d - 1)
    ensures Pow2(d) + 2 * c + 1 < Pow2(d + 1)
    ensures Pop(Pow2(d) + 2 * c + 1) == Pop(c) + 2
    ensures Spans(Pow2(d) + 2 * c + 1, d)
  {
    PowerHalf(d);
    var w := 2 * c + 1;
    assert w < Pow2(d);
    assert 1 * Pow2(d) + w == Pow2(d) + 2 * c + 1;
    SplicePop(c, d);
    HasBitSplit(1, w, d, 0);
    HasBitSplit(1, w, d, d);
    assert HasBit(1, 0);
  }

  lemma SplicePop(c: nat, d: nat)
    requires 2 * c + 1 < Pow2(d)
    ensures Pop(Pow2(d) + 2 * c + 1) == Pop(c) + 2
  {
    var w := 2 * c + 1;
    var y := Pow2(d) + w;
    PopSplit(1, w, d);
    assert Pop(y) == 1 + Pop(w) by {
      assert y == 1 * Pow2(d) + w;
      assert Pop(1) == 1;
    }
    PopDouble(c);
    PopEvenPlusOne(2 * c);
  }

  lemma PopDouble(c: nat)
    ensures Pop(2 * c) == Pop(c)
  {
    PopShift(c, 1);
    assert c * Pow2(1) == 2 * c;
  }

  /** Conversely every spanning combo is some inner combo spliced. */
  lemma SpanningSplit(y: nat, d: nat) returns (c: nat)
    requires d >= 1 && y < Pow2(d + 1) && Spans(y, d)
    ensures c < Pow2(d - 1) && y == Pow2(d) + 2 * c + 1
  {
    TopBit(y, d);
    var w := y - Pow2(d);
    PowerHalf(d);
    HasBitSplit(1, w, d, 0);
    c := w / 2;
  }

  /** A spliced inner combo is a ruler of length d with two more dots. */
  lemma SpliceInSpanning(d: nat, k: nat, c: nat)
    requires d >= 2 && k >= 2 && c < Pow2(d - 1) && Pop(c) == k - 2
    ensures Pow2(d) + 2 * c + 1 in SpanningCombos(d, k)
  {
    SpliceSpans(c, d);
    SpanningCombosMembers(d, k, Pow2(d) + 2 * c + 1);
  }

  /** Every ruler of length d is a spliced inner combo. */
  lemma SpanningFromSplice(d: nat, k: nat, y: nat) returns (c: nat)
    requires d >= 2 && k >= 2 && y in SpanningCombos(d, k)
    ensures c < Pow2(d - 1) && Pop(c) == k - 2 && y == Pow2(d) + 2 * c + 1
  {
    SpanningCombosMembers(d, k, y);
    c := SpanningSplit(y, d);
    SpliceSpans(c, d);
  }

  /** Splicing end dots onto every (k - 2)-dot combo of width d - 1, in
      order, gives every k-dot ruler of length d, in ascending order. */
  lemma EndsSpliceSpanning(d: nat, k: nat, out: seq<nat>)
    requires d >= 2 && k >= 2
    requires |out| == |BitCombos(d - 1, k - 2)|
    requires forall j :: 0 <= j < |out| ==> out[j] == EndsSplice(BitCombos(d - 1, k - 2)[j], d)
    ensures out == SpanningCombos(d, k)
  {
    var inner := BitCombos(d - 1, k - 2);
    SpliceValues(d, k, inner, out);
    BitCombosIncreasing(d - 1, k - 2);
    SplicedIncreasing(inner, out, d);
    SplicedInSpanning(d, k, inner, out);
    SpanningInSpliced(d, k, inner, out);
    SpanningCombosIncreasing(d, k);
    SortedUnique(out, SpanningCombos(d, k));
  }

  /** The spliced values, and the inner combos as exactly the (k - 2)-dot
      combos of width d - 1. */
  lemma SpliceValues(d: nat, k: nat, inner: seq<nat>, out: seq<nat>)
    requires d >= 2 && k >= 2 && inner == BitCombos(d - 1, k - 2) && |out| == |inner|
    requires forall j :: 0 <= j < |out| ==> out[j] == EndsSplice(inner[j], d)
    ensures forall j :: 0 <= j < |inner| ==> inner[j] < Pow2(d - 1) && Pop(inner[j]) == k - 2
    ensures forall j :: 0 <= j < |inner| ==> out[j] == Pow2(d) + 2 * inner[j] + 1
    ensures forall c: nat :: c < Pow2(d - 1) && Pop(c) == k - 2 ==> c in inner
  {
    forall j | 0 <= j < |inner|
      ensures inner[j] < Pow2(d - 1) && Pop(inner[j]) == k - 2
      ensures out[j] == Pow2(d) + 2 * inner[j] + 1
    {
      BitCombosMembers(d - 1, k - 2, inner[j]);
      EndsSpliceValue(inner[j], d);
    }
    forall c: nat | c < Pow2(d - 1) && Pop(c) == k - 2
      ensures c in inner
    {
      BitCombosMembers(d - 1, k - 2, c);
    }
  }

  lemma SplicedIncreasing(inner: seq<nat>, out: seq<nat>, d: nat)
    requires Increasing(inner) && |out| == |inner|
    requires forall j :: 0 <= j < |inner| ==> out[j] == Pow2(d) + 2 * inner[j] + 1
    ensures Increasing(out)
  {
  }

  lemma SplicedInSpanning(d: nat, k: nat, inner: seq<nat>, out: seq<nat>)
    requires d >= 2 && k >= 2 && |out| == |inner|
    requires forall j :: 0 <= j < |inner| ==> inner[j] < Pow2(d - 1) && Pop(inner[j]) == k - 2
    requires forall j :: 0 <= j < |inner| ==> out[j] == Pow2(d) + 2 * inner[j] + 1
    ensures forall y :: y in out ==> y in SpanningCombos(d, k)
  {
    forall y | y in out
      ensures y in SpanningCombos(d, k)
    {
      var j :| 0 <= j < |out| && out[j] == y;
      SpliceInSpanning(d, k, inner[j]);
    }
  }

  lemma SpanningInSpliced(d: nat, k: nat, inner: seq<nat>, out: seq<nat>)
    requires d >= 2 && k >= 2 && |out| == |inner|
    requires forall c: nat :: c < Pow2(d - 1) && Pop(c) == k - 2 ==> c in inner
    requires forall j :: 0 <= j < |inner| ==> out[j] == Pow2(d) + 2 * inner[j] + 1
    ensures forall y :: y in SpanningCombos(d, k) ==> y in out
  {
    forall y | y in SpanningCombos(d, k)
      ensures y in out
    {
      var c := SpanningFromSplice(d, k, y);
      var j :| 0 <= j < |inner| && inner[j] == c;
      assert out[j] == y;
    }
  }

  /** The one ruler of length 1. */
  lemma ShortestRuler()
    ensures SpanningCombos(1, 2) == [3]
  {
    var s := SpanningCombos(1, 2);
    SpanningCombosIncreasing(1, 2);
    SpliceSpans(0, 1);
    SpanningCombosMembers(1, 2, 3);
    forall y: int
      ensures y in s <==> y in [3]
    {
      if y in s {
        SpanningCombosMembers(1, 2, y);
        var c := SpanningSplit(y, 1);
      }
    }
    SortedUnique(s, [3]);
  }

  /** Every combo of dotcount dots with dots at both 0 and distance,
      ascending; built by splicing end dots onto the combos two positions
      and two dots smaller, with length 1 handled on its own. */
  method BitCombosWithEnds(distance: int, dotcount: int) returns (r: Result<seq<nat>>)
    ensures r.Success? <==> (distance == 1 && dotcount == 2) || (distance >= 2 && 2 <= dotcount <= distance + 1)
    ensures distance < 2 && !(distance == 1 && dotcount == 2) ==> r == Failure(NegativeDistance)
    ensures distance >= 2 && dotcount < 2 ==> r == Failure(NegativeDotCount)
    ensures distance >= 2 && dotcount > distance + 1 ==> r == Failure(TooManyDots)
    ensures r.Success? ==> r.value == SpanningCombos(distance, dotcount)
  {
    if distance == 1 && dotcount == 2 {
      ShortestRuler();
      return Success([3]);
    }
    var inner := BitCombosWithNDots(distance - 2, dotcount - 2);
    if inner.Failure? {
      return Failure(inner.error);
    }
    var cs := inner.value;
    var out: seq<nat> := [];
    var i := 0;
    while i < |cs|
      invariant 0 <= i <= |cs| && |out| == i
      invariant forall j :: 0 <= j < i ==> out[j] == EndsSplice(cs[j], distance)
    {
      var b := Shl(cs[i], 1);
      b := Or(b, 1);
      b := Or(b, Shl(1, distance));
      out := out + [b];
      i := i + 1;
    }
    EndsSpliceSpanning(distance, dotcount, out);
    return Success(out);
  }

  // ---------------------------------------------------------------------
  // Testing combos

  /** The early-exit shift-AND loop: true exactly when every spacing 1
      through distance has two dots that far apart. */
  method BitComboMeasures(bitcombo: nat, distance: int) returns (b: bool)
    ensures b <==> Measures(bitcombo, distance)
  {
    var spacing: nat := 1;
    while spacing <= distance
      invariant 1 <= spacing
      invariant spacing <= distance + 1 || distance < 1
      invariant forall s: nat :: 1 <= s < spacing ==> ShiftAnd(bitcombo, s)
    {
      var shifted := Shr(bitcombo, spacing);
      if And(bitcombo, shifted) == 0 {
        assert !ShiftAnd(bitcombo, spacing);
        return false;
      }
      spacing := spacing + 1;
    }
    return true;
  }

  /** The combos of bitcombos that measure distance, in their original order. */
  function MeasuringOnly(bitcombos: seq<nat>, distance: int): (r: seq<nat>)
    ensures |r| <= |bitcombos|
    ensures forall x :: x in r <==> x in bitcombos && Measures(x, distance)
  {
    if bitcombos == [] then []
    else
      var last := bitcombos[|bitcombos| - 1];
      assert bitcombos == bitcombos[..|bitcombos| - 1] + [last];
      MeasuringOnly(bitcombos[..|bitcombos| - 1], distance) + (if Measures(last, distance) then [last] else [])
  }

  /** Filtering distributes over concatenation, so filtering in pieces and
      joining the pieces is filtering the whole. */
  lemma {:induction false} MeasuringOnlyAppend(a: seq<nat>, b: seq<nat>, distance: int)
    ensures MeasuringOnly(a + b, distance) == MeasuringOnly(a, distance) + MeasuringOnly(b, distance)
    decreases |b|
  {
    if b != [] {
      var b' := b[..|b| - 1];
      assert (a + b)[..|a + b| - 1] == a + b';
      assert (a + b)[|a + b| - 1] == b[|b| - 1];
      MeasuringOnlyAppend(a, b', distance);
    } else {
      assert a + b == a;
    }
  }

  /** Filtering keeps ascending order. */
  lemma {:induction false} MeasuringOnlyIncreasing(bitcombos: seq<nat>, distance: int)
    requires Increasing(bitcombos)
    ensures Increasing(MeasuringOnly(bitcombos, distance))
    decreases |bitcombos|
  {
    if bitcombos != [] {
      var init := bitcombos[..|bitcombos| - 1];
      var last := bitcombos[|bitcombos| - 1];
      MeasuringOnlyIncreasing(init, distance);
      var f := MeasuringOnly(init, distance);
      forall x | x in f
        ensures x < last
      {
        var j :| 0 <= j < |init| && init[j] == x;
      }
      IncreasingAppend(f, if Measures(last, distance) then [last] else []);
    }
  }

  /** The filter over a batch of combos, one early-exit test per combo. */
  method BitCombosThatMeasure(bitcombos: seq<nat>, distance: int) returns (measuring: seq<nat>)
    ensures measuring == MeasuringOnly(bitcombos, distance)
  {
    measuring := [];
    var i := 0;
    while i < |bitcombos|
      invariant 0 <= i <= |bitcombos|
      invariant measuring == MeasuringOnly(bitcombos[..i], distance)
    {
      var m := BitComboMeasures(bitcombos[i], distance);
      assert bitcombos[..i + 1][..i] == bitcombos[..i];
      if m {
        measuring := measuring + [bitcombos[i]];
      }
      i := i + 1;
    }
    assert bitcombos[..|bitcombos|] == bitcombos;
  }

  // ---------------------------------------------------------------------
  // The search

  /** The rulers of length d with k dots that measure every length up to d. */
  function Good(d: nat, k: nat): seq<nat>
  {
    MeasuringOnly(SpanningCombos(d, k), d)
  }

  /** The good rulers at the first dot count from k through d + 1 that has any. */
  function BestFrom(d: nat, k: nat): seq<nat>
    decreases d + 2 - k
  {
    if k > d + 1 then [] else if Good(d, k) != [] then Good(d, k) else BestFrom(d, k + 1)
  }

  /** What the search yields for a distance: nothing below length 1. */
  function Best(distance: int): seq<nat>
  {
    if distance < 0 then [] else BestFrom(distance, 2)
  }

  lemma GoodMembers(d: nat, k: nat, x: nat)
    ensures x in Good(d, k) <==> x < Pow2(d + 1) && Pop(x) == k && Spans(x, d) && Measures(x, d)
  {
    SpanningCombosMembers(d, k, x);
  }

  /** One step of the escalating search: the first dot count with a hit
      stops it, an empty one defers to the next. */
  lemma BestFromStep(d: nat, k: nat, measuring: seq<nat>)
    requires 2 <= k <= d + 1 && measuring == Good(d, k)
    ensures measuring != [] ==> BestFrom(d, k) == measuring
    ensures measuring == [] ==> BestFrom(d, k) == BestFrom(d, k + 1)
  {
  }

  /** The loop over dot counts: collect the measuring rulers of the first
      dot count that has any. */
  method BestBitCombos(distance: int) returns (best: seq<nat>)
    ensures best == Best(distance)
  {
    best := [];
    if distance < 0 {
      return;
    }
    var foundOne := false;
    var dotcount := 2;
    while dotcount < distance + 2
      invariant 2 <= dotcount && (dotcount <= distance + 2 || distance < 1)
      invariant BestFrom(distance, dotcount) == BestFrom(distance, 2)
      invariant best == [] && !foundOne
    {
      var combos := BitCombosWithEnds(distance, dotcount);
      var measuring := BitCombosThatMeasure(combos.value, distance);
      BestFromStep(distance, dotcount, measuring);
      if measuring != [] {
        foundOne := true;
        best := best + measuring;
      }
      if foundOne {
        break;
      }
      dotcount := dotcount + 1;
    }
  }

  // ---------------------------------------------------------------------
  // What the search finds

  /** A ruler of length d that measures every length and has as few dots as
      any combo of d + 1 positions that does. */
  ghost predicate Optimal(x: nat, d: nat)
  {
    x < Pow2(d + 1) && Measures(x, d) &&
    forall y: nat :: y < Pow2(d + 1) && Measures(y, d) ==> Pop(x) <= Pop(y)
  }

  /** The full ruler is good at the largest dot count, so the search always
      reaches a dot count with a hit. */
  lemma FullRulerGood(d: nat)
    requires d >= 1
    ensures Pow2(d + 1) - 1 in Good(d, d + 1)
  {
    var full := Pow2(d + 1) - 1;
    PopOnes(d + 1);
    OnesBits(d + 1, 0);
    OnesBits(d + 1, d);
    FullRulerMeasures(d);
    GoodMembers(d, d + 1, full);
  }

  /** A combo with both end dots of a ruler of positive length has at least two dots. */
  lemma SpanningPop(x: nat, d: nat)
    requires d >= 1 && Spans(x, d)
    ensures Pop(x) >= 2
  {
    assert HasBit(x / 2, d - 1);
    PopHasBit(x / 2, d - 1);
  }

  /** The dot count at which the escalating search stops. */
  lemma {:induction false} BestFromFirst(d: nat, k: nat) returns (h: nat)
    requires 2 <= k <= d + 1 && Good(d, d + 1) != []
    ensures k <= h <= d + 1 && Good(d, h) != [] && BestFrom(d, k) == Good(d, h)
    ensures forall j :: k <= j < h ==> Good(d, j) == []
    decreases d + 1 - k
  {
    if Good(d, k) != [] {
      h := k;
    } else {
      assert k < d + 1;
      h := BestFromFirst(d, k + 1);
      assert BestFrom(d, k) == BestFrom(d, k + 1);
    }
  }

  /** A measuring combo with fewer dots than the stopping dot count would
      have been found earlier. */
  lemma NoneFewer(d: nat, h: nat, y: nat)
    requires d >= 1 && 2 <= h && forall j :: 2 <= j < h ==> Good(d, j) == []
    requires y < Pow2(d + 1) && Measures(y, d)
    ensures h <= Pop(y)
  {
    MeasuresSpans(y, d);
    SpanningPop(y, d);
    if Pop(y) < h {
      GoodMembers(d, Pop(y), y);
    }
  }

  /** The search yields, in ascending order, exactly the rulers of length
      distance with the fewest dots that measure every length; there is at
      least one for every distance >= 1 and none for distance 0. */
  lemma BestOptimal(distance: nat)
    ensures distance == 0 ==> Best(distance) == []
    ensures distance >= 1 ==> Best(distance) != []
    ensures Increasing(Best(distance))
    ensures forall x: nat :: x in Best(distance) <==> distance >= 1 && Optimal(x, distance)
  {
    var d := distance;
    if d >= 1 {
      FullRulerGood(d);
      var h := BestFromFirst(d, 2);
      SpanningCombosIncreasing(d, h);
      MeasuringOnlyIncreasing(SpanningCombos(d, h), d);
      var y0 := Good(d, h)[0];
      GoodMembers(d, h, y0);
      forall x: nat
        ensures x in Best(d) <==> Optimal(x, d)
      {
        GoodMembers(d, h, x);
        if x in Best(d) {
          forall y: nat | y < Pow2(d + 1) && Measures(y, d)
            ensures Pop(x) <= Pop(y)
          {
            NoneFewer(d, h, y);
          }
        }
        if Optimal(x, d) {
          NoneFewer(d, h, x);
          MeasuresSpans(x, d);
        }
      }
    }
  }

  /** The two best rulers of length 3, 0b1011 and 0b1101. */
  lemma BestOfThree()
    ensures Best(3) == [11, 13]
  {
    NoneOfThreeTwo();
    BothOfThreeThree();
    assert BestFrom(3, 3) == Good(3, 3);
  }

  /** The only two-dot ruler of length 3, 0b1001, does not measure 1. */
  lemma NoneOfThreeTwo()
    ensures Good(3, 2) == []
  {
    BitCombosNoDots(2);
    EndsSpliceValue(0, 3);
    EndsSpliceSpanning(3, 2, [9]);
    assert !ShiftAnd(9, 1);
    assert MeasuringOnly([9], 3) == [];
    GoodOf(3, 2, [9]);
  }

  /** Both three-dot rulers of length 3 measure every length. */
  lemma BothOfThreeThree()
    ensures Good(3, 3) == [11, 13]
  {
    SpanningThreeThree();
    MeasuringThreeThree();
    GoodOf(3, 3, [11, 13]);
  }

  lemma SpanningThreeThree()
    ensures SpanningCombos(3, 3) == [11, 13]
  {
    assert BitCombos(2, 1) == [1, 2];
    EndsSpliceValue(1, 3);
    EndsSpliceValue(2, 3);
    EndsSpliceSpanning(3, 3, [11, 13]);
  }

  lemma MeasuringThreeThree()
    ensures MeasuringOnly([11, 13], 3) == [11, 13]
  {
    assert ShiftAnd(11, 1) && ShiftAnd(11, 2);
    assert Shr(11, 3) == 1 && And(11, 1) == 1;
    assert ShiftAnd(13, 1) && ShiftAnd(13, 2);
    assert Shr(13, 3) == 1 && And(13, 1) == 1;
    MeasuresThree(11);
    MeasuresThree(13);
    assert [11, 13][..1] == [11];
  }

  lemma GoodOf(d: nat, k: nat, cs: seq<nat>)
    requires SpanningCombos(d, k) == cs
    ensures Good(d, k) == MeasuringOnly(cs, d)
  {
  }

  lemma MeasuresThree(c: nat)
    requires ShiftAnd(c, 1) && ShiftAnd(c, 2) && ShiftAnd(c, 3)
    ensures Measures(c, 3)
  {
  }

  // ---------------------------------------------------------------------
  // The same answers as position tuples

  /** combos_with_n_dots: the combos of bit_combos_with_n_dots, each turned
      into its ascending tuple of dot positions. There are C(distance + 1,
      dotcount) of them, each with dotcount positions within 0..distance. */
  function CombosWithNDots(distance: int, dotcount: int): (r: Result<seq<seq<nat>>>)
    ensures distance < 0 ==> r == Failure(NegativeDistance)
    ensures distance >= 0 && dotcount < 0 ==> r == Failure(NegativeDotCount)
    ensures distance >= 0 && dotcount > distance + 1 ==> r == Failure(TooManyDots)
    ensures r.Success? <==> 0 <= distance && 0 <= dotcount <= distance + 1
    ensures r.Success? ==> |r.value| == Binomial(distance + 1, dotcount)
    ensures r.Success? ==> forall i :: 0 <= i < |r.value| ==>
      |r.value[i]| == dotcount && Increasing(r.value[i]) &&
      forall j :: 0 <= j < |r.value[i]| ==> r.value[i][j] <= distance
  {
    if distance < 0 then Failure(NegativeDistance)
    else if dotcount < 0 then Failure(NegativeDotCount)
    else if dotcount > distance + 1 then Failure(TooManyDots)
    else
      var cs := BitCombos(distance + 1, dotcount);
      BitCombosCount(distance + 1, dotcount);
      forall i | 0 <= i < |cs|
        ensures |Positions(cs[i])| == dotcount && Increasing(Positions(cs[i]))
        ensures forall j :: 0 <= j < |Positions(cs[i])| ==> Positions(cs[i])[j] <= distance
      {
        BitCombosMembers(distance + 1, dotcount, cs[i]);
        PositionsWithin(cs[i], distance + 1);
      }
      Success(PositionsOf(cs))
  }

  /** The positions of a combo below 2^n are ascending, one per dot, and
      each below n. */
  lemma PositionsWithin(c: nat, n: nat)
    requires c < Pow2(n)
    ensures |Positions(c)| == Pop(c) && Increasing(Positions(c))
    ensures forall j :: 0 <= j < |Positions(c)| ==> Positions(c)[j] < n
  {
    PositionsIncreasing(c);
    forall j | 0 <= j < |Positions(c)|
      ensures Positions(c)[j] < n
    {
      PositionsMembers(c, Positions(c)[j]);
      if Positions(c)[j] >= n {
        HasBitBelow(c, n, Positions(c)[j]);
      }
    }
  }

  /** best_combos: the rulers best_bit_combos finds, as position tuples in
      the same order; each tuple encodes back to its combo. */
  function BestCombos(distance: int): (r: seq<seq<nat>>)
    ensures |r| == |Best(distance)|
    ensures forall i :: 0 <= i < |r| ==> Increasing(r[i]) && BitsOf(r[i]) == Best(distance)[i]
  {
    var best := Best(distance);
    forall i | 0 <= i < |best|
      ensures Increasing(Positions(best[i])) && BitsOf(Positions(best[i])) == best[i]
    {
      PositionsIncreasing(best[i]);
      BitsOfPositions(best[i]);
    }
    PositionsOf(best)
  }
}
