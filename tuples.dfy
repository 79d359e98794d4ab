/** Dot combos written as ascending tuples of positions, the form the
    tuple-based search routes work on, and how they correspond to the bit
    combos of the bitwise routes. */
module Tuples {
  import opened Bits
  import opened Seqs
  import opened Rulers
  import BitBased

  /** Every entry of t lies in 0..n - 1. */
  predicate Within(t: seq<int>, n: int)
  {
    forall i :: 0 <= i < |t| ==> 0 <= t[i] < n
  }

  /** t is the tuple of a ruler of length d: ascending positions in 0..d
      holding both ends. */
  predicate SpanTuple(t: seq<int>, d: int)
  {
    Increasing(t) && Within(t, d + 1) && 0 in t && d in t
  }

  /** t is a ruler of length d that measures every length 1 through d. */
  predicate GoodTuple(t: seq<int>, d: int)
  {
    SpanTuple(t, d) && CoversUpTo(t, d)
  }

  /** A number with no one bit at n or above is below 2^n. */
  lemma {:induction false} BitsBelow(c: nat, n: nat)
    requires forall i: nat :: HasBit(c, i) ==> i < n
    ensures c < Pow2(n)
  {
    if n == 0 {
      if c != 0 {
        var i := NonZeroHasBit(c);
      }
    } else {
      forall i: nat | HasBit(c / 2, i)
        ensures i < n - 1
      {
        assert HasBit(c, i + 1);
      }
      BitsBelow(c / 2, n - 1);
    }
  }

  /** Encoding an ascending tuple of positions below n gives a combo below
      2^n with one dot per entry, whose positions are the tuple again. */
  lemma TupleCombo(t: seq<int>, n: nat)
    requires Increasing(t) && Within(t, n)
    ensures BitsOf(t) < Pow2(n) && Pop(BitsOf(t)) == |t| && Positions(BitsOf(t)) == t
  {
    var c := BitsOf(t);
    PositionsOfBits(t);
    PositionsIncreasing(c);
    forall i: nat | HasBit(c, i)
      ensures i < n
    {
      BitsOfMembers(t, i);
    }
    BitsBelow(c, n);
  }

  /** The positions of a combo below 2^n are an ascending tuple of positions
      below n, one per dot, which encodes back to the combo. */
  lemma ComboTuple(c: nat, n: nat)
    requires c < Pow2(n)
    ensures Increasing(Positions(c)) && Within(Positions(c), n)
    ensures |Positions(c)| == Pop(c) && BitsOf(Positions(c)) == c
  {
    var t := Positions(c);
    PositionsIncreasing(c);
    BitsOfPositions(c);
    forall i | 0 <= i < |t|
      ensures 0 <= t[i] < n
    {
      PositionsMembers(c, t[i]);
      if t[i] >= n {
        HasBitBelow(c, n, t[i]);
      }
    }
  }

  /** A combo spans d exactly when its tuple holds 0 and d. */
  lemma SpansTuple(c: nat, d: nat)
    ensures Spans(c, d) <==> 0 in Positions(c) && d in Positions(c)
  {
    PositionsMembers(c, 0);
    PositionsMembers(c, d);
  }

  /** The tuple of a spanning combo of width d + 1 is a span tuple, and a span
      tuple encodes to such a combo. */
  lemma SpanTupleCombo(t: seq<int>, d: nat)
    requires SpanTuple(t, d)
    ensures BitsOf(t) < Pow2(d + 1) && Spans(BitsOf(t), d)
    ensures Pop(BitsOf(t)) == |t| && Positions(BitsOf(t)) == t
  {
    TupleCombo(t, d + 1);
    SpansTuple(BitsOf(t), d);
  }

  lemma ComboSpanTuple(c: nat, d: nat)
    requires c < Pow2(d + 1) && Spans(c, d)
    ensures SpanTuple(Positions(c), d) && |Positions(c)| == Pop(c) && BitsOf(Positions(c)) == c
  {
    ComboTuple(c, d + 1);
    SpansTuple(c, d);
  }

  /** Good tuples and good combos are the same rulers. */
  lemma GoodTupleCombo(t: seq<int>, d: nat)
    requires GoodTuple(t, d)
    ensures BitsOf(t) < Pow2(d + 1) && Spans(BitsOf(t), d) && Measures(BitsOf(t), d)
    ensures Pop(BitsOf(t)) == |t| && Positions(BitsOf(t)) == t
  {
    SpanTupleCombo(t, d);
    MeasuresCovers(BitsOf(t), d);
  }

  lemma ComboGoodTuple(c: nat, d: nat)
    requires c < Pow2(d + 1) && Spans(c, d) && Measures(c, d)
    ensures GoodTuple(Positions(c), d) && |Positions(c)| == Pop(c)
  {
    ComboSpanTuple(c, d);
    MeasuresCovers(c, d);
  }

  /** A span tuple of a ruler of positive length starts at 0, ends at d and
      has at least two entries, all others strictly between. */
  lemma SpanTupleShape(t: seq<int>, d: int)
    requires SpanTuple(t, d) && d >= 1
    ensures |t| >= 2 && t[0] == 0 && t[|t| - 1] == d
    ensures forall i :: 0 < i < |t| - 1 ==> 0 < t[i] < d
  {
    var a :| 0 <= a < |t| && t[a] == 0;
    var b :| 0 <= b < |t| && t[b] == d;
  }

  /** In a strictly ascending tuple, the entry at index i is at least i
      above the first. */
  lemma {:induction false} IncreasingSpread(t: seq<int>, i: nat)
    requires Increasing(t) && i < |t|
    ensures t[0] + i <= t[i]
  {
    if i > 0 {
      IncreasingSpread(t, i - 1);
    }
  }

  // ---------------------------------------------------------------------
  // Streams of tuples ordered by size

  /** No tuple is longer than a later one. */
  predicate LengthSorted(items: seq<seq<int>>)
  {
    forall i, j :: 0 <= i < j < |items| ==> |items[i]| <= |items[j]|
  }

  /** Two streams ordered by size, the first no longer than n and the
      second no shorter, make one stream ordered by size. */
  lemma AppendLengthSorted(a: seq<seq<int>>, b: seq<seq<int>>, n: int)
    requires LengthSorted(a) && LengthSorted(b)
    requires forall i :: 0 <= i < |a| ==> |a[i]| <= n
    requires forall j :: 0 <= j < |b| ==> n <= |b[j]|
    ensures LengthSorted(a + b)
  {
    var all := a + b;
    forall i, j | 0 <= i < j < |all|
      ensures |all[i]| <= |all[j]|
    {
      if j < |a| {
        assert all[i] == a[i] && all[j] == a[j];
      } else if i >= |a| {
        assert all[i] == b[i - |a|] && all[j] == b[j - |a|];
      } else {
        assert all[i] == a[i] && all[j] == b[j - |a|];
      }
    }
  }

  /** Filtering keeps a stream ordered by size. */
  lemma {:induction false} FilterLengthSorted(keep: seq<int> -> bool, items: seq<seq<int>>)
    requires LengthSorted(items)
    ensures LengthSorted(Filter(keep, items))
    decreases |items|
  {
    if items != [] {
      var rest := Filter(keep, items[1..]);
      FilterLengthSorted(keep, items[1..]);
      forall y | y in rest
        ensures |items[0]| <= |y|
      {
        FilterMembers(keep, items[1..], y);
        var j :| 0 <= j < |items[1..]| && items[1..][j] == y;
        assert items[j + 1] == y;
      }
    }
  }

  /** n is where the leading run of items of the first item's size ends. */
  predicate RunEnd(items: seq<seq<int>>, n: nat)
  {
    1 <= n <= |items| &&
    (forall i :: 0 <= i < n ==> |items[i]| == |items[0]|) &&
    (n < |items| ==> |items[n]| != |items[0]|)
  }

  /** In a stream ordered by size, the leading run of the first size holds
      exactly the items of the smallest size, and that size is the least. */
  lemma RunIsSmallest(items: seq<seq<int>>, n: nat, t: seq<int>)
    requires LengthSorted(items) && RunEnd(items, n)
    ensures t in items ==> |items[0]| <= |t|
    ensures t in items[..n] <==> t in items && |t| == |items[0]|
  {
    if t in items && |t| == |items[0]| {
      var j :| 0 <= j < |items| && items[j] == t;
      assert items[..n][j] == t;
    }
  }

  /** The leading run of a size-ordered stream of exactly the good tuples of
      length d >= 1 holds exactly the tuples of the optimal rulers: a tuple
      is in the run just when it is the tuple of a combo the bitwise search
      finds, and every combo that search finds has its tuple in the run. */
  lemma RunIsBest(items: seq<seq<int>>, n: nat, d: nat, best: seq<nat>)
    requires d >= 1 && LengthSorted(items) && RunEnd(items, n)
    requires forall t :: t in items <==> GoodTuple(t, d)
    requires forall x: nat :: x in best <==> BitBased.Optimal(x, d)
    ensures forall t :: t in items[..n] ==> BitsOf(t) in best && Positions(BitsOf(t)) == t
    ensures forall x :: x in best ==> Positions(x) in items[..n]
  {
    var first := items[0];
    assert first in items;
    GoodTupleCombo(first, d);
    forall t | t in items[..n]
      ensures BitsOf(t) in best && Positions(BitsOf(t)) == t
    {
      RunIsSmallest(items, n, t);
      GoodTupleCombo(t, d);
      forall y: nat | y < Pow2(d + 1) && Measures(y, d)
        ensures Pop(BitsOf(t)) <= Pop(y)
      {
        MeasuresSpans(y, d);
        ComboGoodTuple(y, d);
        RunIsSmallest(items, n, Positions(y));
      }
    }
    forall x | x in best
      ensures Positions(x) in items[..n]
    {
      MeasuresSpans(x, d);
      ComboGoodTuple(x, d);
      RunIsSmallest(items, n, Positions(x));
      assert Pop(x) <= Pop(BitsOf(first));
    }
  }
}
