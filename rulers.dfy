/** What a ruler is and what it measures, stated once for every search
    route: as a combo (bit i set means a dot at position i) and as the
    ascending sequence of its dot positions. */
module Rulers {
  import opened Bits
  import opened Seqs
  import opened Gospers

  // ---------------------------------------------------------------------
  // Combos and their positions

  /** The positions of the one bits of c, offset by p, ascending. */
  function PositionsFrom(c: nat, p: nat): seq<nat>
    decreases c
  {
    if c == 0 then [] else (if c % 2 == 1 then [p] else []) + PositionsFrom(c / 2, p + 1)
  }

  /** The dot positions of combo c, ascending. */
  function Positions(c: nat): seq<nat>
  {
    PositionsFrom(c, 0)
  }

  lemma {:induction false} PositionsFromMembers(c: nat, p: nat, x: int)
    ensures x in PositionsFrom(c, p) <==> x >= p && HasBit(c, x - p)
    decreases c
  {
    if c == 0 {
      if x >= p {
        HasBitZero(x - p);
      }
    } else {
      PositionsFromMembers(c / 2, p + 1, x);
    }
  }

  lemma {:induction false} PositionsFromIncreasing(c: nat, p: nat)
    ensures Increasing(PositionsFrom(c, p))
    decreases c
  {
    if c != 0 {
      PositionsFromIncreasing(c / 2, p + 1);
      var rest := PositionsFrom(c / 2, p + 1);
      forall x | x in rest
        ensures p < x
      {
        PositionsFromMembers(c / 2, p + 1, x);
      }
      IncreasingAppend(if c % 2 == 1 then [p] else [], rest);
    }
  }

  lemma {:induction false} PositionsFromCount(c: nat, p: nat)
    ensures |PositionsFrom(c, p)| == Pop(c)
    decreases c
  {
    if c != 0 {
      PositionsFromCount(c / 2, p + 1);
    }
  }

  /** map(sequence_from_bits, cs). */
  function PositionsOf(cs: seq<nat>): (ts: seq<seq<nat>>)
    ensures |ts| == |cs| && forall i :: 0 <= i < |cs| ==> ts[i] == Positions(cs[i])
  {
    seq(|cs|, i requires 0 <= i < |cs| => Positions(cs[i]))
  }

  /** A position is listed exactly when its bit is set. */
  lemma PositionsMembers(c: nat, x: int)
    ensures x in Positions(c) <==> x >= 0 && HasBit(c, x)
  {
    PositionsFromMembers(c, 0, x);
  }

  /** The positions are listed in ascending order, each once, one per dot. */
  lemma PositionsIncreasing(c: nat)
    ensures Increasing(Positions(c)) && |Positions(c)| == Pop(c)
  {
    PositionsFromIncreasing(c, 0);
    PositionsFromCount(c, 0);
  }

  /** The combo with a dot at every non-negative entry of s; negative
      entries contribute nothing. */
  function BitsOf(s: seq<int>): nat
  {
    if s == [] then 0
    else
      var last := s[|s| - 1];
      if last < 0 then BitsOf(s[..|s| - 1]) else Or(BitsOf(s[..|s| - 1]), Pow2(last))
  }

  /** Bit p of the encoding is set exactly when p is an entry. */
  lemma {:induction false} BitsOfMembers(s: seq<int>, p: nat)
    ensures HasBit(BitsOf(s), p) <==> p in s
    decreases |s|
  {
    if s == [] {
      HasBitZero(p);
    } else {
      var init, last := s[..|s| - 1], s[|s| - 1];
      assert s == init + [last];
      BitsOfMembers(init, p);
      if last >= 0 {
        BitwiseBit(OrOp, BitsOf(init), Pow2(last), p);
        PowHasBit(last, p);
      }
    }
  }

  /** Encoding the positions of a combo gives back the combo. */
  lemma BitsOfPositions(c: nat)
    ensures BitsOf(Positions(c)) == c
  {
    forall p: nat
      ensures HasBit(BitsOf(Positions(c)), p) == HasBit(c, p)
    {
      BitsOfMembers(Positions(c), p);
      PositionsMembers(c, p);
    }
    BitsEqual(BitsOf(Positions(c)), c);
  }

  /** Listing the positions of the encoding of an ascending sequence of
      non-negative positions gives back the sequence. */
  lemma PositionsOfBits(s: seq<int>)
    requires Increasing(s) && forall i :: 0 <= i < |s| ==> s[i] >= 0
    ensures Positions(BitsOf(s)) == s
  {
    var t: seq<int> := Positions(BitsOf(s));
    PositionsIncreasing(BitsOf(s));
    forall x
      ensures x in t <==> x in s
    {
      PositionsMembers(BitsOf(s), x);
      if x >= 0 {
        BitsOfMembers(s, x);
      }
    }
    SortedUnique(t, s);
  }

  // ---------------------------------------------------------------------
  // Measuring, on positions

  /** The lengths a set of dots measures: every positive difference of two dots. */
  function Differences(s: seq<int>): set<int>
  {
    set i, j | 0 <= i < |s| && 0 <= j < |s| && s[j] - s[i] > 0 :: s[j] - s[i]
  }

  /** The dots measure every length 1 through d. */
  predicate CoversUpTo(s: seq<int>, d: int)
  {
    forall m :: 1 <= m <= d ==> m in Differences(s)
  }

  // ---------------------------------------------------------------------
  // Measuring, on bits

  /** Some pair of dots is exactly s apart. */
  ghost predicate PairAt(c: nat, s: nat)
  {
    exists i: nat :: HasBit(c, i) && HasBit(c, i + s)
  }

  /** The shift-AND test for one spacing: c & (c >> s) != 0. */
  predicate ShiftAnd(c: nat, s: nat)
  {
    And(c, Shr(c, s)) != 0
  }

  /** The shift-AND test for every spacing 1 through d (vacuous when d < 1). */
  predicate Measures(c: nat, d: int)
  {
    forall s: nat :: 1 <= s <= d ==> ShiftAnd(c, s)
  }

  /** The combo has a dot at each end of a ruler of length d. */
  predicate Spans(c: nat, d: nat)
  {
    HasBit(c, 0) && HasBit(c, d)
  }

  /** c & (c >> s) is non-zero exactly when two dots are s apart. */
  lemma ShiftAndPair(c: nat, s: nat)
    ensures ShiftAnd(c, s) <==> PairAt(c, s)
  {
    if ShiftAnd(c, s) {
      var i := NonZeroHasBit(And(c, Shr(c, s)));
      BitwiseBit(AndOp, c, Shr(c, s), i);
      ShrBit(c, s, i);
    }
    if PairAt(c, s) {
      var i: nat :| HasBit(c, i) && HasBit(c, i + s);
      BitwiseBit(AndOp, c, Shr(c, s), i);
      ShrBit(c, s, i);
      if And(c, Shr(c, s)) == 0 {
        HasBitZero(i);
      }
    }
  }

  /** The bitwise test and the plain-words meaning agree: a combo passes the
      shift-AND test for 1..d exactly when its dot positions measure every
      length 1 through d. */
  lemma MeasuresCovers(c: nat, d: int)
    ensures Measures(c, d) <==> CoversUpTo(Positions(c), d)
  {
    var s: seq<int> := Positions(c);
    forall m: nat | 1 <= m
      ensures ShiftAnd(c, m) <==> m in Differences(s)
    {
      ShiftAndPair(c, m);
      if PairAt(c, m) {
        var i: nat :| HasBit(c, i) && HasBit(c, i + m);
        PositionsMembers(c, i);
        PositionsMembers(c, i + m);
        var a :| 0 <= a < |s| && s[a] == i;
        var b :| 0 <= b < |s| && s[b] == i + m;
        assert s[b] - s[a] == m;
      }
      if m in Differences(s) {
        var a, b :| 0 <= a < |s| && 0 <= b < |s| && s[b] - s[a] == m;
        PositionsMembers(c, s[a]);
        PositionsMembers(c, s[b]);
        assert HasBit(c, s[a]) && HasBit(c, s[a] + m);
      }
    }
  }

  /** A combo no wider than d + 1 bits that measures d has both end dots. */
  lemma MeasuresSpans(c: nat, d: nat)
    requires d >= 1 && c < Pow2(d + 1) && Measures(c, d)
    ensures Spans(c, d)
  {
    assert ShiftAnd(c, d);
    ShiftAndPair(c, d);
    var i: nat :| HasBit(c, i) && HasBit(c, i + d);
    if i > 0 {
      HasBitBelow(c, d + 1, i + d);
    }
  }

  /** The full ruler, a dot at every position 0..d, measures d. */
  lemma FullRulerMeasures(d: nat)
    ensures Measures(Pow2(d + 1) - 1, d)
  {
    var c := Pow2(d + 1) - 1;
    forall s: nat | 1 <= s <= d
      ensures ShiftAnd(c, s)
    {
      OnesBits(d + 1, 0);
      OnesBits(d + 1, s);
      ShiftAndPair(c, s);
    }
  }

  lemma {:induction false} OnesBits(n: nat, i: nat)
    ensures HasBit(Pow2(n) - 1, i) <==> i < n
  {
    if n > 0 {
      PowerHalf(n);
      if i > 0 {
        OnesBits(n - 1, i - 1);
      }
    } else {
      HasBitZero(i);
    }
  }

  // ---------------------------------------------------------------------
  // Spanning combos

  /** The combos of cs with a dot at 0 and at d, in order. */
  function SpanningOnly(cs: seq<nat>, d: nat): seq<nat>
  {
    if cs == [] then [] else (if Spans(cs[0], d) then [cs[0]] else []) + SpanningOnly(cs[1..], d)
  }

  lemma {:induction false} SpanningOnlyMembers(cs: seq<nat>, d: nat, x: nat)
    ensures x in SpanningOnly(cs, d) <==> x in cs && Spans(x, d)
  {
    if cs != [] {
      SpanningOnlyMembers(cs[1..], d, x);
      assert cs == [cs[0]] + cs[1..];
    }
  }

  lemma {:induction false} SpanningOnlyIncreasing(cs: seq<nat>, d: nat)
    requires Increasing(cs)
    ensures Increasing(SpanningOnly(cs, d))
  {
    if cs != [] {
      SpanningOnlyIncreasing(cs[1..], d);
      forall x | x in SpanningOnly(cs[1..], d)
        ensures cs[0] < x
      {
        SpanningOnlyMembers(cs[1..], d, x);
      }
      IncreasingAppend(if Spans(cs[0], d) then [cs[0]] else [], SpanningOnly(cs[1..], d));
    }
  }

  /** Every ruler of length d with k dots, ascending: the k-dot combos of
      width d + 1 with both end bits set. */
  function SpanningCombos(d: nat, k: nat): seq<nat>
  {
    SpanningOnly(BitCombos(d + 1, k), d)
  }

  lemma SpanningCombosMembers(d: nat, k: nat, x: nat)
    ensures x in SpanningCombos(d, k) <==> x < Pow2(d + 1) && Pop(x) == k && Spans(x, d)
  {
    SpanningOnlyMembers(BitCombos(d + 1, k), d, x);
    BitCombosMembers(d + 1, k, x);
  }

  lemma SpanningCombosIncreasing(d: nat, k: nat)
    ensures Increasing(SpanningCombos(d, k))
  {
    BitCombosIncreasing(d + 1, k);
    SpanningOnlyIncreasing(BitCombos(d + 1, k), d);
  }
}
