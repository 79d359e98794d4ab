/** The iterator route: rulers as ascending tuples of dot positions,
    generated with itertools.combinations in order of increasing dot count,
    filtered by the plain-words measuring test, and cut after the first
    size that has any. */
module IterBased {
  import opened Wrappers
  import opened Bits
  import opened Seqs
  import opened Combinatorics
  import opened Rulers
  import opened Tuples
  import Util
  import BitBased
  import Gospers

  // ---------------------------------------------------------------------
  // itertools.combinations

  /** range(lo, lo + n). */
  function Range(lo: int, n: nat): (r: seq<int>)
    ensures |r| == n && forall i :: 0 <= i < n ==> r[i] == lo + i
  {
    seq(n, i => lo + i)
  }

  /** itertools.combinations(vals, r): the r-entry selections of vals, each
      in the order of vals, listed lexicographically by position. */
  function Choose(vals: seq<int>, r: nat): seq<seq<int>>
    decreases |vals|
  {
    if r == 0 then [[]]
    else if vals == [] then []
    else Prefixed(vals[0], Choose(vals[1..], r - 1)) + Choose(vals[1..], r)
  }

  /** Python's tuple comparison a < b, for tuples of the same length. */
  predicate LexLess(a: seq<int>, b: seq<int>)
  {
    |a| > 0 && |b| > 0 && (a[0] < b[0] || (a[0] == b[0] && LexLess(a[1..], b[1..])))
  }

  /** Each tuple is lexicographically below every later one. */
  predicate LexSorted(items: seq<seq<int>>)
  {
    forall i, j :: 0 <= i < j < |items| ==> LexLess(items[i], items[j])
  }

  lemma {:induction false} LexIrreflexive(a: seq<int>)
    ensures !LexLess(a, a)
  {
    if |a| > 0 {
      LexIrreflexive(a[1..]);
    }
  }

  /** A lexicographically sorted stream lists no tuple twice. */
  lemma LexSortedDistinct(items: seq<seq<int>>)
    requires LexSorted(items)
    ensures forall i, j :: 0 <= i < j < |items| ==> items[i] != items[j]
  {
    forall i, j | 0 <= i < j < |items|
      ensures items[i] != items[j]
    {
      LexIrreflexive(items[i]);
    }
  }

  lemma PrefixedMembers(b: int, ts: seq<seq<int>>, t: seq<int>)
    ensures t in Prefixed(b, ts) <==> |t| > 0 && t[0] == b && t[1..] in ts
  {
    if t in Prefixed(b, ts) {
      var i :| 0 <= i < |ts| && Prefixed(b, ts)[i] == t;
      assert t[1..] == ts[i];
    }
    if |t| > 0 && t[0] == b && t[1..] in ts {
      var i :| 0 <= i < |ts| && ts[i] == t[1..];
      assert Prefixed(b, ts)[i] == t;
    }
  }

  /** There are C(|vals|, r) selections. */
  lemma {:induction false} ChooseCount(vals: seq<int>, r: nat)
    ensures |Choose(vals, r)| == Binomial(|vals|, r)
    decreases |vals|
  {
    if r > 0 && vals != [] {
      ChooseCount(vals[1..], r - 1);
      ChooseCount(vals[1..], r);
    }
  }

  /** In ascending values, an entry other than the first is above it and
      lies in the rest. */
  lemma AboveHead(vals: seq<int>, x: int)
    requires Increasing(vals) && x in vals
    ensures x == vals[0] || (x in vals[1..] && vals[0] < x)
  {
    var k :| 0 <= k < |vals| && vals[k] == x;
    if k > 0 {
      assert vals[1..][k - 1] == x;
    }
  }

  lemma RestAbove(vals: seq<int>, x: int)
    requires Increasing(vals) && |vals| > 0 && x in vals[1..]
    ensures x in vals && vals[0] < x
  {
    var k :| 0 <= k < |vals[1..]| && vals[1..][k] == x;
    assert vals[k + 1] == x;
  }

  lemma ConsIncreasing(v: int, u: seq<int>)
    requires Increasing(u) && forall i :: 0 <= i < |u| ==> v < u[i]
    ensures Increasing([v] + u)
  {
    var t := [v] + u;
    forall i, j | 0 <= i < j < |t|
      ensures t[i] < t[j]
    {
      assert t[j] == u[j - 1];
      if i > 0 {
        assert t[i] == u[i - 1];
      }
    }
  }

  /** One level of the recursion of Choose: a selection either starts with
      the first value or is a selection from the rest. */
  lemma ChooseStep(vals: seq<int>, r: nat, t: seq<int>)
    requires r > 0 && vals != []
    ensures t in Choose(vals, r) <==>
      t in Prefixed(vals[0], Choose(vals[1..], r - 1)) || t in Choose(vals[1..], r)
  {
  }

  /** Every selection is an ascending r-tuple of the values. */
  lemma {:induction false} ChooseSound(vals: seq<int>, r: nat, t: seq<int>)
    requires Increasing(vals) && t in Choose(vals, r)
    ensures |t| == r && Increasing(t) && forall i :: 0 <= i < |t| ==> t[i] in vals
    decreases |vals|, 1
  {
    if r > 0 && vals != [] {
      ChooseStep(vals, r, t);
      if t in Prefixed(vals[0], Choose(vals[1..], r - 1)) {
        SoundWithFirst(vals, r, t);
      } else {
        SoundWithoutFirst(vals, r, t);
      }
    }
  }

  /** A selection that starts with the first value. */
  lemma {:induction false} SoundWithFirst(vals: seq<int>, r: nat, t: seq<int>)
    requires Increasing(vals) && r > 0 && vals != []
    requires t in Prefixed(vals[0], Choose(vals[1..], r - 1))
    ensures |t| == r && Increasing(t) && forall i :: 0 <= i < |t| ==> t[i] in vals
    decreases |vals|, 0
  {
    var v, rest := vals[0], vals[1..];
    PrefixedMembers(v, Choose(rest, r - 1), t);
    var u := t[1..];
    ChooseSound(rest, r - 1, u);
    forall i | 0 <= i < |u|
      ensures v < u[i] && u[i] in vals
    {
      RestAbove(vals, u[i]);
    }
    assert t == [v] + u;
    ConsIncreasing(v, u);
  }

  /** A selection from the values after the first. */
  lemma {:induction false} SoundWithoutFirst(vals: seq<int>, r: nat, t: seq<int>)
    requires Increasing(vals) && vals != [] && t in Choose(vals[1..], r)
    ensures |t| == r && Increasing(t) && forall i :: 0 <= i < |t| ==> t[i] in vals
    decreases |vals|, 0
  {
    ChooseSound(vals[1..], r, t);
    forall i | 0 <= i < |t|
      ensures t[i] in vals
    {
      RestAbove(vals, t[i]);
    }
  }

  /** Every ascending r-tuple of the values is a selection. */
  lemma {:induction false} ChooseComplete(vals: seq<int>, r: nat, t: seq<int>)
    requires Increasing(vals) && |t| == r && Increasing(t)
    requires forall i :: 0 <= i < |t| ==> t[i] in vals
    ensures t in Choose(vals, r)
    decreases |vals|
  {
    if r > 0 {
      assert t[0] in vals;
      var v, rest := vals[0], vals[1..];
      var head := Choose(rest, r - 1);
      ChooseStep(vals, r, t);
      if t[0] == v {
        var u := t[1..];
        assert u in head by {
          forall i | 0 <= i < |u|
            ensures u[i] in rest
          {
            assert u[i] == t[i + 1] && t[0] < t[i + 1];
            AboveHead(vals, u[i]);
          }
          ChooseComplete(rest, r - 1, u);
        }
        PrefixedMembers(v, head, t);
      } else {
        assert t in Choose(rest, r) by {
          AboveHead(vals, t[0]);
          forall i | 0 <= i < |t|
            ensures t[i] in rest
          {
            assert t[0] <= t[i];
            AboveHead(vals, t[i]);
          }
          ChooseComplete(rest, r, t);
        }
      }
    }
  }

  /** From ascending values, the selections are exactly the ascending
      r-tuples of those values. */
  lemma ChooseMembers(vals: seq<int>, r: nat, t: seq<int>)
    requires Increasing(vals)
    ensures t in Choose(vals, r) <==>
      |t| == r && Increasing(t) && forall i :: 0 <= i < |t| ==> t[i] in vals
  {
    if t in Choose(vals, r) {
      ChooseSound(vals, r, t);
    }
    if |t| == r && Increasing(t) && forall i :: 0 <= i < |t| ==> t[i] in vals {
      ChooseComplete(vals, r, t);
    }
  }

  /** The selections are listed in strictly increasing lexicographic order,
      so none is listed twice. */
  lemma {:induction false} ChooseLexSorted(vals: seq<int>, r: nat)
    requires Increasing(vals)
    ensures LexSorted(Choose(vals, r))
    decreases |vals|
  {
    if r > 0 && vals != [] {
      var v, rest := vals[0], vals[1..];
      var head, tail := Choose(rest, r - 1), Choose(rest, r);
      var front := Prefixed(v, head);
      ChooseLexSorted(rest, r - 1);
      ChooseLexSorted(rest, r);
      var all := front + tail;
      forall i, j | 0 <= i < j < |all|
        ensures LexLess(all[i], all[j])
      {
        if j < |front| {
          assert all[i][1..] == head[i] && all[j][1..] == head[j];
        } else if i < |front| {
          var b := tail[j - |front|];
          assert b in tail;
          ChooseMembers(rest, r, b);
          assert b[0] in rest;
        } else {
          assert all[i] == tail[i - |front|] && all[j] == tail[j - |front|];
        }
      }
    }
  }

  // ---------------------------------------------------------------------
  // Generating tuples

  /** combos_with_n_dots_count: the number of tuples combos_with_n_dots
      would list, after the same three argument checks. */
  function CombosWithNDotsCount(distance: int, dotcount: int): (r: Result<nat>)
    ensures distance < 0 ==> r == Failure(NegativeDistance)
    ensures distance >= 0 && dotcount < 0 ==> r == Failure(NegativeDotCount)
    ensures distance >= 0 && dotcount > distance + 1 ==> r == Failure(TooManyDots)
    ensures r.Success? <==> 0 <= distance && 0 <= dotcount <= distance + 1
    ensures r.Success? ==> r.value == Binomial(distance + 1, dotcount)
  {
    if distance < 0 then Failure(NegativeDistance)
    else if dotcount < 0 then Failure(NegativeDotCount)
    else if dotcount > distance + 1 then Failure(TooManyDots)
    else Util.CombinationsCount(Range(0, distance + 1), dotcount)
  }

  /** combos_with_n_dots: every dotcount-entry tuple of positions offset ..
      offset + distance, in lexicographic order. */
  function CombosWithNDots(distance: int, dotcount: int, offset: int): (r: Result<seq<seq<int>>>)
    ensures distance < 0 ==> r == Failure(NegativeDistance)
    ensures distance >= 0 && dotcount < 0 ==> r == Failure(NegativeDotCount)
    ensures distance >= 0 && dotcount > distance + 1 ==> r == Failure(TooManyDots)
    ensures r.Success? <==> 0 <= distance && 0 <= dotcount <= distance + 1
  {
    if distance < 0 then Failure(NegativeDistance)
    else if dotcount < 0 then Failure(NegativeDotCount)
    else if dotcount > distance + 1 then Failure(TooManyDots)
    else Success(Choose(Range(offset, distance + 1), dotcount))
  }

  /** The count agrees with the tuples listed. */
  lemma CountMatches(distance: int, dotcount: int, offset: int)
    requires CombosWithNDotsCount(distance, dotcount).Success?
    ensures CombosWithNDots(distance, dotcount, offset).Success?
    ensures CombosWithNDotsCount(distance, dotcount).value == |CombosWithNDots(distance, dotcount, offset).value|
  {
    ChooseCount(Range(offset, distance + 1), dotcount);
  }

  /** Each listed tuple is an ascending choice of dotcount positions from
      offset .. offset + distance, every such choice is listed, and the list
      is in strictly increasing lexicographic order. */
  lemma CombosWithNDotsMembers(distance: int, dotcount: int, offset: int, t: seq<int>)
    requires CombosWithNDots(distance, dotcount, offset).Success?
    ensures t in CombosWithNDots(distance, dotcount, offset).value <==>
      |t| == dotcount && Increasing(t) && forall i :: 0 <= i < |t| ==> offset <= t[i] <= offset + distance
    ensures LexSorted(CombosWithNDots(distance, dotcount, offset).value)
  {
    var vals := Range(offset, distance + 1);
    ChooseMembers(vals, dotcount, t);
    ChooseLexSorted(vals, dotcount);
    forall x
      ensures x in vals <==> offset <= x <= offset + distance
    {
      if offset <= x <= offset + distance {
        assert vals[x - offset] == x;
      }
    }
  }

  /** The iterator route and the bitwise route list the same tuples: every
      tuple listed here is the position tuple of a combo the bitwise
      enumerator yields, and the position tuple of every such combo is
      listed here. */
  lemma CombosWithNDotsAgree(distance: int, dotcount: int)
    requires CombosWithNDots(distance, dotcount, 0).Success?
    ensures BitBased.CombosWithNDots(distance, dotcount).Success?
    ensures forall t :: t in CombosWithNDots(distance, dotcount, 0).value ==>
      t in BitBased.CombosWithNDots(distance, dotcount).value
    ensures forall i :: 0 <= i < |BitBased.CombosWithNDots(distance, dotcount).value| ==>
      BitBased.CombosWithNDots(distance, dotcount).value[i] in CombosWithNDots(distance, dotcount, 0).value
  {
    var tuples := CombosWithNDots(distance, dotcount, 0).value;
    var cs := Gospers.BitCombos(distance + 1, dotcount);
    var bits := BitBased.CombosWithNDots(distance, dotcount).value;
    forall t | t in tuples
      ensures t in bits
    {
      CombosWithNDotsMembers(distance, dotcount, 0, t);
      TupleCombo(t, distance + 1);
      Gospers.BitCombosMembers(distance + 1, dotcount, BitsOf(t));
      var j :| 0 <= j < |cs| && cs[j] == BitsOf(t);
      assert bits[j] == t;
    }
    forall i | 0 <= i < |bits|
      ensures bits[i] in tuples
    {
      CombosWithNDotsMembers(distance, dotcount, 0, bits[i]);
    }
  }

  /** The tuples of every dot count below count, smallest dot count first. */
  function Groups(vals: seq<int>, count: nat): seq<seq<int>>
  {
    if count == 0 then [] else Groups(vals, count - 1) + Choose(vals, count - 1)
  }

  lemma {:induction false} GroupsMembers(vals: seq<int>, count: nat, t: seq<int>)
    requires Increasing(vals)
    ensures t in Groups(vals, count) <==>
      |t| < count && Increasing(t) && forall i :: 0 <= i < |t| ==> t[i] in vals
  {
    if count > 0 {
      GroupsMembers(vals, count - 1, t);
      ChooseMembers(vals, count - 1, t);
    }
  }

  lemma {:induction false} GroupsSorted(vals: seq<int>, count: nat)
    requires Increasing(vals)
    ensures LengthSorted(Groups(vals, count))
  {
    if count > 0 {
      var front, back := Groups(vals, count - 1), Choose(vals, count - 1);
      GroupsSorted(vals, count - 1);
      forall j | 0 <= j < |back|
        ensures |back[j]| == count - 1
      {
        ChooseSound(vals, count - 1, back[j]);
      }
      forall i | 0 <= i < |front|
        ensures |front[i]| <= count - 1
      {
        GroupsMembers(vals, count - 1, front[i]);
      }
      AppendLengthSorted(front, back, count - 1);
    }
  }

  /** all_combos: the tuples of every dot count 0 through distance + 1 over
      offset .. offset + distance, smallest dot count first. For distance -1
      the first group already raises. */
  function AllCombos(distance: int, offset: int): (r: Result<seq<seq<int>>>)
    ensures r.Failure? <==> distance == -1
  {
    if distance + 2 <= 0 then Success([])
    else if distance < 0 then Failure(NegativeDistance)
    else Success(Groups(Range(offset, distance + 1), distance + 2))
  }

  /** Every ascending tuple of positions from offset .. offset + distance
      is listed, and no tuple comes after a longer one. */
  lemma AllCombosMembers(distance: int, offset: int, t: seq<int>)
    requires distance >= 0
    ensures AllCombos(distance, offset).Success?
    ensures t in AllCombos(distance, offset).value <==>
      Increasing(t) && forall i :: 0 <= i < |t| ==> offset <= t[i] <= offset + distance
    ensures LengthSorted(AllCombos(distance, offset).value)
  {
    var vals := Range(offset, distance + 1);
    GroupsMembers(vals, distance + 2, t);
    GroupsSorted(vals, distance + 2);
    forall x
      ensures x in vals <==> offset <= x <= offset + distance
    {
      if offset <= x <= offset + distance {
        assert vals[x - offset] == x;
      }
    }
    if |t| > 0 && Increasing(t) && forall i :: 0 <= i < |t| ==> offset <= t[i] <= offset + distance {
      IncreasingSpread(t, |t| - 1);
    }
  }

  /** Below distance -1 there are no positions and nothing is listed. */
  lemma AllCombosNone(distance: int, offset: int)
    requires distance <= -2
    ensures AllCombos(distance, offset) == Success([])
  {
  }

  /** Each inner tuple with 0 added in front and distance added behind. */
  function Spanned(inner: seq<seq<int>>, distance: int): (r: seq<seq<int>>)
    ensures |r| == |inner| && forall i :: 0 <= i < |inner| ==> r[i] == [0] + inner[i] + [distance]
  {
    seq(|inner|, i requires 0 <= i < |inner| => [0] + inner[i] + [distance])
  }

  /** combos_that_span: the tuples holding both ends, built as 0, an inner
      tuple over 1 .. distance - 1, and distance. */
  function CombosThatSpan(distance: int): (r: seq<seq<int>>)
    ensures forall t :: t in r ==> |t| >= 2 && t[0] == 0 && t[|t| - 1] == distance
  {
    if distance == 1 then [[0, 1]]
    else
      match AllCombos(distance - 2, 1)
      case Success(inner) => Spanned(inner, distance)
      case Failure(_) => []
  }

  lemma SpannedMembers(inner: seq<seq<int>>, d: int, t: seq<int>)
    ensures t in Spanned(inner, d) <==>
      |t| >= 2 && t[0] == 0 && t[|t| - 1] == d && t[1..|t| - 1] in inner
  {
    var all := Spanned(inner, d);
    if t in all {
      var k :| 0 <= k < |all| && all[k] == t;
      assert t[1..|t| - 1] == inner[k];
    }
    if |t| >= 2 && t[0] == 0 && t[|t| - 1] == d && t[1..|t| - 1] in inner {
      var k :| 0 <= k < |inner| && inner[k] == t[1..|t| - 1];
      assert all[k] == t;
    }
  }

  lemma SpannedSorted(inner: seq<seq<int>>, d: int)
    requires LengthSorted(inner)
    ensures LengthSorted(Spanned(inner, d))
  {
  }

  /** For d >= 2 a span tuple is 0, an ascending tuple over 1 .. d - 1, and d. */
  lemma InnerSpan(t: seq<int>, d: int)
    requires d >= 2 && |t| >= 2 && t[0] == 0 && t[|t| - 1] == d
    ensures SpanTuple(t, d) <==>
      var u := t[1..|t| - 1]; Increasing(u) && forall i :: 0 <= i < |u| ==> 1 <= u[i] <= d - 1
  {
    var u := t[1..|t| - 1];
    if SpanTuple(t, d) {
      InnerOfSpan(t, d);
    }
    if Increasing(u) && forall i :: 0 <= i < |u| ==> 1 <= u[i] <= d - 1 {
      SpanOfInner(t, d);
    }
  }

  lemma InnerOfSpan(t: seq<int>, d: int)
    requires d >= 2 && SpanTuple(t, d)
    ensures |t| >= 2 && var u := t[1..|t| - 1];
      Increasing(u) && forall i :: 0 <= i < |u| ==> 1 <= u[i] <= d - 1
  {
    SpanTupleShape(t, d);
    var u := t[1..|t| - 1];
    forall i, j | 0 <= i < j < |u|
      ensures u[i] < u[j]
    {
      assert u[i] == t[i + 1] && u[j] == t[j + 1];
    }
    forall i | 0 <= i < |u|
      ensures 1 <= u[i] <= d - 1
    {
      assert u[i] == t[i + 1];
    }
  }

  lemma SpanOfInner(t: seq<int>, d: int)
    requires d >= 2 && |t| >= 2 && t[0] == 0 && t[|t| - 1] == d
    requires var u := t[1..|t| - 1];
      Increasing(u) && forall i :: 0 <= i < |u| ==> 1 <= u[i] <= d - 1
    ensures SpanTuple(t, d)
  {
    var u := t[1..|t| - 1];
    forall i, j | 0 <= i < j < |t|
      ensures t[i] < t[j]
    {
      if 0 < i {
        assert t[i] == u[i - 1];
      }
      if j < |t| - 1 {
        assert t[j] == u[j - 1];
      }
    }
    forall i | 0 <= i < |t|
      ensures 0 <= t[i] < d + 1
    {
      if 0 < i < |t| - 1 {
        assert t[i] == u[i - 1];
      }
    }
    assert t[0] in t && t[|t| - 1] in t;
  }

  /** For a ruler of length 1 the only span tuple is 0, 1. */
  lemma SpanOne(t: seq<int>)
    ensures t in CombosThatSpan(1) <==> SpanTuple(t, 1)
  {
    if SpanTuple(t, 1) {
      SpanTupleShape(t, 1);
      IncreasingSpread(t, |t| - 1);
      assert t == [0, 1];
    }
  }

  lemma SpanWide(d: int, t: seq<int>)
    requires d >= 2
    ensures t in CombosThatSpan(d) <==> SpanTuple(t, d)
    ensures LengthSorted(CombosThatSpan(d))
  {
    AllCombosMembers(d - 2, 1, []);
    var inner := AllCombos(d - 2, 1).value;
    assert CombosThatSpan(d) == Spanned(inner, d);
    SpannedSpanTuple(d, inner, t);
    SpannedSorted(inner, d);
  }

  /** 0 and d around every inner tuple over 1 .. d - 1: the span tuples. */
  lemma SpannedSpanTuple(d: int, inner: seq<seq<int>>, t: seq<int>)
    requires d >= 2 && AllCombos(d - 2, 1).Success? && inner == AllCombos(d - 2, 1).value
    ensures t in Spanned(inner, d) <==> SpanTuple(t, d)
  {
    SpannedMembers(inner, d, t);
    if |t| >= 2 && t[0] == 0 && t[|t| - 1] == d {
      AllCombosMembers(d - 2, 1, t[1..|t| - 1]);
      InnerSpan(t, d);
    } else if SpanTuple(t, d) {
      SpanTupleShape(t, d);
    }
  }

  /** For a ruler of positive length, exactly the span tuples are listed,
      smallest first; for length 0 or less nothing is. */
  lemma CombosThatSpanMembers(distance: int, t: seq<int>)
    ensures distance <= 0 ==> CombosThatSpan(distance) == []
    ensures distance >= 1 ==> (t in CombosThatSpan(distance) <==> SpanTuple(t, distance))
    ensures LengthSorted(CombosThatSpan(distance))
  {
    if distance == 1 {
      SpanOne(t);
    } else if distance >= 2 {
      SpanWide(distance, t);
    }
  }

  // ---------------------------------------------------------------------
  // Measuring

  /** lengths_covered: the nested loops over pairs of dots, collecting every
      positive difference. */
  method LengthsCovered(combo: seq<int>) returns (lengths: set<int>)
    ensures lengths == Differences(combo)
  {
    lengths := {};
    var a := 0;
    while a < |combo|
      invariant 0 <= a <= |combo|
      invariant lengths == set i, j | 0 <= i < a && 0 <= j < |combo| && combo[j] - combo[i] > 0 :: combo[j] - combo[i]
    {
      var b := 0;
      while b < |combo|
        invariant 0 <= b <= |combo|
        invariant lengths == (set i, j | 0 <= i < a && 0 <= j < |combo| && combo[j] - combo[i] > 0 :: combo[j] - combo[i]) +
          (set j | 0 <= j < b && combo[j] - combo[a] > 0 :: combo[j] - combo[a])
      {
        if combo[b] - combo[a] > 0 {
          lengths := lengths + {combo[b] - combo[a]};
        }
        b := b + 1;
      }
      a := a + 1;
    }
  }

  /** combo_measures: whether every length 1 through distance is measured;
      a missing or zero distance means the combo's own length, max - min,
      which an empty combo does not have. */
  function ComboMeasures(combo: seq<int>, distance: Option<int>): (r: Result<bool>)
    ensures r.Failure? <==> (distance.None? || distance.value == 0) && combo == []
    ensures r.Success? ==> (r.value <==>
      var needed := if distance.None? || distance.value == 0 then Max(combo) - Min(combo) else distance.value;
      forall m :: 1 <= m <= needed ==> Apart(combo, m))
  {
    if (distance.None? || distance.value == 0) && combo == [] then Failure(EmptyCombo)
    else
      var needed := if distance.None? || distance.value == 0 then Max(combo) - Min(combo) else distance.value;
      DifferencesMembers(combo);
      Success(CoversUpTo(combo, needed))
  }

  /** Some dot lies m past another. */
  predicate Apart(combo: seq<int>, m: int)
  {
    exists i, j :: 0 <= i < |combo| && 0 <= j < |combo| && combo[j] - combo[i] == m
  }

  lemma DifferencesMembers(combo: seq<int>)
    ensures forall m :: m > 0 ==> (m in Differences(combo) <==> Apart(combo, m))
  {
  }

  /** For a span tuple the default distance is the ruler's own length. */
  lemma DefaultDistance(t: seq<int>, d: int)
    requires SpanTuple(t, d) && d >= 1
    ensures ComboMeasures(t, None) == ComboMeasures(t, Some(d)) == Success(CoversUpTo(t, d))
  {
    SpanTupleShape(t, d);
    assert Max(t) == d;
    assert Min(t) == 0;
  }

  /** The plain-words test on the positions of a combo agrees with the
      bitwise shift-AND test. */
  lemma ComboMeasuresBits(c: nat, d: int)
    requires d != 0
    ensures ComboMeasures(Positions(c), Some(d)) == Success(Measures(c, d))
  {
    MeasuresCovers(c, d);
  }

  // ---------------------------------------------------------------------
  // The search

  /** until_len_changes: pass items through up to, not including, the first
      one whose length differs from the first item's. */
  method UntilLenChanges(items: seq<seq<int>>) returns (run: seq<seq<int>>)
    requires |items| > 0
    ensures RunEnd(items, |run|) && run == items[..|run|]
  {
    var length := |items[0]|;
    run := [items[0]];
    var i := 1;
    while i < |items|
      invariant 1 <= i <= |items| && run == items[..i]
      invariant forall k :: 0 <= k < i ==> |items[k]| == length
    {
      if |items[i]| != length {
        break;
      }
      run := run + [items[i]];
      i := i + 1;
    }
  }

  /** Whether a tuple has a dot one place in from either end. */
  function NearEnd(distance: int): seq<int> -> bool
  {
    c => 1 in c || (distance - 1) in c
  }

  /** Whether a tuple measures its own length. */
  function MeasuresOwnLength(c: seq<int>): bool
  {
    ComboMeasures(c, None) == Success(true)
  }

  /** The measuring span tuples in the order best_combos sees them. */
  function GoodCombos(distance: int): (r: seq<seq<int>>)
    ensures forall t :: t in r <==> t in CombosThatSpan(distance) && NearEnd(distance)(t) && MeasuresOwnLength(t)
  {
    FilterTwice(NearEnd(distance), MeasuresOwnLength, CombosThatSpan(distance));
    Filter(MeasuresOwnLength, Filter(NearEnd(distance), CombosThatSpan(distance)))
  }

  /** A ruler that measures every length must measure distance - 1, which
      only the pairs 0, distance - 1 and 1, distance can do: the near-end
      filter drops no good tuple. */
  lemma NearEndKeepsGood(t: seq<int>, d: int)
    requires d >= 1 && GoodTuple(t, d)
    ensures NearEnd(d)(t)
  {
    SpanTupleShape(t, d);
    if d >= 2 {
      assert d - 1 in Differences(t);
      var i, j :| 0 <= i < |t| && 0 <= j < |t| && t[j] - t[i] == d - 1;
      assert 0 <= t[i] && t[j] <= d;
      if t[i] == 0 {
        assert t[j] == d - 1;
      } else {
        assert t[i] == 1;
      }
    } else {
      assert t[0] == d - 1;
    }
  }

  /** For a ruler of positive length, the good stream holds exactly the
      good tuples, smallest first. */
  lemma GoodCombosMembers(d: int)
    requires d >= 1
    ensures forall t :: t in GoodCombos(d) <==> GoodTuple(t, d)
    ensures LengthSorted(GoodCombos(d))
  {
    forall t
      ensures t in GoodCombos(d) <==> GoodTuple(t, d)
    {
      CombosThatSpanMembers(d, t);
      FilterMembers(NearEnd(d), CombosThatSpan(d), t);
      FilterMembers(MeasuresOwnLength, Filter(NearEnd(d), CombosThatSpan(d)), t);
      if SpanTuple(t, d) {
        DefaultDistance(t, d);
        if GoodTuple(t, d) {
          NearEndKeepsGood(t, d);
        }
      }
    }
    CombosThatSpanMembers(d, []);
    FilterLengthSorted(NearEnd(d), CombosThatSpan(d));
    FilterLengthSorted(MeasuresOwnLength, Filter(NearEnd(d), CombosThatSpan(d)));
  }

  /** The full ruler 0, 1, ..., d is good. */
  lemma FullRulerGood(d: int)
    requires d >= 1
    ensures GoodTuple(Range(0, d + 1), d)
  {
    var t := Range(0, d + 1);
    assert t[0] == 0 && t[d] == d;
    forall m | 1 <= m <= d
      ensures m in Differences(t)
    {
      assert t[m] - t[0] == m;
    }
  }

  /** best_combos: the good tuples of the smallest size, in the order
      generated. They are the position tuples of exactly the rulers the
      bitwise search finds. */
  method BestCombos(distance: int) returns (best: seq<seq<int>>)
    requires distance >= 1
    ensures RunEnd(GoodCombos(distance), |best|) && best == GoodCombos(distance)[..|best|]
    ensures forall t :: t in best ==> BitsOf(t) in BitBased.Best(distance) && Positions(BitsOf(t)) == t
    ensures forall x :: x in BitBased.Best(distance) ==> Positions(x) in best
  {
    var spanning := CombosThatSpan(distance);
    var near := Filter(NearEnd(distance), spanning);
    var good := Filter(MeasuresOwnLength, near);
    GoodCombosMembers(distance);
    FullRulerGood(distance);
    best := UntilLenChanges(good);
    BitBased.BestOptimal(distance);
    RunIsBest(good, |best|, distance, BitBased.Best(distance));
  }
}
