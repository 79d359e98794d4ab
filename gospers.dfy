/** Gosper's hack (HAKMEM item 175): enumerate, in ascending order, every
    integer of a given bit width with a given number of one bits. */
module Gospers {
  import opened Bits
  import opened Seqs
  import opened Combinatorics

  /** The integers of [lo, hi), ascending, that have exactly k one bits. */
  function SameWeight(lo: nat, hi: nat, k: nat): seq<nat>
    decreases hi
  {
    if hi <= lo then [] else SameWeight(lo, hi - 1, k) + (if Pop(hi - 1) == k then [hi - 1] else [])
  }

  /** Every integer below 2^width with exactly k one bits, ascending. */
  function BitCombos(width: nat, k: nat): seq<nat>
  {
    SameWeight(0, Pow2(width), k)
  }

  // ---------------------------------------------------------------------
  // What SameWeight holds

  lemma {:induction false} SameWeightMembers(lo: nat, hi: nat, k: nat, x: int)
    ensures x in SameWeight(lo, hi, k) <==> lo <= x < hi && Pop(x) == k
    decreases hi
  {
    if hi > lo {
      SameWeightMembers(lo, hi - 1, k, x);
    }
  }

  lemma {:induction false} SameWeightIncreasing(lo: nat, hi: nat, k: nat)
    ensures Increasing(SameWeight(lo, hi, k))
    decreases hi
  {
    if hi > lo {
      SameWeightIncreasing(lo, hi - 1, k);
      var s := SameWeight(lo, hi - 1, k);
      forall i | 0 <= i < |s|
        ensures s[i] < hi - 1
      {
        SameWeightMembers(lo, hi - 1, k, s[i]);
      }
      IncreasingAppend(SameWeight(lo, hi - 1, k), if Pop(hi - 1) == k then [hi - 1] else []);
    }
  }

  /** Splitting the interval splits the enumeration. */
  lemma {:induction false} SameWeightConcat(lo: nat, mid: nat, hi: nat, k: nat)
    requires lo <= mid <= hi
    ensures SameWeight(lo, hi, k) == SameWeight(lo, mid, k) + SameWeight(mid, hi, k)
    decreases hi
  {
    if hi > mid {
      SameWeightConcat(lo, mid, hi - 1, k);
    }
  }

  /** A stretch with no integer of weight k contributes nothing. */
  lemma {:induction false} SameWeightSkip(lo: nat, mid: nat, hi: nat, k: nat)
    requires lo <= mid <= hi
    requires forall y: nat :: mid <= y < hi ==> Pop(y) != k
    ensures SameWeight(lo, hi, k) == SameWeight(lo, mid, k)
    decreases hi
  {
    if hi > mid {
      SameWeightSkip(lo, mid, hi - 1, k);
    }
  }

  /** Above 2^w, the integers of weight k are 2^w plus those of weight k - 1. */
  lemma {:induction false} SameWeightHighCount(w: nat, n: nat, k: nat)
    requires n <= Pow2(w)
    ensures |SameWeight(Pow2(w), Pow2(w) + n, k)| == if k == 0 then 0 else |SameWeight(0, n, k - 1)|
  {
    if n > 0 {
      var P := Pow2(w);
      SameWeightHighCount(w, n - 1, k);
      PopSplit(1, n - 1, w);
      assert Pop(1) == 1 && 1 * P == P;
      assert Pop(P + n - 1) == 1 + Pop(n - 1);
      assert SameWeight(P, P + n, k) == SameWeight(P, P + n - 1, k) + (if Pop(P + n - 1) == k then [P + n - 1] else []);
      if k > 0 {
        assert SameWeight(0, n, k - 1) == SameWeight(0, n - 1, k - 1) + (if Pop(n - 1) == k - 1 then [n - 1] else []);
      }
    }
  }

  // ---------------------------------------------------------------------
  // What the generator promises

  /** Exactly the width-bit integers of weight k are enumerated. */
  lemma BitCombosMembers(width: nat, k: nat, x: int)
    ensures x in BitCombos(width, k) <==> 0 <= x < Pow2(width) && Pop(x) == k
  {
    SameWeightMembers(0, Pow2(width), k, x);
  }

  /** The enumeration is strictly ascending, so each value appears once and
      consecutive values have no integer of the same weight between them. */
  lemma BitCombosIncreasing(width: nat, k: nat)
    ensures Increasing(BitCombos(width, k))
  {
    SameWeightIncreasing(0, Pow2(width), k);
  }

  /** There are C(width, k) values. */
  lemma {:induction false} BitCombosCount(width: nat, k: nat)
    ensures |BitCombos(width, k)| == Binomial(width, k)
  {
    if width == 0 {
      assert BitCombos(0, k) == SameWeight(0, 0, k) + (if Pop(0) == k then [0] else []);
    } else {
      var w := width - 1;
      assert Pow2(width) == Pow2(w) + Pow2(w);
      SameWeightConcat(0, Pow2(w), Pow2(width), k);
      SameWeightHighCount(w, Pow2(w), k);
      BitCombosCount(w, k);
      if k > 0 {
        BitCombosCount(w, k - 1);
      }
    }
  }

  /** With no dots there is one combo, the empty one. */
  lemma BitCombosNoDots(width: nat)
    ensures BitCombos(width, 0) == [0]
  {
    var s := BitCombos(width, 0);
    BitCombosIncreasing(width, 0);
    forall x
      ensures x in s <==> x in [0]
    {
      BitCombosMembers(width, 0, x);
      if x > 0 {
        PopPositive(x);
      }
    }
    SortedUnique(s, [0]);
  }

  /** The first value is 2^k - 1, the smallest integer with k one bits. */
  lemma BitCombosFirst(width: nat, k: nat)
    requires k <= width
    ensures |BitCombos(width, k)| > 0 && BitCombos(width, k)[0] == Pow2(k) - 1
  {
    Pow2Monotone(k, width);
    PopOnes(k);
    NoneBelowOnes(k);
    SameWeightSkip(0, 0, Pow2(k) - 1, k);
    SameWeightConcat(0, Pow2(k) - 1, Pow2(width), k);
    assert SameWeight(0, Pow2(k), k) == [Pow2(k) - 1];
    SameWeightConcat(Pow2(k) - 1, Pow2(k), Pow2(width), k);
  }

  /** No integer below 2^k - 1 has k one bits. */
  lemma NoneBelowOnes(k: nat)
    ensures forall y: nat :: y < Pow2(k) - 1 ==> Pop(y) != k
  {
    forall y: nat | y < Pow2(k) - 1
      ensures Pop(y) != k
    {
      PopBound(y, k);
    }
  }

  // ---------------------------------------------------------------------
  // One step of Gosper's hack

  /** A non-zero combo reads, from the top: an even head E, then r >= 1
      ones, then t zeros; -bits & bits is 2^t. */
  lemma GosperShape(bits: nat) returns (E: nat, r: nat, t: nat)
    requires bits > 0
    ensures r >= 1 && E % 2 == 0
    ensures LowestSetBit(bits) == Pow2(t)
    ensures Pow2(r + t) == Pow2(r) * Pow2(t)
    ensures bits == E * Pow2(r + t) + (Pow2(r + t) - Pow2(t))
  {
    var o;
    t, o := LowestSetBitSplit(bits);
    r, E := TrailingOnesSplit(o);
    Pow2Add(r, t);
    ShapeArith(E, Pow2(r), Pow2(t), o);
  }

  lemma ShapeArith(E: int, R: int, M: int, o: int)
    requires o == E * R + R - 1
    ensures o * M == E * (R * M) + (R * M - M)
  {
  }

  lemma XorEvenSuccessor(E: nat)
    requires E % 2 == 0
    ensures Xor(E, E + 1) == 1
  {
    BitwiseSplit(XorOp, E, E + 1, E / 2, 0, E / 2, 1, 1);
    XorSelf(E / 2);
  }

  /** bits ^ leftbits, divided by the lowest one bit, is a run of r + 1 ones. */
  lemma GosperLostBits(E: nat, r: nat, t: nat, bits: nat)
    requires r >= 1 && E % 2 == 0 && Pow2(r + t) == Pow2(r) * Pow2(t)
    requires bits == E * Pow2(r + t) + (Pow2(r + t) - Pow2(t))
    ensures bits + Pow2(t) == (E + 1) * Pow2(r + t)
    ensures Xor(bits, bits + Pow2(t)) / Pow2(t) == Pow2(r + 1) - 1
  {
    GosperChanged(E, r, t, bits);
    LostDivide(r, t);
  }

  lemma GosperChanged(E: nat, r: nat, t: nat, bits: nat)
    requires r >= 1 && E % 2 == 0 && Pow2(r + t) == Pow2(r) * Pow2(t)
    requires bits == E * Pow2(r + t) + (Pow2(r + t) - Pow2(t))
    ensures bits + Pow2(t) == (E + 1) * Pow2(r + t)
    ensures Xor(bits, bits + Pow2(t)) == 2 * Pow2(r + t) - Pow2(t)
  {
    var S, M := Pow2(r + t), Pow2(t);
    MulLe(1, Pow2(r), M);
    SuccArith(E, S);
    assert bits + M == (E + 1) * S + 0;
    BitwiseSplit(XorOp, bits, bits + M, E, S - M, E + 1, 0, r + t);
    XorEvenSuccessor(E);
    BitwiseZeroRight(XorOp, S - M);
  }

  lemma LostDivide(r: nat, t: nat)
    requires Pow2(r + t) == Pow2(r) * Pow2(t) && r >= 1
    ensures (2 * Pow2(r + t) - Pow2(t)) / Pow2(t) == Pow2(r + 1) - 1
  {
    LostArith(Pow2(r), Pow2(t), Pow2(r + t));
    DivModUnique(2 * Pow2(r + t) - Pow2(t), Pow2(t), 2 * Pow2(r) - 1, 0);
  }

  lemma SuccArith(E: int, S: int)
    ensures (E + 1) * S == E * S + S && 1 * S == S
  {
  }

  lemma LostArith(R: int, M: int, S: int)
    requires S == R * M
    ensures 2 * S - M == (2 * R - 1) * M + 0
  {
  }

  /** The next combo is the head E + 1 followed by r - 1 ones at the bottom. */
  lemma GosperNextShape(E: nat, r: nat, t: nat)
    requires r >= 1
    ensures Or((E + 1) * Pow2(r + t), Shr(Pow2(r + 1) - 1, 2)) == (E + 1) * Pow2(r + t) + (Pow2(r - 1) - 1)
  {
    var low := Pow2(r - 1) - 1;
    ShrOnes(r + 1, 2);
    assert Shr(Pow2(r + 1) - 1, 2) == low;
    Pow2Monotone(r - 1, r + t);
    OrDisjoint(E + 1, low, r + t);
  }

  /** Between bits and leftbits every integer has more ones than bits. */
  lemma GosperGapBelow(E: nat, r: nat, t: nat, y: nat)
    requires r >= 1 && Pow2(r + t) == Pow2(r) * Pow2(t)
    requires E * Pow2(r + t) + (Pow2(r + t) - Pow2(t)) < y < E * Pow2(r + t) + Pow2(r + t)
    ensures Pop(y) > Pop(E) + r
  {
    var S, R, M := Pow2(r + t), Pow2(r), Pow2(t);
    var v := y - E * S - (S - M);
    LowArith(R, M, S);
    PopSplit(E, (R - 1) * M + v, r + t);
    PopSplit(R - 1, v, t);
    PopOnes(r);
    PopPositive(v);
  }

  lemma LowArith(R: int, M: int, S: int)
    requires S == R * M
    ensures S - M == (R - 1) * M
  {
  }

  /** Between leftbits and the successor every integer has fewer ones than bits. */
  lemma GosperGapAbove(E: nat, r: nat, t: nat, y: nat)
    requires r >= 1 && E % 2 == 0
    requires (E + 1) * Pow2(r + t) <= y < (E + 1) * Pow2(r + t) + (Pow2(r - 1) - 1)
    ensures Pop(y) < Pop(E) + r
  {
    var v := y - (E + 1) * Pow2(r + t);
    Pow2Monotone(r - 1, r + t);
    PopSplit(E + 1, v, r + t);
    PopEvenPlusOne(E);
    PopBound(v, r - 1);
  }

  /** A successor below 2^n keeps the next combo below 2^n. */
  lemma GosperBound(E: nat, r: nat, t: nat, n: nat)
    requires r >= 1
    requires (E + 1) * Pow2(r + t) < Pow2(n)
    ensures (E + 1) * Pow2(r + t) + (Pow2(r - 1) - 1) < Pow2(n)
  {
    var S := Pow2(r + t);
    MulLe(1, E + 1, S);
    if n <= r + t {
      Pow2Monotone(n, r + t);
    }
    Pow2Add(n - (r + t), r + t);
    var Q := Pow2(n - (r + t));
    BoundArith(E + 1, Q, S);
    Pow2Monotone(r - 1, r + t);
  }

  lemma BoundArith(a: nat, Q: nat, S: nat)
    requires a * S < Q * S
    ensures a * S + S <= Q * S
  {
    if Q <= a {
      MulLe(Q, a, S);
    }
    MulLe(a + 1, Q, S);
  }

  /** The value the loop body computes from bits when it does not exit:
      leftbits | ((bits ^ leftbits) // rightmost >> 2). */
  function Successor(bits: nat): nat
    requires bits > 0
  {
    var rightmost := LowestSetBit(bits);
    var leftbits := bits + rightmost;
    Or(leftbits, Shr(Xor(bits, leftbits) / rightmost, 2))
  }

  /** The carry test: leftbits & (1 << length) is set exactly when leftbits
      has left the length-bit window. */
  lemma GosperCarry(bits: nat, length: nat)
    requires 0 < bits < Pow2(length)
    ensures var leftbits := bits + LowestSetBit(bits);
            And(leftbits, Pow2(length)) != 0 <==> leftbits >= Pow2(length)
  {
    AndPow2(bits + LowestSetBit(bits), length);
    TopBit(bits + LowestSetBit(bits), length);
  }

  /** Both bits and its successor have Pop(E) + r ones. */
  lemma GosperWeights(E: nat, r: nat, t: nat, bits: nat)
    requires r >= 1 && E % 2 == 0 && Pow2(r + t) == Pow2(r) * Pow2(t)
    requires bits == E * Pow2(r + t) + (Pow2(r + t) - Pow2(t))
    ensures Pop(bits) == Pop(E) + r
    ensures Pop((E + 1) * Pow2(r + t) + (Pow2(r - 1) - 1)) == Pop(E) + r
  {
    WeightBefore(E, r, t, bits);
    WeightAfter(E, r, t);
  }

  lemma WeightBefore(E: nat, r: nat, t: nat, bits: nat)
    requires r >= 1 && Pow2(r + t) == Pow2(r) * Pow2(t)
    requires bits == E * Pow2(r + t) + (Pow2(r + t) - Pow2(t))
    ensures Pop(bits) == Pop(E) + r
  {
    var S, M, R := Pow2(r + t), Pow2(t), Pow2(r);
    var ones: nat := R - 1;
    MulLe(1, R, M);
    LowArith(R, M, S);
    var low: nat := ones * M;
    assert bits == E * S + low && low < S;
    PopSplit(E, low, r + t);
    PopShift(ones, t);
    PopOnes(r);
  }

  lemma WeightAfter(E: nat, r: nat, t: nat)
    requires r >= 1 && E % 2 == 0
    ensures Pop((E + 1) * Pow2(r + t) + (Pow2(r - 1) - 1)) == Pop(E) + r
  {
    var low: nat := Pow2(r - 1) - 1;
    Pow2Monotone(r - 1, r + t);
    PopSplit(E + 1, low, r + t);
    PopEvenPlusOne(E);
    PopOnes(r - 1);
  }

  /** One pass of the loop body: the carry test and the successor. */
  lemma GosperStep(bits: nat, length: nat)
    requires 0 < bits < Pow2(length)
    ensures var leftbits := bits + LowestSetBit(bits);
            And(leftbits, Pow2(length)) != 0 <==> leftbits >= Pow2(length)
    ensures var leftbits, next := bits + LowestSetBit(bits), Successor(bits);
            bits < next && leftbits <= next && Pop(next) == Pop(bits) &&
            (forall y: nat :: bits < y < next ==> Pop(y) != Pop(bits)) &&
            (leftbits < Pow2(length) ==> next < Pow2(length))
  {
    GosperCarry(bits, length);
    var E, r, t := GosperShape(bits);
    var leftbits, low := (E + 1) * Pow2(r + t), Pow2(r - 1) - 1;
    GosperSuccessor(E, r, t, bits);
    GosperWeights(E, r, t, bits);
    GosperGap(E, r, t, bits);
    if leftbits < Pow2(length) {
      GosperBound(E, r, t, length);
    }
  }

  /** In terms of the shape of bits, leftbits is the head E + 1 moved up and
      the successor adds r - 1 ones at the bottom. */
  lemma GosperSuccessor(E: nat, r: nat, t: nat, bits: nat)
    requires r >= 1 && E % 2 == 0 && Pow2(r + t) == Pow2(r) * Pow2(t)
    requires bits == E * Pow2(r + t) + (Pow2(r + t) - Pow2(t)) && LowestSetBit(bits) == Pow2(t)
    ensures bits + LowestSetBit(bits) == (E + 1) * Pow2(r + t)
    ensures Successor(bits) == (E + 1) * Pow2(r + t) + (Pow2(r - 1) - 1)
  {
    GosperLostBits(E, r, t, bits);
    GosperNextShape(E, r, t);
  }

  /** Between bits and its successor every integer has another weight. */
  lemma GosperGap(E: nat, r: nat, t: nat, bits: nat)
    requires r >= 1 && E % 2 == 0 && Pow2(r + t) == Pow2(r) * Pow2(t)
    requires bits == E * Pow2(r + t) + (Pow2(r + t) - Pow2(t)) && Pop(bits) == Pop(E) + r
    ensures forall y: nat :: bits < y < (E + 1) * Pow2(r + t) + (Pow2(r - 1) - 1) ==> Pop(y) != Pop(bits)
  {
    var leftbits := (E + 1) * Pow2(r + t);
    assert leftbits == E * Pow2(r + t) + Pow2(r + t);
    forall y: nat | bits < y < leftbits + (Pow2(r - 1) - 1)
      ensures Pop(y) != Pop(bits)
    {
      if y < leftbits {
        GosperGapBelow(E, r, t, y);
      } else {
        GosperGapAbove(E, r, t, y);
      }
    }
  }

  /** On exit nothing of weight k is left below 2^length. */
  lemma GosperExit(bits: nat, length: nat, k: nat)
    requires 0 < bits < Pow2(length) && Pop(bits) == k
    requires bits + LowestSetBit(bits) >= Pow2(length)
    ensures SameWeight(0, bits, k) + [bits] == BitCombos(length, k)
  {
    GosperStep(bits, length);
    assert SameWeight(0, bits + 1, k) == SameWeight(0, bits, k) + [bits];
    SameWeightSkip(0, bits + 1, Pow2(length), k);
  }

  /** Otherwise the successor is the next value of weight k and still fits. */
  lemma GosperContinue(bits: nat, length: nat, k: nat)
    requires 0 < bits < Pow2(length) && Pop(bits) == k
    requires bits + LowestSetBit(bits) < Pow2(length)
    ensures var next := Successor(bits);
            bits < next < Pow2(length) && Pop(next) == k &&
            SameWeight(0, next, k) == SameWeight(0, bits, k) + [bits]
  {
    GosperStep(bits, length);
    var next := Successor(bits);
    assert SameWeight(0, bits + 1, k) == SameWeight(0, bits, k) + [bits];
    SameWeightSkip(0, bits + 1, next, k);
  }

  // ---------------------------------------------------------------------
  // The generator

  /** The start value (1 << dots) - 1 fits, has dots ones, and nothing of
      that weight precedes it. */
  lemma GosperStart(length: nat, dots: nat)
    requires 0 < dots <= length
    ensures 0 < Pow2(dots) - 1 < Pow2(length) && Pop(Pow2(dots) - 1) == dots
    ensures SameWeight(0, Pow2(dots) - 1, dots) == []
  {
    Pow2Monotone(dots, length);
    PopOnes(dots);
    NoneBelowOnes(dots);
    SameWeightSkip(0, 0, Pow2(dots) - 1, dots);
    PowerHalf(dots);
  }

  /** bit_combos_gospers: every length-bit integer with dots one bits, in
      ascending order; the single value 0 when dots is 0. */
  method BitCombosGospers(length: int, dots: int) returns (combos: seq<nat>)
    requires dots == 0 || 0 < dots <= length
    ensures dots == 0 ==> combos == [0]
    ensures dots > 0 ==> combos == BitCombos(length, dots)
  {
    if dots == 0 {
      combos := [0];
      return;
    }
    var bits: nat := Pow2(dots) - 1;
    GosperStart(length, dots);
    combos := [];
    while true
      invariant 0 < bits < Pow2(length) && Pop(bits) == dots
      invariant combos == SameWeight(0, bits, dots)
      decreases Pow2(length) - bits
    {
      combos := combos + [bits];
      var rightmost := LowestSetBit(bits);
      var leftbits := bits + rightmost;
      GosperCarry(bits, length);
      if And(leftbits, Pow2(length)) != 0 || leftbits == 0 {
        GosperExit(bits, length, dots);
        break;
      }
      var changed := Xor(bits, leftbits);
      DivNat(changed, rightmost);
      var lostbits := changed / rightmost;
      var rightbits := Shr(lostbits, 2);
      GosperContinue(bits, length, dots);
      bits := Or(leftbits, rightbits);
    }
  }
}
