/** The parallel route: the bitwise search with the spanning combos of
    each dotcount cut into slices by fixing their leading bits, each slice
    generated and filtered on its own, and the filtered slices joined in
    order. Worker processes and queues are not modelled: the parallel
    result is the concatenation of the slices. */
module BitParallel {
  import opened Wrappers
  import opened Bits
  import opened Seqs
  import opened Combinatorics
  import opened Gospers
  import opened Rulers
  import BitBased
  import BitNumpy

  /** The number of slices the search aims for, unless changed. */
  const DefaultParallels: nat := 2

  // ---------------------------------------------------------------------
  // Given bits

  /** Read a tuple of 0s and 1s as a binary numeral, most significant
      first; any other entry is an error. */
  method TupleToBits(t: seq<int>) returns (r: Result<nat>)
    ensures r.Success? <==> IsBinary(t)
    ensures r.Success? ==> r.value == FromBinary(t)
    ensures r.Failure? ==> r.error == NotABit
  {
    var bits: nat := 0;
    var i := 0;
    while i < |t|
      invariant 0 <= i <= |t|
      invariant IsBinary(t[..i]) && bits == FromBinary(t[..i])
    {
      var shifted := Shl(bits, 1);
      ShiftInBit(bits);
      if t[i] == 1 {
        FromBinarySnoc(t, i);
        bits := Or(shifted, 1);
      } else if t[i] == 0 {
        FromBinarySnoc(t, i);
        bits := shifted;
      } else {
        assert !(t[i] == 0 || t[i] == 1);
        return Failure(NotABit);
      }
      i := i + 1;
    }
    assert t[..i] == t;
    return Success(bits);
  }

  /** Shifting left by one appends a 0 bit; or-ing in 1 then sets it. */
  lemma ShiftInBit(x: nat)
    ensures Shl(x, 1) == 2 * x && Or(Shl(x, 1), 1) == 2 * x + 1
  {
    OrDisjoint(x, 1, 1);
  }

  lemma FromBinarySnoc(t: seq<int>, i: nat)
    requires i < |t| && IsBinary(t[..i]) && (t[i] == 0 || t[i] == 1)
    ensures IsBinary(t[..i + 1]) && FromBinary(t[..i + 1]) == 2 * FromBinary(t[..i]) + t[i]
  {
    var u := t[..i + 1];
    assert u[..i] == t[..i];
    forall j | 0 <= j < |u|
      ensures u[j] == 0 || u[j] == 1
    {
      if j < i {
        assert u[j] == t[..i][j];
      }
    }
  }

  /** Count the 1 entries of both tuples. */
  method DotcountOfGivens(leading: seq<int>, trailing: seq<int>) returns (count: nat)
    ensures count == Ones(leading) + Ones(trailing)
  {
    count := 0;
    var i := 0;
    while i < |leading|
      invariant 0 <= i <= |leading| && count == Ones(leading[..i])
    {
      assert leading[..i + 1][..i] == leading[..i];
      if leading[i] == 1 {
        count := count + 1;
      }
      i := i + 1;
    }
    assert leading[..i] == leading;
    i := 0;
    while i < |trailing|
      invariant 0 <= i <= |trailing| && count == Ones(leading) + Ones(trailing[..i])
    {
      assert trailing[..i + 1][..i] == trailing[..i];
      if trailing[i] == 1 {
        count := count + 1;
      }
      i := i + 1;
    }
    assert trailing[..i] == trailing;
  }

  /** The leading givens as the top bits of a distance + 1 bit window and
      the trailing givens as its low bits. */
  function Mask(distance: int, leading: seq<int>, trailing: seq<int>): nat
    requires IsBinary(leading) && IsBinary(trailing) && |leading| + |trailing| <= distance + 1
  {
    FromBinary(leading) * Pow2(distance + 1 - |leading|) + FromBinary(trailing)
  }

  /** The bitmask of the givens: the leading numeral shifted up to the top of
      the window, ORed with the trailing numeral; a non-binary tuple or a
      leading tuple wider than the window is an error. */
  method BitmaskOfGivens(distance: int, leading: seq<int>, trailing: seq<int>) returns (r: Result<nat>)
    ensures !IsBinary(leading) ==> r == Failure(NotABit)
    ensures IsBinary(leading) && |leading| > distance + 1 ==> r == Failure(NegativeShift)
    ensures IsBinary(leading) && |leading| <= distance + 1 && !IsBinary(trailing) ==> r == Failure(NotABit)
    ensures r.Success? <==> IsBinary(leading) && IsBinary(trailing) && |leading| <= distance + 1
    ensures r.Success? ==> r.value == Or(FromBinary(leading) * Pow2(distance + 1 - |leading|), FromBinary(trailing))
    ensures r.Success? && |leading| + |trailing| <= distance + 1 ==> r.value == Mask(distance, leading, trailing)
  {
    var length := distance + 1;
    var leadingBits :- TupleToBits(leading);
    if length - |leading| < 0 {
      return Failure(NegativeShift);
    }
    leadingBits := Shl(leadingBits, length - |leading|);
    var trailingBits :- TupleToBits(trailing);
    var givenBits := Or(leadingBits, trailingBits);
    if |leading| + |trailing| <= distance + 1 {
      MaskDisjoint(FromBinary(leading), FromBinary(trailing), |trailing|, length - |leading| - |trailing|);
    }
    return Success(givenBits);
  }

  /** Two numerals that do not overlap combine by OR as by addition. */
  lemma MaskDisjoint(a: nat, b: nat, s: nat, n: nat)
    requires b < Pow2(s)
    ensures Or(a * Pow2(n + s), b) == a * Pow2(n + s) + b
  {
    Pow2Monotone(s, n + s);
    OrDisjoint(a, b, n + s);
  }

  // ---------------------------------------------------------------------
  // Arithmetic of a spliced combo

  /** The layout of a splice with the powers of two as plain numbers:
      x = c * P + (a * QP + b) with c < Q, b < P and QP = Q * P. */
  lemma SpliceArith(a: nat, c: nat, b: nat, Q: nat, P: nat, QP: nat)
    requires c < Q && b < P && QP == Q * P
    ensures c * P + b < QP
    ensures c * P + (a * QP + b) == (a * Q + c) * P + b
    ensures a * QP == (a * Q) * P
  {
    MulLe(c + 1, Q, P);
  }

  /** Quotient and remainder, named as non-negative numbers. */
  lemma DivModParts(x: nat, d: nat) returns (q: nat, r: nat)
    requires d > 0
    ensures q == x / d && r == x % d && x == q * d + r && r < d
  {
    DivNat(x, d);
    q, r := x / d, x % d;
  }

  /** An inner combo c shifted past the trailing bits, under the leading
      bits: x = c * 2^s + (a * 2^(n + s) + b). */
  lemma SpliceValue(a: nat, c: nat, b: nat, n: nat, s: nat)
    requires c < Pow2(n) && b < Pow2(s)
    ensures c * Pow2(s) + b < Pow2(n + s)
    ensures c * Pow2(s) + (a * Pow2(n + s) + b) == (a * Pow2(n) + c) * Pow2(s) + b
    ensures a * Pow2(n + s) == (a * Pow2(n)) * Pow2(s)
  {
    Pow2Add(n, s);
    SpliceArith(a, c, b, Pow2(n), Pow2(s), Pow2(n + s));
  }

  /** The fields of a spliced combo read back: the top field is a and the
      low field is b. */
  lemma SpliceFields(a: nat, c: nat, b: nat, n: nat, s: nat)
    requires c < Pow2(n) && b < Pow2(s)
    ensures var x := c * Pow2(s) + (a * Pow2(n + s) + b);
      x / Pow2(n + s) == a && x % Pow2(s) == b
  {
    Pow2Add(n, s);
    FieldsOf(c * Pow2(s) + (a * Pow2(n + s) + b), a, c, b, Pow2(n), Pow2(s), Pow2(n + s));
  }

  /** SpliceFields with the powers of two named. */
  lemma FieldsOf(x: nat, a: nat, c: nat, b: nat, Q: nat, P: nat, QP: nat)
    requires c < Q && b < P && QP == Q * P && x == c * P + (a * QP + b)
    ensures x / QP == a && x % P == b
  {
    SpliceArith(a, c, b, Q, P, QP);
    DivModUnique(x, QP, a, c * P + b);
    DivModUnique(x, P, a * Q + c, b);
  }

  /** The popcount of a splice is the sum of the popcounts of its parts. */
  lemma SplicePop(a: nat, c: nat, b: nat, n: nat, s: nat)
    requires c < Pow2(n) && b < Pow2(s)
    ensures Pop(c * Pow2(s) + (a * Pow2(n + s) + b)) == Pop(a) + Pop(c) + Pop(b)
  {
    SpliceValue(a, c, b, n, s);
    PopSplit(a * Pow2(n) + c, b, s);
    PopSplit(a, c, n);
  }

  /** A splice under a top field narrower than top bits fits in
      top + n + s bits. */
  lemma SpliceWidth(a: nat, c: nat, b: nat, n: nat, s: nat, top: nat)
    requires c < Pow2(n) && b < Pow2(s) && a < Pow2(top)
    ensures c * Pow2(s) + (a * Pow2(n + s) + b) < Pow2(top + n + s)
  {
    SpliceValue(a, c, b, n, s);
    BelowPower(a, c * Pow2(s) + b, top, n + s);
    assert top + (n + s) == top + n + s;
  }

  /** A number below 2^top shifted up by m bits, plus less than 2^m, is
      below 2^(top + m). */
  lemma BelowPower(a: nat, r: nat, top: nat, m: nat)
    requires a < Pow2(top) && r < Pow2(m)
    ensures a * Pow2(m) + r < Pow2(top + m)
  {
    Pow2Add(top, m);
    MulLe(a + 1, Pow2(top), Pow2(m));
  }

  /** Any x whose top field is a and whose low field is b is such a splice,
      for the inner combo read from its middle field. */
  lemma SpliceUnpack(x: nat, a: nat, b: nat, n: nat, s: nat) returns (c: nat)
    requires x / Pow2(n + s) == a && x % Pow2(s) == b
    ensures c < Pow2(n) && x == c * Pow2(s) + (a * Pow2(n + s) + b)
    ensures Pop(x) == Pop(a) + Pop(c) + Pop(b)
  {
    var P, Q := Pow2(s), Pow2(n);
    var q1, _ := DivModParts(x, P);
    var q2, c' := DivModParts(q1, Q);
    c := c';
    SpliceValue(q2, c, b, n, s);
    Regather(x, q1, q2, c, b, P, Q);
    DivModUnique(x, Pow2(n + s), q2, c * P + b);
    SplicePop(a, c, b, n, s);
  }

  lemma Regather(x: nat, q1: nat, q2: nat, c: nat, b: nat, P: nat, Q: nat)
    requires x == q1 * P + b && q1 == q2 * Q + c
    ensures x == (q2 * Q + c) * P + b
  {
  }

  /** Shifting an inner combo past the trailing bits and ORing in the mask
      adds the mask. */
  /** SpliceOr with the given bits passed by name. */
  lemma SpliceOrMask(a: nat, c: nat, b: nat, n: nat, s: nat, mask: nat)
    requires c < Pow2(n) && b < Pow2(s) && mask == a * Pow2(n + s) + b
    ensures Or(c * Pow2(s), mask) == c * Pow2(s) + mask
  {
    SpliceOr(a, c, b, n, s);
  }

  lemma SpliceOr(a: nat, c: nat, b: nat, n: nat, s: nat)
    requires c < Pow2(n) && b < Pow2(s)
    ensures Or(c * Pow2(s), a * Pow2(n + s) + b) == c * Pow2(s) + (a * Pow2(n + s) + b)
  {
    SpliceValue(a, c, b, n, s);
    var P := Pow2(s);
    var high := a * Pow2(n);
    OrHigh(a, c, n);
    OrSplit(c, high, b, P, s);
  }

  /** Or(c, a * 2^n) for c < 2^n is a * 2^n + c. */
  lemma OrHigh(a: nat, c: nat, n: nat)
    requires c < Pow2(n)
    ensures Or(c, a * Pow2(n)) == a * Pow2(n) + c
  {
    BitwiseSplit(OrOp, c, a * Pow2(n), 0, c, a, 0, n);
    BitwiseZeroLeft(OrOp, a);
    BitwiseZeroRight(OrOp, c);
    assert 0 * Pow2(n) + c == c && a * Pow2(n) + 0 == a * Pow2(n);
  }

  lemma OrSplit(c: nat, high: nat, b: nat, P: nat, s: nat)
    requires b < Pow2(s) && P == Pow2(s)
    ensures Or(c * P, high * P + b) == Or(c, high) * P + b
  {
    BitwiseSplit(OrOp, c * P, high * P + b, c, 0, high, b, s);
    BitwiseZeroLeft(OrOp, b);
    assert c * P + 0 == c * P;
  }

  /** Bit j of x below bit m is bit j of its low field. */
  lemma LowBitsOf(x: nat, q: nat, r: nat, m: nat, j: nat)
    requires r < Pow2(m) && x == q * Pow2(m) + r
    ensures HasBit(x, j) == if j < m then HasBit(r, j) else HasBit(q, j - m)
  {
    HasBitSplit(q, r, m, j);
  }

  /** Bits lo .. lo + |t| - 1 of x spell t when the field of x above bit lo
      reads as t. */
  lemma TopFieldBits(x: nat, t: seq<int>, lo: nat, i: nat)
    requires IsBinary(t) && x / Pow2(lo) == FromBinary(t) && i < |t|
    ensures HasBit(x, lo + |t| - 1 - i) <==> t[i] == 1
  {
    var q, r := DivModParts(x, Pow2(lo));
    LowBitsOf(x, q, r, lo, lo + |t| - 1 - i);
    FromBinaryBit(t, i);
  }

  /** The low |t| bits of x spell t when they read as t. */
  lemma LowFieldBits(x: nat, t: seq<int>, i: nat)
    requires IsBinary(t) && x % Pow2(|t|) == FromBinary(t) && i < |t|
    ensures HasBit(x, |t| - 1 - i) <==> t[i] == 1
  {
    var m := |t|;
    var j := m - 1 - i;
    var r := FromBinary(t);
    LowField(x, r, m, j);
    FromBinaryBit(t, i);
  }

  lemma LowField(x: nat, r: nat, m: nat, j: nat)
    requires x % Pow2(m) == r && j < m
    ensures HasBit(x, j) == HasBit(r, j)
  {
    var q, _ := DivModParts(x, Pow2(m));
    LowBitsOf(x, q, r, m, j);
  }

  // ---------------------------------------------------------------------
  // Combos with given bits

  /** Each inner combo shifted s bits up with the mask added, in order. */
  function Spliced(inner: seq<nat>, s: nat, mask: nat): (r: seq<nat>)
    ensures |r| == |inner| && forall j :: 0 <= j < |inner| ==> r[j] == inner[j] * Pow2(s) + mask
  {
    if inner == [] then [] else [inner[0] * Pow2(s) + mask] + Spliced(inner[1..], s, mask)
  }

  lemma SplicedIncreasing(inner: seq<nat>, s: nat, mask: nat)
    requires Increasing(inner)
    ensures Increasing(Spliced(inner, s, mask))
  {
    var out := Spliced(inner, s, mask);
    var P := Pow2(s);
    forall i, j | 0 <= i < j < |out|
      ensures out[i] < out[j]
    {
      MulStrict(inner[i], inner[j], P);
    }
  }

  lemma MulStrict(x: nat, y: nat, P: nat)
    requires x < y && P >= 1
    ensures x * P < y * P
  {
    MulLe(x + 1, y, P);
    assert (x + 1) * P == x * P + P;
  }

  /** The combos of a distance + 1 bit window holding dotcount dots whose
      top bits spell leading and whose low bits spell trailing, ascending;
      errors for givens wider than the window, givens holding more dots
      than dotcount, and entries other than 0 and 1. An inner part too
      narrow for the remaining dots yields nothing. */
  function WithGivens(distance: int, dotcount: int, leading: seq<int>, trailing: seq<int>): (r: Result<seq<nat>>)
    ensures var n, k := distance + 1 - |leading| - |trailing|, dotcount - (Ones(leading) + Ones(trailing));
      r.Success? ==> n >= 0 && k >= 0 && |r.value| == Binomial(n, k)
  {
    var innerLength := distance + 1 - |leading| - |trailing|;
    var innerDotcount := dotcount - (Ones(leading) + Ones(trailing));
    if innerLength < 0 then Failure(GivensTooLong)
    else if innerDotcount < 0 then Failure(GivensTooManyDots)
    else if !IsBinary(leading) || !IsBinary(trailing) then Failure(NotABit)
    else
      BitCombosCount(innerLength, innerDotcount);
      Success(Spliced(BitCombos(innerLength, innerDotcount), |trailing|, Mask(distance, leading, trailing)))
  }

  /** The errors of the given-bits generator, in the order it checks them. */
  lemma WithGivensErrors(distance: int, dotcount: int, leading: seq<int>, trailing: seq<int>)
    ensures var r := WithGivens(distance, dotcount, leading, trailing);
      (|leading| + |trailing| > distance + 1 ==> r == Failure(GivensTooLong)) &&
      (|leading| + |trailing| <= distance + 1 && Ones(leading) + Ones(trailing) > dotcount ==> r == Failure(GivensTooManyDots)) &&
      (r.Success? <==> |leading| + |trailing| <= distance + 1 && Ones(leading) + Ones(trailing) <= dotcount &&
                       IsBinary(leading) && IsBinary(trailing))
  {
  }

  /** A member of the splice of the inner combos, seen through its fields. */
  lemma SplicedMember(inner: seq<nat>, n: nat, m: nat, s: nat, a: nat, b: nat, mask: nat, top: nat, x: nat)
    requires inner == BitCombos(n, m) && b < Pow2(s) && a < Pow2(top) && mask == a * Pow2(n + s) + b
    requires x in Spliced(inner, s, mask)
    ensures x < Pow2(top + n + s) && Pop(x) == Pop(a) + m + Pop(b)
    ensures x / Pow2(n + s) == a && x % Pow2(s) == b
  {
    var out := Spliced(inner, s, mask);
    var j :| 0 <= j < |out| && out[j] == x;
    var c := inner[j];
    assert x == c * Pow2(s) + (a * Pow2(n + s) + b);
    BitCombosMembers(n, m, c);
    SpliceFields(a, c, b, n, s);
    SplicePop(a, c, b, n, s);
    SpliceWidth(a, c, b, n, s, top);
  }

  /** A combo with the right fields and popcount is in the splice. */
  lemma MemberSpliced(inner: seq<nat>, n: nat, m: nat, s: nat, a: nat, b: nat, mask: nat, x: nat)
    requires inner == BitCombos(n, m) && b < Pow2(s) && mask == a * Pow2(n + s) + b
    requires x / Pow2(n + s) == a && x % Pow2(s) == b && Pop(x) == Pop(a) + m + Pop(b)
    ensures x in Spliced(inner, s, mask)
  {
    var c := SpliceUnpack(x, a, b, n, s);
    SplicedHas(inner, n, m, s, mask, c, x);
  }

  /** An inner combo shifted up with the mask added is in the splice. */
  lemma SplicedHas(inner: seq<nat>, n: nat, m: nat, s: nat, mask: nat, c: nat, x: nat)
    requires inner == BitCombos(n, m) && c < Pow2(n) && Pop(c) == m && x == c * Pow2(s) + mask
    ensures x in Spliced(inner, s, mask)
  {
    BitCombosMembers(n, m, c);
    var j :| 0 <= j < |inner| && inner[j] == c;
    assert Spliced(inner, s, mask)[j] == x;
  }

  /** Exactly the combos of the window with dotcount dots whose top field
      reads as the leading givens and whose low field reads as the trailing
      givens (TopFieldBits and LowFieldBits spell these out bit by bit). */
  lemma WithGivensMembers(distance: int, dotcount: int, leading: seq<int>, trailing: seq<int>, x: nat)
    requires WithGivens(distance, dotcount, leading, trailing).Success?
    ensures distance + 1 >= |leading| + |trailing|
    ensures x in WithGivens(distance, dotcount, leading, trailing).value <==>
      x < Pow2(distance + 1) && Pop(x) == dotcount &&
      x / Pow2(distance + 1 - |leading|) == FromBinary(leading) && x % Pow2(|trailing|) == FromBinary(trailing)
  {
    var n: nat := distance + 1 - |leading| - |trailing|;
    var m: nat := dotcount - (Ones(leading) + Ones(trailing));
    var s := |trailing|;
    var a, b := FromBinary(leading), FromBinary(trailing);
    var inner := BitCombos(n, m);
    var mask := Mask(distance, leading, trailing);
    assert distance + 1 - |leading| == n + s;
    assert |leading| + n + s == distance + 1;
    assert mask == a * Pow2(n + s) + b;
    assert WithGivens(distance, dotcount, leading, trailing).value == Spliced(inner, s, mask);
    FromBinaryPop(leading);
    FromBinaryPop(trailing);
    if x in Spliced(inner, s, mask) {
      SplicedMember(inner, n, m, s, a, b, mask, |leading|, x);
    }
    if Pop(x) == dotcount && x / Pow2(n + s) == a && x % Pow2(s) == b {
      MemberSpliced(inner, n, m, s, a, b, mask, x);
    }
  }

  /** The generated combos ascend. */
  lemma WithGivensIncreasing(distance: int, dotcount: int, leading: seq<int>, trailing: seq<int>)
    requires WithGivens(distance, dotcount, leading, trailing).Success?
    ensures Increasing(WithGivens(distance, dotcount, leading, trailing).value)
  {
    var n := distance + 1 - |leading| - |trailing|;
    var m := dotcount - (Ones(leading) + Ones(trailing));
    BitCombosIncreasing(n, m);
    SplicedIncreasing(BitCombos(n, m), |trailing|, Mask(distance, leading, trailing));
  }

  /** The given-bits generator: check the givens, build their mask, and
      splice every inner combo of the remaining width and dotcount between
      them. */
  method BitCombosWithGivens(distance: int, dotcount: int, leading: seq<int>, trailing: seq<int>)
    returns (r: Result<seq<nat>>)
    ensures r == WithGivens(distance, dotcount, leading, trailing)
  {
    var innerDistance := distance - |leading| - |trailing|;
    var innerLength := innerDistance + 1;
    var givenDots := DotcountOfGivens(leading, trailing);
    var innerDotcount := dotcount - givenDots;
    if innerLength < 0 {
      return Failure(GivensTooLong);
    }
    if innerDotcount < 0 {
      return Failure(GivensTooManyDots);
    }
    var givenBits :- BitmaskOfGivens(distance, leading, trailing);
    var s := |trailing|;
    ghost var a, b := FromBinary(leading), FromBinary(trailing);
    assert distance + 1 - |leading| == innerLength + s;
    assert givenBits == a * Pow2(innerLength + s) + b;
    if innerDotcount > innerLength {
      Overfull(innerLength, innerDotcount);
      return Success([]);
    }
    if innerLength == 0 {
      BitCombosNoDots(0);
      SplicedZero(s, givenBits);
      return Success([givenBits]);
    }
    var inner := BitBased.BitCombosWithNDots(innerDistance, innerDotcount);
    forall c | c in inner.value
      ensures c < Pow2(innerLength)
    {
      BitCombosMembers(innerLength, innerDotcount, c);
    }
    var combos := SpliceAll(inner.value, s, givenBits, innerLength, a, b);
    return Success(combos);
  }

  /** bit_combos_with_givens exactly as written: an inner width of 0
      yields the given bits whatever the inner dot count, and an inner dot
      count wider than the inner width fails in the inner generator. */
  method BitCombosWithGivensAsWritten(distance: int, dotcount: int, leading: seq<int>, trailing: seq<int>)
    returns (r: Result<seq<nat>>)
    ensures r == WithGivensAsWritten(distance, dotcount, leading, trailing)
  {
    var innerDistance := distance - |leading| - |trailing|;
    var innerLength := innerDistance + 1;
    var givenDots := DotcountOfGivens(leading, trailing);
    var innerDotcount := dotcount - givenDots;
    if innerLength < 0 {
      return Failure(GivensTooLong);
    }
    if innerDotcount < 0 {
      return Failure(GivensTooManyDots);
    }
    var givenBits :- BitmaskOfGivens(distance, leading, trailing);
    var s := |trailing|;
    ghost var a, b := FromBinary(leading), FromBinary(trailing);
    assert distance + 1 - |leading| == innerLength + s;
    assert givenBits == a * Pow2(innerLength + s) + b;
    if innerLength == 0 {
      return Success([givenBits]);
    }
    var inner :- BitBased.BitCombosWithNDots(innerDistance, innerDotcount);
    forall c | c in inner
      ensures c < Pow2(innerLength)
    {
      BitCombosMembers(innerLength, innerDotcount, c);
    }
    var combos := SpliceAll(inner, s, givenBits, innerLength, a, b);
    return Success(combos);
  }

  /** Move each inner combo past the trailing bits and OR the given bits
      back on. */
  method SpliceAll(cs: seq<nat>, s: nat, givenBits: nat, ghost n: nat, ghost a: nat, ghost b: nat)
    returns (combos: seq<nat>)
    requires forall c :: c in cs ==> c < Pow2(n)
    requires b < Pow2(s) && givenBits == a * Pow2(n + s) + b
    ensures combos == Spliced(cs, s, givenBits)
  {
    combos := [];
    var i := 0;
    while i < |cs|
      invariant 0 <= i <= |cs|
      invariant |combos| == i && forall j :: 0 <= j < i ==> combos[j] == cs[j] * Pow2(s) + givenBits
    {
      assert cs[i] in cs;
      SpliceOrMask(a, cs[i], b, n, s, givenBits);
      var bitCombo := Shl(cs[i], s);
      bitCombo := Or(bitCombo, givenBits);
      combos := combos + [bitCombo];
      i := i + 1;
    }
  }

  // ---------------------------------------------------------------------
  // The generator as written, and where it goes wrong

  /** The given-bits generator exactly as written: an inner width of 0
      yields the mask whatever dotcount was asked for, and an inner
      dotcount wider than a positive inner width fails in the inner
      generator. */
  function WithGivensAsWritten(distance: int, dotcount: int, leading: seq<int>, trailing: seq<int>): (r: Result<seq<nat>>)
    ensures var c := WithGivens(distance, dotcount, leading, trailing);
      r != c ==> c == Success([]) && (r == Failure(TooManyDots) || (r.Success? && |r.value| == 1))
  {
    var innerLength := distance + 1 - |leading| - |trailing|;
    var innerDotcount := dotcount - (Ones(leading) + Ones(trailing));
    if innerLength < 0 then Failure(GivensTooLong)
    else if innerDotcount < 0 then Failure(GivensTooManyDots)
    else if !IsBinary(leading) || !IsBinary(trailing) then Failure(NotABit)
    else if innerLength == 0 then
      var mask := Mask(distance, leading, trailing);
      if innerDotcount == 0 then
        BitCombosNoDots(0);
        SplicedZero(|trailing|, mask);
        Success([mask])
      else
        Overfull(0, innerDotcount);
        Success([mask])
    else if innerDotcount > innerLength then
      Overfull(innerLength, innerDotcount);
      Failure(TooManyDots)
    else Success(Spliced(BitCombos(innerLength, innerDotcount), |trailing|, Mask(distance, leading, trailing)))
  }

  /** More dots than bits: there is no combo. */
  lemma Overfull(width: nat, k: nat)
    requires k > width
    ensures BitCombos(width, k) == []
  {
    BitCombosCount(width, k);
    BinomialAbove(width, k);
  }

  /** Whenever the remaining dots fit the inner width, the generator as
      written and the corrected one agree. */
  lemma AsWrittenAgrees(distance: int, dotcount: int, leading: seq<int>, trailing: seq<int>)
    requires dotcount - (Ones(leading) + Ones(trailing)) <= distance + 1 - |leading| - |trailing|
    ensures WithGivensAsWritten(distance, dotcount, leading, trailing) == WithGivens(distance, dotcount, leading, trailing)
  {
    var innerLength := distance + 1 - |leading| - |trailing|;
    var innerDotcount := dotcount - (Ones(leading) + Ones(trailing));
    if innerLength == 0 && innerDotcount == 0 && IsBinary(leading) && IsBinary(trailing) {
      var m := Mask(distance, leading, trailing);
      assert BitCombos(0, 0) == [0] by {
        BitCombosNoDots(0);
      }
      SplicedZero(|trailing|, m);
    }
  }

  lemma SplicedZero(s: nat, m: nat)
    ensures Spliced([0], s, m) == [m]
  {
    assert 0 * Pow2(s) == 0;
    assert [0][1..] == [];
  }

  /** As written, leading (1, 0) and trailing (1,) on a ruler of length 2
      asked for 3 dots yield 0b101, which has 2; the corrected generator
      yields nothing. */
  lemma AsWrittenMiscounts()
    ensures WithGivensAsWritten(2, 3, [1, 0], [1]) == Success([5]) && Pop(5) == 2
    ensures WithGivens(2, 3, [1, 0], [1]) == Success([])
  {
    assert Ones([1, 0]) == 1 && Ones([1]) == 1 by {
      assert [1, 0][..1] == [1];
      assert [1][..0] == [];
    }
    assert FromBinary([1, 0]) == 2 && FromBinary([1]) == 1 by {
      assert [1, 0][..1] == [1];
      assert [1][..0] == [];
    }
    assert Mask(2, [1, 0], [1]) == 5;
    assert BitCombos(0, 1) == [];
  }

  /** As written, the slice with leading (1, 0, 0) and trailing (1,) of a
      4-dot search at length 4 fails in the inner generator, since its
      inner width 1 cannot hold the 2 remaining dots; the corrected
      generator yields nothing for it. It is the first slice of that
      search when the leading patterns have 2 free bits. */
  lemma AsWrittenSliceFails()
    ensures [1] + BinaryTuples(2)[0] == [1, 0, 0]
    ensures WithGivensAsWritten(4, 4, [1, 0, 0], [1]) == Failure(TooManyDots)
    ensures WithGivens(4, 4, [1, 0, 0], [1]) == Success([])
  {
    var b0, b1, b2 := BinaryTuples(0), BinaryTuples(1), BinaryTuples(2);
    assert b0 == [[]];
    assert b1[0] == Prefixed(0, b0)[0] == [0] + [];
    assert b2[0] == Prefixed(0, b1)[0] == [0] + b1[0];
    assert Ones([1, 0, 0]) == 1 && Ones([1]) == 1 by {
      assert [1, 0, 0][..2] == [1, 0];
      assert [1, 0][..1] == [1];
      assert [1][..0] == [];
    }
    assert IsBinary([1, 0, 0]) && IsBinary([1]);
    assert BitCombos(1, 2) == [] by {
      assert Pow2(1) == 2;
      assert SameWeight(0, 2, 2) == [];
    }
  }

  /** With 4 parallel slices and 4 dots, the leading patterns have 2 free
      bits. */
  lemma FourParallelsPower(power: nat)
    requires Pow2(power) <= 4 && power <= 4 - 2 && (Pow2(power + 1) > 4 || power + 1 > 4 - 2)
    ensures power == 2
  {
    Pow2Monotone(power + 1, 2);
  }

  // ---------------------------------------------------------------------
  // Slices of the spanning combos

  /** The slice of the spanning combos with leading pattern (1,) + given
      and trailing (1,); nothing when the givens do not fit. */
  function SliceOf(distance: int, dotcount: int, given: seq<int>): seq<nat>
  {
    match WithGivens(distance, dotcount, [1] + given, [1])
    case Success(v) => v
    case Failure(_) => []
  }

  /** The slices for the leading patterns, in order. */
  function SlicesOf(distance: int, dotcount: int, givens: seq<seq<int>>): (r: seq<seq<nat>>)
    ensures |r| == |givens| && forall j :: 0 <= j < |givens| ==> r[j] == SliceOf(distance, dotcount, givens[j])
  {
    if givens == [] then [] else [SliceOf(distance, dotcount, givens[0])] + SlicesOf(distance, dotcount, givens[1..])
  }

  /** For p free leading bits with p <= dotcount - 2 and p < distance,
      every slice is generated without error. */
  lemma SliceSucceeds(d: nat, k: nat, p: nat, j: nat)
    requires p + 2 <= k && p < d && j < |BinaryTuples(p)|
    ensures BinaryTuplesLength(p, j)
    ensures WithGivens(d, k, [1] + BinaryTuples(p)[j], [1]).Success?
    ensures SliceOf(d, k, BinaryTuples(p)[j]) == WithGivens(d, k, [1] + BinaryTuples(p)[j], [1]).value
  {
    BinaryTuplesValues(p);
    var t := BinaryTuples(p)[j];
    var lead := [1] + t;
    assert IsBinary(lead) by {
      forall i | 0 <= i < |lead|
        ensures lead[i] == 0 || lead[i] == 1
      {
        if i > 0 {
          assert lead[i] == t[i - 1];
        }
      }
    }
    OnesCons(t);
    assert Ones([1]) == 1 by {
      assert [1][..0] == [];
    }
    assert IsBinary([1]);
  }

  predicate BinaryTuplesLength(p: nat, j: nat)
  {
    j < |BinaryTuples(p)| && |BinaryTuples(p)[j]| == p
  }

  /** A leading 1 adds one to the count of ones. */
  lemma {:induction false} OnesCons(t: seq<int>)
    ensures Ones([1] + t) == Ones(t) + 1
  {
    if t != [] {
      var init := t[..|t| - 1];
      assert ([1] + t)[..|t|] == [1] + init;
      OnesCons(init);
    } else {
      assert ([1] + t)[..0] == [];
    }
  }

  /** x / 2^b reaches m exactly when x reaches m * 2^b. */
  lemma DivCompare(x: nat, m: nat, D: nat)
    requires D > 0
    ensures (x / D >= m) == (x >= m * D)
  {
    var q, r := DivModParts(x, D);
    if q >= m {
      MulLe(m, q, D);
    } else {
      MulLe(q + 1, m, D);
    }
  }

  /** Slice j holds exactly the combos of the window with dotcount dots,
      bit 0 set, and leading field 2^p + j above bit distance - p. */
  lemma SliceMembers(d: nat, k: nat, p: nat, j: nat, x: nat)
    requires p + 2 <= k && p < d && j < |BinaryTuples(p)|
    ensures x in SliceOf(d, k, BinaryTuples(p)[j]) <==>
      x < Pow2(d + 1) && Pop(x) == k && x / Pow2(d - p) == Pow2(p) + j && x % 2 == 1
  {
    SliceSucceeds(d, k, p, j);
    var t := BinaryTuples(p)[j];
    var lead := [1] + t;
    BinaryTuplesValues(p);
    assert |t| == p && FromBinary(t) == j;
    FromBinaryCons(1, t);
    assert FromBinary(lead) == Pow2(p) + j;
    assert FromBinary([1]) == 1 by {
      assert [1][..0] == [];
    }
    assert Pow2(|[1]|) == 2;
    assert Pow2(d + 1 - |lead|) == Pow2(d - p);
    WithGivensMembers(d, k, lead, [1], x);
  }

  /** A combo of the window with bit d set has leading field 2^p + j above
      bit d - p, for some j < 2^p. */
  lemma SpansField(d: nat, p: nat, x: nat) returns (j: nat)
    requires p < d && x < Pow2(d + 1) && HasBit(x, d)
    ensures j < Pow2(p) && x / Pow2(d - p) == Pow2(p) + j
  {
    var D := Pow2(d - p);
    Pow2Add(p, d - p);
    Pow2Add(p + 1, d - p);
    assert p + (d - p) == d && p + 1 + (d - p) == d + 1;
    TopBit(x, d);
    DivCompare(x, Pow2(p), D);
    DivCompare(x, Pow2(p + 1), D);
    PowerHalf(p + 1);
    j := x / D - Pow2(p);
  }

  /** A combo of the window whose leading field above bit d - p is at least
      2^p has bit d set. */
  lemma FieldSpans(d: nat, p: nat, j: nat, x: nat)
    requires p < d && x < Pow2(d + 1) && x / Pow2(d - p) == Pow2(p) + j
    ensures HasBit(x, d)
  {
    var D := Pow2(d - p);
    Pow2Add(p, d - p);
    assert p + (d - p) == d;
    DivCompare(x, Pow2(p), D);
    TopBit(x, d);
  }

  /** A spanning combo lies in the slice named by its leading field. */
  lemma SpanningSlice(d: nat, k: nat, p: nat, x: nat) returns (j: nat)
    requires p + 2 <= k && p < d
    requires x < Pow2(d + 1) && Pop(x) == k && Spans(x, d)
    ensures j < |BinaryTuples(p)| && x in SliceOf(d, k, BinaryTuples(p)[j])
  {
    BinaryTuplesValues(p);
    j := SpansField(d, p, x);
    SliceMembers(d, k, p, j, x);
  }

  /** Every member of a slice spans. */
  lemma SliceSpanning(d: nat, k: nat, p: nat, j: nat, x: nat)
    requires p + 2 <= k && p < d && j < |BinaryTuples(p)|
    requires x in SliceOf(d, k, BinaryTuples(p)[j])
    ensures x < Pow2(d + 1) && Pop(x) == k && Spans(x, d)
  {
    SliceMembers(d, k, p, j, x);
    FieldSpans(d, p, j, x);
  }

  /** Every member of the joined slices is a spanning combo. */
  lemma FlattenedSpanning(d: nat, k: nat, p: nat, x: nat)
    requires p + 2 <= k && p < d
    requires x in Flatten(SlicesOf(d, k, BinaryTuples(p)))
    ensures x in SpanningCombos(d, k)
  {
    var slices := SlicesOf(d, k, BinaryTuples(p));
    FlattenMembers(slices, x);
    var j :| 0 <= j < |slices| && x in slices[j];
    SliceSpanning(d, k, p, j, x);
    SpanningCombosMembers(d, k, x);
  }

  /** Every spanning combo is a member of the joined slices. */
  lemma SpanningFlattened(d: nat, k: nat, p: nat, x: nat)
    requires p + 2 <= k && p < d
    requires x in SpanningCombos(d, k)
    ensures x in Flatten(SlicesOf(d, k, BinaryTuples(p)))
  {
    var slices := SlicesOf(d, k, BinaryTuples(p));
    SpanningCombosMembers(d, k, x);
    var j := SpanningSlice(d, k, p, x);
    assert x in slices[j];
    FlattenMembers(slices, x);
  }

  /** Members of different slices differ in their leading field, so the
      slices are pairwise disjoint and each lies below the next. */
  lemma SlicesOrdered(d: nat, k: nat, p: nat, i: nat, j: nat, x: nat, y: nat)
    requires p + 2 <= k && p < d && i < j < |BinaryTuples(p)|
    requires x in SliceOf(d, k, BinaryTuples(p)[i]) && y in SliceOf(d, k, BinaryTuples(p)[j])
    ensures x < y
  {
    SliceMembers(d, k, p, i, x);
    SliceMembers(d, k, p, j, y);
    var D := Pow2(d - p);
    if x >= y {
      var q, r := DivModParts(y, D);
      DivCompare(x, q, D);
    }
  }

  /** The slices are pairwise disjoint. */
  lemma SlicesDisjoint(d: nat, k: nat, p: nat, i: nat, j: nat, x: nat)
    requires p + 2 <= k && p < d && i < |BinaryTuples(p)| && j < |BinaryTuples(p)| && i != j
    requires x in SliceOf(d, k, BinaryTuples(p)[i])
    ensures x !in SliceOf(d, k, BinaryTuples(p)[j])
  {
    SliceMembers(d, k, p, i, x);
    SliceMembers(d, k, p, j, x);
  }

  /** The slices for all 2^p leading patterns, joined in order, are exactly
      the spanning combos of length d with k dots. */
  lemma SlicesCover(d: nat, k: nat, p: nat)
    requires p + 2 <= k && p < d
    ensures Flatten(SlicesOf(d, k, BinaryTuples(p))) == SpanningCombos(d, k)
  {
    var givens := BinaryTuples(p);
    BinaryTuplesValues(p);
    var slices := SlicesOf(d, k, givens);
    var all := Flatten(slices);
    forall i | 0 <= i < |slices|
      ensures Increasing(slices[i])
    {
      SliceSucceeds(d, k, p, i);
      WithGivensIncreasing(d, k, [1] + givens[i], [1]);
    }
    forall i, j, x, y | 0 <= i < j < |slices| && x in slices[i] && y in slices[j]
      ensures x < y
    {
      SlicesOrdered(d, k, p, i, j, x, y);
    }
    FlattenIncreasing(slices);
    SpanningCombosIncreasing(d, k);
    forall x: nat
      ensures x in all <==> x in SpanningCombos(d, k)
    {
      if x in all {
        FlattenedSpanning(d, k, p, x);
      }
      if x in SpanningCombos(d, k) {
        SpanningFlattened(d, k, p, x);
      }
    }
    SortedUnique(all, SpanningCombos(d, k));
  }

  // ---------------------------------------------------------------------
  // The parallel search

  /** Count up the largest p with 2^p <= parallels and p <= dotcount - 2,
      and list the 2^p patterns of p bits. */
  method InnerGivens(parallels: int, dotcount: int) returns (power: nat, givens: seq<seq<int>>)
    requires parallels >= 1 && dotcount >= 2
    ensures Pow2(power) <= parallels && power <= dotcount - 2
    ensures Pow2(power + 1) > parallels || power + 1 > dotcount - 2
    ensures givens == BinaryTuples(power)
  {
    var powerOfTwo := 0;
    while Pow2(powerOfTwo) <= parallels && powerOfTwo <= dotcount - 2
      invariant 0 <= powerOfTwo
      invariant powerOfTwo > 0 ==> Pow2(powerOfTwo - 1) <= parallels && powerOfTwo - 1 <= dotcount - 2
      decreases dotcount - powerOfTwo
    {
      powerOfTwo := powerOfTwo + 1;
    }
    power := powerOfTwo - 1;
    givens := BinaryTuples(power);
  }

  /** Generate and filter one slice: the given-bit combos that measure the
      distance, in order. */
  method BitCombosThatMeasureWithGivens(distance: int, dotcount: int, leading: seq<int>, trailing: seq<int>)
    returns (r: Result<seq<nat>>)
    ensures WithGivens(distance, dotcount, leading, trailing).Failure? ==> r == WithGivens(distance, dotcount, leading, trailing)
    ensures r.Success? <==> WithGivens(distance, dotcount, leading, trailing).Success?
    ensures r.Success? ==> r.value == BitBased.MeasuringOnly(WithGivens(distance, dotcount, leading, trailing).value, distance)
  {
    var combos :- BitCombosWithGivens(distance, dotcount, leading, trailing);
    var measuring := BitNumpy.BitCombosThatMeasure(combos, distance);
    return Success(measuring);
  }

  /** Filter every slice of the dotcount and join the results in slice
      order: the same measuring rulers as the sequential search. */
  method ParallelizeGoodCombos(parallels: int, distance: int, dotcount: int) returns (results: seq<nat>)
    requires parallels >= 1 && 2 <= dotcount <= distance + 1
    ensures results == BitBased.Good(distance, dotcount)
  {
    var power, givens := InnerGivens(parallels, dotcount);
    var d: nat, k: nat := distance, dotcount;
    BinaryTuplesValues(power);
    var slices := SlicesOf(d, k, givens);
    results := [];
    var i := 0;
    while i < |givens|
      invariant 0 <= i <= |givens|
      invariant results == BitBased.MeasuringOnly(Flatten(slices[..i]), d)
    {
      var leadingGiven := [1] + givens[i];
      var result := BitCombosThatMeasureWithGivens(distance, dotcount, leadingGiven, [1]);
      assert result.Success? && result.value == BitBased.MeasuringOnly(slices[i], d) by {
        SliceSucceeds(d, k, power, i);
      }
      MeasuredPrefix(slices, i, d);
      results := results + result.value;
      i := i + 1;
    }
    assert slices[..i] == slices;
    SlicesCover(d, k, power);
  }

  lemma MeasuredPrefix(slices: seq<seq<nat>>, i: nat, d: nat)
    requires i < |slices|
    ensures BitBased.MeasuringOnly(Flatten(slices[..i + 1]), d) ==
      BitBased.MeasuringOnly(Flatten(slices[..i]), d) + BitBased.MeasuringOnly(slices[i], d)
  {
    assert slices[..i + 1] == slices[..i] + [slices[i]];
    FlattenAppend(slices[..i], slices[i]);
    BitBased.MeasuringOnlyAppend(Flatten(slices[..i]), slices[i], d);
  }

  /** The parallel search: try dotcounts 2, 3, ... in order and stop after
      the first one whose slices yield any measuring ruler. */
  method BestBitCombos(parallels: int, distance: int) returns (best: seq<nat>)
    requires distance >= 1 ==> parallels >= 1
    ensures best == BitBased.Best(distance)
  {
    best := [];
    if distance < 0 {
      return;
    }
    var foundOne := false;
    var dotcount := 2;
    while dotcount < distance + 2
      invariant 2 <= dotcount && (dotcount <= distance + 2 || distance < 1)
      invariant BitBased.BestFrom(distance, dotcount) == BitBased.BestFrom(distance, 2)
      invariant best == [] && !foundOne
    {
      var combos := ParallelizeGoodCombos(parallels, distance, dotcount);
      if combos != [] {
        foundOne := true;
        best := best + combos;
      }
      if foundOne {
        break;
      }
      dotcount := dotcount + 1;
    }
  }

  /** The spanning combos of a length and dotcount as one given-bits slice
      with leading (1,) and trailing (1,), through the generator as
      written. */
  method BitCombosWithEnds(distance: int, dotcount: int) returns (r: Result<seq<nat>>)
    ensures r == WithGivensAsWritten(distance, dotcount, [1], [1])
  {
    r := BitCombosWithGivensAsWritten(distance, dotcount, [1], [1]);
  }

  /** The override of bit_combos_with_ends: errors for a length below 1 or
      fewer than 2 dots, and for more dots than positions on a length of
      at least 2, as the bitwise route raises; 0b11 for length 1 whatever
      the dot count; otherwise exactly the spanning combos. The corrected
      generator differs only where the dots do not fit, and yields nothing
      there. */
  lemma WithEndsSpanning(distance: int, dotcount: int)
    ensures var r := WithGivensAsWritten(distance, dotcount, [1], [1]);
      (distance < 1 ==> r == Failure(GivensTooLong)) &&
      (distance >= 1 && dotcount < 2 ==> r == Failure(GivensTooManyDots)) &&
      (distance == 1 && dotcount >= 2 ==> r == Success([3])) &&
      (distance >= 2 && dotcount > distance + 1 ==> r == Failure(TooManyDots)) &&
      (distance >= 1 && 2 <= dotcount <= distance + 1 ==> r == Success(SpanningCombos(distance, dotcount)))
    ensures distance >= 1 && dotcount >= 2 ==>
      WithGivens(distance, dotcount, [1], [1]) == Success(if dotcount <= distance + 1 then SpanningCombos(distance, dotcount) else [])
  {
    assert Ones([1]) == 1 by {
      assert [1][..0] == [];
    }
    assert IsBinary([1]) && FromBinary([1]) == 1 by {
      assert [1][..0] == [];
    }
    if distance >= 1 && dotcount >= 2 {
      var d: nat, k: nat := distance, dotcount;
      if dotcount <= distance + 1 {
        SlicesCover(d, k, 0);
        assert BinaryTuples(0) == [[]];
        assert [1] + [] == [1];
        SliceSucceeds(d, k, 0, 0);
        AsWrittenAgrees(distance, dotcount, [1], [1]);
      } else {
        Overfull(d - 1, k - 2);
        if distance == 1 {
          assert Mask(1, [1], [1]) == 3;
        }
      }
    }
  }
}
