/** Counting and enumeration in the sense of Python's math and itertools. */
module Combinatorics {
  import opened Bits

  /** C(n, k) by Pascal's rule: the number of k-element subsets of n things. */
  function Binomial(n: nat, k: nat): nat
  {
    if k == 0 then 1 else if n == 0 then 0 else Binomial(n - 1, k) + Binomial(n - 1, k - 1)
  }

  function Factorial(n: nat): (r: nat)
    ensures r >= 1
  {
    if n == 0 then 1 else n * Factorial(n - 1)
  }

  lemma {:induction false} BinomialAbove(n: nat, k: nat)
    requires k > n
    ensures Binomial(n, k) == 0
  {
    if n > 0 {
      BinomialAbove(n - 1, k);
      BinomialAbove(n - 1, k - 1);
    }
  }

  /** The factorial formula n! / (k! (n-k)!) agrees with Pascal's rule. */
  lemma {:induction false} BinomialFactorial(n: nat, k: nat)
    requires k <= n
    ensures Binomial(n, k) * (Factorial(k) * Factorial(n - k)) == Factorial(n)
  {
    if k == 0 {
    } else if k == n {
      BinomialAll(n);
      assert Factorial(n - k) == 1;
    } else {
      var a, b := Binomial(n - 1, k), Binomial(n - 1, k - 1);
      var fk1, fm1, f := Factorial(k - 1), Factorial(n - k - 1), Factorial(n - 1);
      assert Binomial(n, k) == a + b;
      assert Factorial(k) == k * fk1;
      assert Factorial(n - k) == (n - k) * fm1;
      assert Factorial(n) == n * f;
      BinomialFactorial(n - 1, k);
      BinomialFactorial(n - 1, k - 1);
      PascalFactorial(n, k, a, b, fk1, fm1, f);
    }
  }

  /** There is one way to choose all n things. */
  lemma {:induction false} BinomialAll(n: nat)
    ensures Binomial(n, n) == 1
  {
    if n > 0 {
      BinomialAll(n - 1);
      BinomialAbove(n - 1, n);
    }
  }

  /** The arithmetic step of the factorial formula, with the factorials named. */
  lemma PascalFactorial(n: nat, k: nat, a: nat, b: nat, fk1: nat, fm1: nat, f: nat)
    requires 0 < k < n
    requires a * ((k * fk1) * fm1) == f
    requires b * (fk1 * ((n - k) * fm1)) == f
    ensures (a + b) * ((k * fk1) * ((n - k) * fm1)) == n * f
  {
    var m := n - k;
    var g := fk1 * fm1;
    assert a * (k * g) == f;
    assert b * (m * g) == f;
    calc {
      (a + b) * ((k * fk1) * (m * fm1));
      { assert (k * fk1) * (m * fm1) == k * m * g; }
      (a + b) * (k * m * g);
      a * (k * g) * m + b * (m * g) * k;
      f * m + f * k;
      n * f;
    }
  }

  /** itertools.product((0, 1), repeat=p): every 0/1 tuple of length p, in
      lexicographic order. */
  function BinaryTuples(p: nat): (r: seq<seq<int>>)
    ensures |r| > 0
    decreases p
  {
    if p == 0 then [[]] else Prefixed(0, BinaryTuples(p - 1)) + Prefixed(1, BinaryTuples(p - 1))
  }

  /** Every tuple of ts with b put in front. */
  function Prefixed(b: int, ts: seq<seq<int>>): (r: seq<seq<int>>)
    ensures |r| == |ts| && forall i :: 0 <= i < |ts| ==> r[i] == [b] + ts[i]
  {
    if ts == [] then [] else [[b] + ts[0]] + Prefixed(b, ts[1..])
  }

  /** The tuple read as a binary numeral, most significant digit first. */
  function FromBinary(t: seq<int>): (r: nat)
    requires IsBinary(t)
    ensures r < Pow2(|t|)
  {
    if t == [] then 0 else
      var init := t[..|t| - 1];
      assert IsBinary(init) by {
        forall i | 0 <= i < |init|
          ensures init[i] == 0 || init[i] == 1
        {
          assert init[i] == t[i];
        }
      }
      2 * FromBinary(init) + t[|t| - 1]
  }

  predicate IsBinary(t: seq<int>)
  {
    forall i :: 0 <= i < |t| ==> t[i] == 0 || t[i] == 1
  }

  /** The number of entries equal to 1. */
  function Ones(t: seq<int>): (n: nat)
    ensures n <= |t|
  {
    if t == [] then 0 else Ones(t[..|t| - 1]) + (if t[|t| - 1] == 1 then 1 else 0)
  }

  /** A numeral has one one-bit per 1 digit. */
  lemma {:induction false} FromBinaryPop(t: seq<int>)
    requires IsBinary(t)
    ensures Pop(FromBinary(t)) == Ones(t)
  {
    if t != [] {
      var init, last := t[..|t| - 1], t[|t| - 1];
      FromBinaryPop(init);
      assert FromBinary(t) == FromBinary(init) * Pow2(1) + last;
      PopSplit(FromBinary(init), last, 1);
    }
  }

  /** Digit i of the tuple is bit |t| - 1 - i of the numeral. */
  lemma {:induction false} FromBinaryBit(t: seq<int>, i: nat)
    requires IsBinary(t) && i < |t|
    ensures HasBit(FromBinary(t), |t| - 1 - i) <==> t[i] == 1
  {
    var init, last := t[..|t| - 1], t[|t| - 1];
    assert FromBinary(t) == FromBinary(init) * Pow2(1) + last;
    HasBitSplit(FromBinary(init), last, 1, |t| - 1 - i);
    if i < |t| - 1 {
      FromBinaryBit(init, i);
    }
  }

  /** A leading digit b is worth b * 2^|t|. */
  lemma {:induction false} FromBinaryCons(b: int, t: seq<int>)
    requires IsBinary([b] + t)
    ensures IsBinary(t) && FromBinary([b] + t) == (if b == 1 then Pow2(|t|) else 0) + FromBinary(t)
    decreases |t|
  {
    var bt := [b] + t;
    forall i | 0 <= i < |t|
      ensures t[i] == 0 || t[i] == 1
    {
      assert t[i] == bt[i + 1];
    }
    if t == [] {
      assert bt[..0] == [];
    } else {
      var init, last := t[..|t| - 1], t[|t| - 1];
      assert bt[..|bt| - 1] == [b] + init;
      FromBinaryCons(b, init);
      assert Pow2(|t|) == 2 * Pow2(|init|);
    }
  }

  /** The product has 2^p tuples; tuple j has p binary digits and reads as j. */
  lemma {:induction false} BinaryTuplesValues(p: nat)
    ensures |BinaryTuples(p)| == Pow2(p)
    ensures forall j :: 0 <= j < |BinaryTuples(p)| ==>
      |BinaryTuples(p)[j]| == p && IsBinary(BinaryTuples(p)[j]) && FromBinary(BinaryTuples(p)[j]) == j
  {
    if p > 0 {
      BinaryTuplesValues(p - 1);
      var prev := BinaryTuples(p - 1);
      var h := Pow2(p - 1);
      var all := BinaryTuples(p);
      forall j | 0 <= j < |all|
        ensures |all[j]| == p && IsBinary(all[j]) && FromBinary(all[j]) == j
      {
        var b := if j < h then 0 else 1;
        var k := if j < h then j else j - h;
        BinaryTuplesAt(p, j);
        ConsBinary(b, prev[k]);
      }
    }
  }

  /** Tuple j of the product is its first digit followed by a tuple of the
      product one shorter. */
  lemma BinaryTuplesAt(p: nat, j: nat)
    requires p > 0 && j < |BinaryTuples(p)| && |BinaryTuples(p - 1)| == Pow2(p - 1)
    ensures var h := Pow2(p - 1);
      BinaryTuples(p)[j] == [if j < h then 0 else 1] + BinaryTuples(p - 1)[if j < h then j else j - h]
  {
    var prev, h := BinaryTuples(p - 1), Pow2(p - 1);
    var zeros, ones := Prefixed(0, prev), Prefixed(1, prev);
    assert BinaryTuples(p) == zeros + ones;
    if j >= h {
      assert BinaryTuples(p)[j] == ones[j - h];
    }
  }

  /** A 0 or 1 in front of a numeral gives a numeral worth 2^|t| more when
      it is 1. */
  lemma ConsBinary(b: int, t: seq<int>)
    requires (b == 0 || b == 1) && IsBinary(t)
    ensures IsBinary([b] + t) && |[b] + t| == |t| + 1
    ensures FromBinary([b] + t) == (if b == 1 then Pow2(|t|) else 0) + FromBinary(t)
  {
    var bt := [b] + t;
    forall i | 0 <= i < |bt|
      ensures bt[i] == 0 || bt[i] == 1
    {
      if i > 0 {
        assert bt[i] == t[i - 1];
      }
    }
    FromBinaryCons(b, t);
  }
}
