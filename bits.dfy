/** Unbounded non-negative integers read as bit strings, the way the
    repository's Python code reads its "bit combos": bit i set means that
    position i of the ruler holds a dot. */
module Bits {

  function Pow2(n: nat): (r: nat)
    ensures r >= 1
  {
    if n == 0 then 1 else 2 * Pow2(n - 1)
  }

  /** Bit i of x, that is (x >> i) & 1 == 1. */
  predicate HasBit(x: nat, i: nat)
  {
    if i == 0 then x % 2 == 1 else HasBit(x / 2, i - 1)
  }

  /** The number of one bits of x (its popcount). */
  function Pop(x: nat): nat
  {
    if x == 0 then 0 else x % 2 + Pop(x / 2)
  }

  /** The three bitwise operators the repository uses on combos. */
  datatype BitOp = AndOp | OrOp | XorOp

  function Apply(op: BitOp, a: bool, b: bool): bool
  {
    match op
    case AndOp => a && b
    case OrOp => a || b
    case XorOp => a != b
  }

  /** Python's a & b, a | b and a ^ b on non-negative integers. */
  function Bitwise(op: BitOp, a: nat, b: nat): nat
    decreases a + b
  {
    if a == 0 && b == 0 then 0
    else 2 * Bitwise(op, a / 2, b / 2) + (if Apply(op, a % 2 == 1, b % 2 == 1) then 1 else 0)
  }

  function And(a: nat, b: nat): nat { Bitwise(AndOp, a, b) }
  function Or(a: nat, b: nat): nat { Bitwise(OrOp, a, b) }
  function Xor(a: nat, b: nat): nat { Bitwise(XorOp, a, b) }

  /** Python's x >> s. */
  function Shr(x: nat, s: nat): nat
  {
    if s == 0 then x else Shr(x / 2, s - 1)
  }

  /** Python's x << s. */
  function Shl(x: nat, s: nat): nat
  {
    x * Pow2(s)
  }

  /** Python's -x & x: in two's complement this isolates the lowest one bit. */
  function LowestSetBit(x: nat): (r: nat)
    ensures x > 0 ==> 0 < r <= x
  {
    if x == 0 then 0 else if x % 2 == 1 then 1 else 2 * LowestSetBit(x / 2)
  }

  // ---------------------------------------------------------------------
  // Powers of two and division

  lemma {:induction false} Pow2Add(a: nat, b: nat)
    ensures Pow2(a + b) == Pow2(a) * Pow2(b)
  {
    if a > 0 {
      Pow2Add(a - 1, b);
      assert Pow2(a + b) == 2 * Pow2(a - 1 + b);
    }
  }

  lemma {:induction false} Pow2Monotone(a: nat, b: nat)
    ensures a <= b ==> Pow2(a) <= Pow2(b)
    ensures a < b ==> Pow2(a) < Pow2(b)
  {
    if a < b {
      Pow2Monotone(a, b - 1);
    }
  }

  lemma MulLe(a: nat, b: nat, d: nat)
    requires a <= b
    ensures a * d <= b * d
  {
    assert b * d == a * d + (b - a) * d;
  }

  lemma DivModUnique(x: nat, d: nat, q: nat, r: nat)
    requires 0 <= r < d && x == q * d + r
    ensures x / d == q && x % d == r
  {
    var q', r' := x / d, x % d;
    assert x == q' * d + r';
    if q' < q {
      MulLe(q' + 1, q, d);
    } else if q' > q {
      MulLe(q + 1, q', d);
    }
  }

  lemma DivNat(a: nat, b: nat)
    requires b > 0
    ensures a / b >= 0
  {
  }

  /** Halving A * 2^m + a drops the lowest bit of a. */
  lemma Halve(A: nat, a: nat, m: nat)
    requires m > 0 && a < Pow2(m)
    ensures (A * Pow2(m) + a) / 2 == A * Pow2(m - 1) + a / 2
    ensures (A * Pow2(m) + a) % 2 == a % 2
    ensures a / 2 < Pow2(m - 1)
  {
    var h := Pow2(m - 1);
    assert Pow2(m) == 2 * h;
    assert A * Pow2(m) == 2 * (A * h);
    assert A * Pow2(m) + a == (A * h + a / 2) * 2 + a % 2;
    DivModUnique(A * Pow2(m) + a, 2, A * h + a / 2, a % 2);
  }

  lemma PowerHalf(n: nat)
    requires n >= 1
    ensures Pow2(n) == 2 * Pow2(n - 1) && (Pow2(n) - 1) / 2 == Pow2(n - 1) - 1
  {
  }

  // ---------------------------------------------------------------------
  // Single bits

  lemma {:induction false} HasBitZero(i: nat)
    ensures !HasBit(0, i)
  {
    if i > 0 {
      HasBitZero(i - 1);
    }
  }

  /** A bit at or above position m of a number below 2^m is clear. */
  lemma {:induction false} HasBitBelow(x: nat, m: nat, i: nat)
    requires x < Pow2(m) && m <= i
    ensures !HasBit(x, i)
  {
    if i == 0 {
    } else if m == 0 {
      HasBitZero(i);
    } else {
      HasBitBelow(x / 2, m - 1, i - 1);
    }
  }

  /** A set bit i implies x >= 2^i. */
  lemma {:induction false} HasBitAtLeast(x: nat, i: nat)
    requires HasBit(x, i)
    ensures Pow2(i) <= x
  {
    if i > 0 {
      HasBitAtLeast(x / 2, i - 1);
    }
  }

  /** The bits of A * 2^m + c are those of c below m and those of A above. */
  lemma {:induction false} HasBitSplit(A: nat, c: nat, m: nat, i: nat)
    requires c < Pow2(m)
    ensures HasBit(A * Pow2(m) + c, i) == if i < m then HasBit(c, i) else HasBit(A, i - m)
  {
    if m > 0 {
      Halve(A, c, m);
      if i > 0 {
        HasBitSplit(A, c / 2, m - 1, i - 1);
      }
    }
  }

  lemma PowHasBit(n: nat, i: nat)
    ensures HasBit(Pow2(n), i) == (i == n)
  {
    HasBitSplit(1, 0, n, i);
    if i < n {
      HasBitZero(i);
    } else if i > n {
      HasBitZero(i - n - 1);
    }
  }

  /** Two numbers with the same bits are equal. */
  lemma {:induction false} BitsEqual(x: nat, y: nat)
    requires forall i: nat :: HasBit(x, i) == HasBit(y, i)
    ensures x == y
    decreases x + y
  {
    if x != 0 || y != 0 {
      assert HasBit(x, 0) == HasBit(y, 0);
      forall i: nat
        ensures HasBit(x / 2, i) == HasBit(y / 2, i)
      {
        assert HasBit(x, i + 1) == HasBit(y, i + 1);
      }
      BitsEqual(x / 2, y / 2);
    }
  }

  /** A number is non-zero exactly when some bit is set; the witness is its lowest bit. */
  lemma {:induction false} NonZeroHasBit(x: nat) returns (i: nat)
    requires x != 0
    ensures HasBit(x, i) && forall j: nat :: j < i ==> !HasBit(x, j)
  {
    if x % 2 == 1 {
      i := 0;
    } else {
      var k := NonZeroHasBit(x / 2);
      i := k + 1;
    }
  }

  lemma {:induction false} ShrBit(x: nat, s: nat, i: nat)
    ensures HasBit(Shr(x, s), i) == HasBit(x, i + s)
  {
    if s > 0 {
      ShrBit(x / 2, s - 1, i);
    }
  }

  /** x >> s is non-zero exactly when x >= 2^s. */
  lemma {:induction false} ShrPositive(x: nat, s: nat)
    ensures Shr(x, s) > 0 <==> x >= Pow2(s)
  {
    if s > 0 {
      ShrPositive(x / 2, s - 1);
    }
  }

  /** One more place of shifting halves the shifted value. */
  lemma {:induction false} ShrStep(x: nat, s: nat)
    ensures Shr(x, s + 1) == Shr(x, s) / 2
  {
    if s > 0 {
      ShrStep(x / 2, s - 1);
    }
  }

  /** Shifting a run of n ones right by s leaves a run of n - s ones. */
  lemma {:induction false} ShrOnes(n: nat, s: nat)
    ensures Shr(Pow2(n) - 1, s) == if s <= n then Pow2(n - s) - 1 else 0
  {
    if s > 0 {
      if n > 0 {
        PowerHalf(n);
        ShrOnes(n - 1, s - 1);
      } else {
        ShrZero(s - 1);
      }
    }
  }

  lemma {:induction false} ShrZero(s: nat)
    ensures Shr(0, s) == 0
  {
    if s > 0 {
      ShrZero(s - 1);
    }
  }

  // ---------------------------------------------------------------------
  // Bitwise operators

  /** Bit i of a op b is op applied to bit i of a and bit i of b. */
  lemma {:induction false} BitwiseBit(op: BitOp, a: nat, b: nat, i: nat)
    ensures HasBit(Bitwise(op, a, b), i) == Apply(op, HasBit(a, i), HasBit(b, i))
    decreases a + b
  {
    if a == 0 && b == 0 {
      HasBitZero(i);
    } else {
      var q := Bitwise(op, a / 2, b / 2);
      var bit := if Apply(op, a % 2 == 1, b % 2 == 1) then 1 else 0;
      BitwiseStep(op, a, b);
      DivModUnique(Bitwise(op, a, b), 2, q, bit);
      if i > 0 {
        BitwiseBit(op, a / 2, b / 2, i - 1);
      }
    }
  }

  /** Bitwise operators act independently above and below bit m. */
  lemma {:induction false} BitwiseSplit(op: BitOp, X: nat, Y: nat, A: nat, a: nat, B: nat, c: nat, m: nat)
    requires a < Pow2(m) && c < Pow2(m) && X == A * Pow2(m) + a && Y == B * Pow2(m) + c
    ensures Bitwise(op, X, Y) == Bitwise(op, A, B) * Pow2(m) + Bitwise(op, a, c)
    decreases m
  {
    if m == 0 {
      assert a == 0 && c == 0 && X == A && Y == B;
    } else {
      var h := Pow2(m - 1);
      Halve(A, a, m);
      Halve(B, c, m);
      BitwiseSplit(op, X / 2, Y / 2, A, a / 2, B, c / 2, m - 1);
      BitwiseCombine(op, X, Y, a, c, Bitwise(op, A, B), h);
    }
  }

  lemma BitwiseCombine(op: BitOp, X: nat, Y: nat, a: nat, c: nat, w: nat, h: nat)
    requires X % 2 == a % 2 && Y % 2 == c % 2
    requires Bitwise(op, X / 2, Y / 2) == w * h + Bitwise(op, a / 2, c / 2)
    ensures Bitwise(op, X, Y) == w * (2 * h) + Bitwise(op, a, c)
  {
    var lo := Bitwise(op, a / 2, c / 2);
    var bit := if Apply(op, a % 2 == 1, c % 2 == 1) then 1 else 0;
    calc {
      Bitwise(op, X, Y);
      { BitwiseStep(op, X, Y); }
      2 * (w * h + lo) + bit;
      { Regroup(w, h, lo, bit); }
      w * (2 * h) + (2 * lo + bit);
      { BitwiseStep(op, a, c); }
      w * (2 * h) + Bitwise(op, a, c);
    }
  }

  lemma Regroup(w: nat, h: nat, lo: nat, bit: nat)
    ensures 2 * (w * h + lo) + bit == w * (2 * h) + (2 * lo + bit)
  {
  }

  /** One step of the recursion of Bitwise, including at zero. */
  lemma BitwiseStep(op: BitOp, x: nat, y: nat)
    ensures Bitwise(op, x, y) == 2 * Bitwise(op, x / 2, y / 2) + (if Apply(op, x % 2 == 1, y % 2 == 1) then 1 else 0)
  {
  }

  lemma {:induction false} BitwiseZeroRight(op: BitOp, x: nat)
    ensures Bitwise(op, x, 0) == if op == AndOp then 0 else x
    decreases x
  {
    if x != 0 {
      BitwiseZeroRight(op, x / 2);
    }
  }

  lemma {:induction false} BitwiseZeroLeft(op: BitOp, x: nat)
    ensures Bitwise(op, 0, x) == if op == AndOp then 0 else x
    decreases x
  {
    if x != 0 {
      BitwiseZeroLeft(op, x / 2);
    }
  }

  lemma {:induction false} XorSelf(x: nat)
    ensures Xor(x, x) == 0
    decreases x
  {
    if x != 0 {
      XorSelf(x / 2);
    }
  }

  /** When the set bits of a and b are disjoint, a | b is their sum. */
  lemma OrDisjoint(A: nat, c: nat, m: nat)
    requires c < Pow2(m)
    ensures Or(A * Pow2(m), c) == A * Pow2(m) + c
  {
    BitwiseSplit(OrOp, A * Pow2(m), c, A, 0, 0, c, m);
    BitwiseZeroRight(OrOp, A);
    BitwiseZeroLeft(OrOp, c);
  }

  /** x & 2^n is non-zero exactly when bit n of x is set. */
  lemma AndPow2(x: nat, n: nat)
    ensures (And(x, Pow2(n)) != 0) == HasBit(x, n)
  {
    if And(x, Pow2(n)) != 0 {
      var i := NonZeroHasBit(And(x, Pow2(n)));
      BitwiseBit(AndOp, x, Pow2(n), i);
      PowHasBit(n, i);
    } else {
      BitwiseBit(AndOp, x, Pow2(n), n);
      PowHasBit(n, n);
      HasBitZero(n);
    }
  }

  /** Below 2^(n+1), bit n is set exactly when x >= 2^n. */
  lemma TopBit(x: nat, n: nat)
    requires x < Pow2(n + 1)
    ensures HasBit(x, n) == (x >= Pow2(n))
  {
    if x >= Pow2(n) {
      HasBitSplit(1, x - Pow2(n), n, n);
    } else {
      HasBitBelow(x, n, n);
    }
  }

  // ---------------------------------------------------------------------
  // Popcount

  lemma {:induction false} PopSplit(A: nat, c: nat, m: nat)
    requires c < Pow2(m)
    ensures Pop(A * Pow2(m) + c) == Pop(A) + Pop(c)
  {
    if m > 0 {
      var x := A * Pow2(m) + c;
      Halve(A, c, m);
      PopSplit(A, c / 2, m - 1);
      assert Pop(x) == x % 2 + Pop(x / 2);
    }
  }

  lemma PopShift(A: nat, m: nat)
    ensures Pop(A * Pow2(m)) == Pop(A)
  {
    PopSplit(A, 0, m);
  }

  /** A number below 2^m has at most m ones, and exactly m only when it is 2^m - 1. */
  lemma {:induction false} PopBound(w: nat, m: nat)
    requires w < Pow2(m)
    ensures Pop(w) <= m
    ensures Pop(w) == m ==> w == Pow2(m) - 1
  {
    if m > 0 && w > 0 {
      PopBound(w / 2, m - 1);
    }
  }

  lemma {:induction false} PopOnes(m: nat)
    ensures Pop(Pow2(m) - 1) == m
  {
    if m > 0 {
      PowerHalf(m);
      PopOnes(m - 1);
    }
  }

  lemma PopPositive(w: nat)
    requires w > 0
    ensures Pop(w) >= 1
  {
    var i := NonZeroHasBit(w);
    PopHasBit(w, i);
  }

  lemma {:induction false} PopHasBit(w: nat, i: nat)
    requires HasBit(w, i)
    ensures Pop(w) >= 1
  {
    if i > 0 && w % 2 == 0 {
      PopHasBit(w / 2, i - 1);
    }
  }

  lemma PopEvenPlusOne(E: nat)
    requires E % 2 == 0
    ensures Pop(E + 1) == Pop(E) + 1
  {
    assert (E + 1) / 2 == E / 2;
  }

  // ---------------------------------------------------------------------
  // Decomposing a non-zero number for Gosper's hack

  /** x = o * 2^t with o odd, and -x & x == 2^t. */
  lemma {:induction false} LowestSetBitSplit(x: nat) returns (t: nat, o: nat)
    requires x > 0
    ensures o % 2 == 1 && x == o * Pow2(t) && LowestSetBit(x) == Pow2(t)
  {
    if x % 2 == 1 {
      t, o := 0, x;
    } else {
      var t', o' := LowestSetBitSplit(x / 2);
      t, o := t' + 1, o';
      assert o * Pow2(t) == 2 * (o' * Pow2(t'));
    }
  }

  /** An odd o ends in a run of r >= 1 ones above which sits an even E. */
  lemma {:induction false} TrailingOnesSplit(o: nat) returns (r: nat, E: nat)
    requires o % 2 == 1
    ensures r >= 1 && E % 2 == 0 && o == E * Pow2(r) + Pow2(r) - 1
  {
    if (o / 2) % 2 == 1 {
      var r', E' := TrailingOnesSplit(o / 2);
      r, E := r' + 1, E';
      assert E * Pow2(r) == 2 * (E' * Pow2(r'));
    } else {
      r, E := 1, o / 2;
    }
  }
}
