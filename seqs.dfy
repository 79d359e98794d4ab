/** Facts about sequences shared by the generators and filters. */
module Seqs {

  /** Strictly ascending, hence free of duplicates. */
  predicate Increasing(s: seq<int>)
  {
    forall i, j :: 0 <= i < j < |s| ==> s[i] < s[j]
  }

  /** Two ascending sequences with the same elements are the same sequence. */
  lemma {:induction false} SortedUnique(a: seq<int>, b: seq<int>)
    requires Increasing(a) && Increasing(b)
    requires forall x :: x in a <==> x in b
    ensures a == b
  {
    HeadIn(a);
    HeadIn(b);
    if a != [] && b != [] {
      var i :| 0 <= i < |b| && b[i] == a[0];
      var j :| 0 <= j < |a| && a[j] == b[0];
      assert b[0] <= a[0] && a[0] <= b[0];
      forall x
        ensures x in a[1..] <==> x in b[1..]
      {
        if x in a[1..] {
          assert x in b && x != b[0];
        }
        if x in b[1..] {
          assert x in a && x != a[0];
        }
      }
      SortedUnique(a[1..], b[1..]);
      assert a == [a[0]] + a[1..];
      assert b == [b[0]] + b[1..];
    }
  }

  lemma HeadIn(s: seq<int>)
    ensures |s| > 0 ==> s[0] in s
  {
  }

  /** Concatenating two ascending sequences, the first entirely below the second, stays ascending. */
  lemma IncreasingAppend(a: seq<int>, b: seq<int>)
    requires Increasing(a) && Increasing(b)
    requires forall x, y :: x in a && y in b ==> x < y
    ensures Increasing(a + b)
  {
    forall i, j | 0 <= i < j < |a + b|
      ensures (a + b)[i] < (a + b)[j]
    {
      if j >= |a| && i < |a| {
        assert (a + b)[i] in a && (a + b)[j] in b;
      }
    }
  }

  /** The concatenation of a sequence of sequences, in order. */
  function Flatten<T>(ss: seq<seq<T>>): (r: seq<T>)
    ensures |ss| == 1 ==> r == ss[0]
  {
    if ss == [] then [] else ss[0] + Flatten(ss[1..])
  }

  /** A slice that lies within the left part of a concatenation. */
  lemma SliceLeft<T>(a: seq<T>, b: seq<T>, i: nat, k: nat)
    requires i + k <= |a|
    ensures (a + b)[i .. i + k] == a[i .. i + k]
  {
    var s, t := (a + b)[i .. i + k], a[i .. i + k];
    assert forall j :: 0 <= j < k ==> s[j] == t[j];
  }

  /** The slice of a concatenation that is exactly its right part. */
  lemma SliceRight<T>(a: seq<T>, b: seq<T>, i: nat)
    requires i == |a|
    ensures (a + b)[i .. i + |b|] == b
  {
  }

  lemma {:induction false} FlattenAppend<T>(ss: seq<seq<T>>, s: seq<T>)
    ensures Flatten(ss + [s]) == Flatten(ss) + s
  {
    if ss != [] {
      assert (ss + [s])[1..] == ss[1..] + [s];
      FlattenAppend(ss[1..], s);
    }
  }

  lemma {:induction false} FlattenMembers<T>(ss: seq<seq<T>>, x: T)
    ensures x in Flatten(ss) <==> exists i :: 0 <= i < |ss| && x in ss[i]
  {
    if ss != [] {
      FlattenMembers(ss[1..], x);
      if x in Flatten(ss[1..]) {
        var i :| 0 <= i < |ss[1..]| && x in ss[1..][i];
        assert x in ss[i + 1];
      }
      if exists i :: 0 <= i < |ss| && x in ss[i] {
        var i :| 0 <= i < |ss| && x in ss[i];
        if i > 0 {
          assert x in ss[1..][i - 1];
        }
      }
    }
  }

  /** Joining ascending pieces, each entirely below the pieces after it,
      gives an ascending sequence. */
  lemma {:induction false} FlattenIncreasing(ss: seq<seq<nat>>)
    requires forall i :: 0 <= i < |ss| ==> Increasing(ss[i])
    requires forall i, j, x, y :: 0 <= i < j < |ss| && x in ss[i] && y in ss[j] ==> x < y
    ensures Increasing(Flatten(ss))
  {
    if ss != [] {
      var rest := ss[1..];
      forall i, j, x, y | 0 <= i < j < |rest| && x in rest[i] && y in rest[j]
        ensures x < y
      {
        assert rest[i] == ss[i + 1] && rest[j] == ss[j + 1];
      }
      forall i | 0 <= i < |rest|
        ensures Increasing(rest[i])
      {
        assert rest[i] == ss[i + 1];
      }
      FlattenIncreasing(rest);
      forall x, y | x in ss[0] && y in Flatten(rest)
        ensures x < y
      {
        FlattenMembers(rest, y);
        var j :| 0 <= j < |rest| && y in rest[j];
        assert y in ss[j + 1];
      }
      IncreasingAppend(ss[0], Flatten(rest));
    }
  }

  /** The entries of s that keep accepts, in their order: a generator
      expression with an if clause, or filter(). */
  function Filter<T(!new)>(keep: T -> bool, s: seq<T>): (r: seq<T>)
    ensures |r| <= |s|
  {
    if s == [] then []
    else (if keep(s[0]) then [s[0]] else []) + Filter(keep, s[1..])
  }

  /** Filtering keeps exactly the accepted entries. */
  lemma {:induction false} FilterMembers<T(!new)>(keep: T -> bool, s: seq<T>, x: T)
    ensures x in Filter(keep, s) <==> x in s && keep(x)
  {
    if s != [] {
      FilterMembers(keep, s[1..], x);
      assert s == [s[0]] + s[1..];
    }
  }

  /** Two filters in a row keep what both keep. */
  lemma FilterTwice<T(!new)>(first: T -> bool, second: T -> bool, s: seq<T>)
    ensures forall x :: x in Filter(second, Filter(first, s)) <==> x in s && first(x) && second(x)
  {
    forall x
      ensures x in Filter(second, Filter(first, s)) <==> x in s && first(x) && second(x)
    {
      FilterMembers(first, s, x);
      FilterMembers(second, Filter(first, s), x);
    }
  }

  /** Filtering one more entry at the back appends it when it is kept. */
  lemma {:induction false} FilterSnoc<T(!new)>(keep: T -> bool, s: seq<T>, a: T)
    ensures Filter(keep, s + [a]) == Filter(keep, s) + (if keep(a) then [a] else [])
    decreases |s|
  {
    if s == [] {
      assert s + [a] == [a];
    } else {
      var h := if keep(s[0]) then [s[0]] else [];
      var t := if keep(a) then [a] else [];
      var rest := Filter(keep, s[1..]);
      assert (s + [a])[0] == s[0] && (s + [a])[1..] == s[1..] + [a];
      assert Filter(keep, s + [a]) == h + Filter(keep, s[1..] + [a]);
      FilterSnoc(keep, s[1..], a);
      assert Filter(keep, s) == h + rest;
      AppendAssoc(h, rest, t);
    }
  }

  lemma AppendAssoc<T>(a: seq<T>, b: seq<T>, c: seq<T>)
    ensures a + (b + c) == (a + b) + c
  {
  }

  /** Nothing is kept when no entry passes. */
  lemma {:induction false} FilterNone<T(!new)>(keep: T -> bool, s: seq<T>)
    requires forall x :: x in s ==> !keep(x)
    ensures Filter(keep, s) == []
    decreases |s|
  {
    if s != [] {
      assert s[0] in s;
      FilterNone(keep, s[1..]);
    }
  }

  /** Filtering keeps ascending order. */
  lemma {:induction false} FilterIncreasing(keep: nat -> bool, s: seq<nat>)
    requires Increasing(s)
    ensures Increasing(Filter(keep, s))
    decreases |s|
  {
    if s != [] {
      var rest := Filter(keep, s[1..]);
      FilterIncreasing(keep, s[1..]);
      forall y | y in rest
        ensures s[0] < y
      {
        FilterMembers(keep, s[1..], y);
        var j :| 0 <= j < |s[1..]| && s[1..][j] == y;
        assert s[j + 1] == y;
      }
      IncreasingAppend(if keep(s[0]) then [s[0]] else [], rest);
    }
  }

  /** Python's max() of a non-empty sequence. */
  function Max(s: seq<int>): (m: int)
    requires |s| > 0
    ensures m in s && forall x :: x in s ==> x <= m
  {
    if |s| == 1 then s[0]
    else
      var rest := Max(s[1..]);
      assert s == [s[0]] + s[1..];
      if s[0] >= rest then s[0] else rest
  }

  /** Python's min() of a non-empty sequence. */
  function Min(s: seq<int>): (m: int)
    requires |s| > 0
    ensures m in s && forall x :: x in s ==> m <= x
  {
    if |s| == 1 then s[0]
    else
      var rest := Min(s[1..]);
      assert s == [s[0]] + s[1..];
      if s[0] <= rest then s[0] else rest
  }

  /** The elements of s, last first. */
  function Reversed<T>(s: seq<T>): (r: seq<T>)
    ensures |r| == |s| && forall i :: 0 <= i < |s| ==> r[i] == s[|s| - 1 - i]
  {
    if s == [] then [] else Reversed(s[1..]) + [s[0]]
  }
}
