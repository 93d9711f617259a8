/** Sums and counts over sequences, shared by the models. */
module Seqs {

  /** The sum of a sequence of integers, folded from the right end. */
  function Sum(s: seq<int>): int
  {
    if |s| == 0 then 0 else Sum(s[..|s| - 1]) + s[|s| - 1]
  }

  lemma {:induction false} SumConcat(a: seq<int>, b: seq<int>)
    ensures Sum(a + b) == Sum(a) + Sum(b)
    decreases |b|
  {
    if |b| == 0 {
      assert a + b == a;
    } else {
      assert (a + b)[..|a + b| - 1] == a + b[..|b| - 1];
      SumConcat(a, b[..|b| - 1]);
    }
  }

  lemma SumSingleton(x: int)
    ensures Sum([x]) == x
  {
    assert [x][..0] == [];
  }

  lemma {:induction false} SumCons(x: int, s: seq<int>)
    ensures Sum([x] + s) == x + Sum(s)
  {
    SumConcat([x], s);
    SumSingleton(x);
  }

  lemma {:induction false} SumNonNegative(s: seq<int>)
    requires forall i :: 0 <= i < |s| ==> s[i] >= 0
    ensures Sum(s) >= 0
    decreases |s|
  {
    if |s| > 0 {
      SumNonNegative(s[..|s| - 1]);
    }
  }

  /** The number of `true` entries. */
  function CountTrue(s: seq<bool>): nat
    ensures CountTrue(s) <= |s|
  {
    if |s| == 0 then 0 else CountTrue(s[..|s| - 1]) + (if s[|s| - 1] then 1 else 0)
  }

  lemma {:induction false} CountTrueConcat(a: seq<bool>, b: seq<bool>)
    ensures CountTrue(a + b) == CountTrue(a) + CountTrue(b)
    decreases |b|
  {
    if |b| == 0 {
      assert a + b == a;
    } else {
      assert (a + b)[..|a + b| - 1] == a + b[..|b| - 1];
      CountTrueConcat(a, b[..|b| - 1]);
    }
  }

  /** The number of entries equal to `v`. */
  function Occurrences(s: seq<int>, v: int): nat
    ensures Occurrences(s, v) <= |s|
  {
    if |s| == 0 then 0 else Occurrences(s[..|s| - 1], v) + (if s[|s| - 1] == v then 1 else 0)
  }

  /** The largest element of a non-empty sequence. */
  function Max(s: seq<int>): (m: int)
    requires |s| > 0
    ensures forall i :: 0 <= i < |s| ==> s[i] <= m
    ensures exists i :: 0 <= i < |s| && s[i] == m
  {
    if |s| == 1 then s[0]
    else
      var p := Max(s[..|s| - 1]);
      assert forall i :: 0 <= i < |s| - 1 ==> s[..|s| - 1][i] == s[i];
      if s[|s| - 1] > p then s[|s| - 1] else p
  }

  /** Replacing one element changes the sum by the difference. */
  lemma {:induction false} SumUpdate(s: seq<int>, i: int, v: int)
    requires 0 <= i < |s|
    ensures Sum(s[i := v]) == Sum(s) - s[i] + v
    decreases |s|
  {
    var t := s[i := v];
    if i == |s| - 1 {
      assert t[..|t| - 1] == s[..|s| - 1];
    } else {
      assert t[..|t| - 1] == s[..|s| - 1][i := v];
      SumUpdate(s[..|s| - 1], i, v);
    }
  }

  /** A sequence of zeros sums to zero. */
  lemma {:induction false} SumZeros(s: seq<int>)
    requires forall i :: 0 <= i < |s| ==> s[i] == 0
    ensures Sum(s) == 0
    decreases |s|
  {
    if |s| > 0 {
      SumZeros(s[..|s| - 1]);
    }
  }

  /** An element that occurs is counted at least once. */
  lemma {:induction false} OccurrencesOfMember(s: seq<int>, i: int)
    requires 0 <= i < |s|
    ensures Occurrences(s, s[i]) >= 1
    decreases |s|
  {
    if i < |s| - 1 {
      OccurrencesOfMember(s[..|s| - 1], i);
    }
  }

  /** A value no element equals occurs zero times. */
  lemma {:induction false} OccurrencesAbsent(s: seq<int>, v: int)
    requires forall i :: 0 <= i < |s| ==> s[i] != v
    ensures Occurrences(s, v) == 0
    decreases |s|
  {
    if |s| > 0 {
      OccurrencesAbsent(s[..|s| - 1], v);
    }
  }

  lemma OccurrencesSnoc(s: seq<int>, x: int, v: int)
    ensures Occurrences(s + [x], v) == Occurrences(s, v) + (if x == v then 1 else 0)
  {
    assert (s + [x])[..|s|] == s;
  }

  /** The elements of `s` in the opposite order. */
  function Reversed<T>(s: seq<T>): (r: seq<T>)
    ensures |r| == |s|
    ensures forall i :: 0 <= i < |s| ==> r[i] == s[|s| - 1 - i]
  {
    if |s| == 0 then [] else [s[|s| - 1]] + Reversed(s[..|s| - 1])
  }

  /** Reversing twice gives the sequence back. */
  lemma ReversedTwice<T>(s: seq<T>)
    ensures Reversed(Reversed(s)) == s
  {
  }

  /** Reversing keeps the sum. */
  lemma {:induction false} ReversedSum(s: seq<int>)
    ensures Sum(Reversed(s)) == Sum(s)
    decreases |s|
  {
    if |s| > 0 {
      ReversedSum(s[..|s| - 1]);
      SumCons(s[|s| - 1], Reversed(s[..|s| - 1]));
    }
  }
}
