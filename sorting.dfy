/**
 * `sort.Slice` from Go's library, which the core calls with the comparators
 * `s[i] < s[j]` and `s[i] > s[j]`. Both order by an integer key (the value,
 * or its negation), so one in-place sort by key stands in for both, with the
 * contract the library promises: the slice ends up sorted by the comparator
 * and is a permutation of itself. A functional insertion sort is the
 * reference; for a key that tells values apart the two agree.
 */
module Sorting {

  /** s is ordered by key: no element has a smaller key than one before it. */
  predicate Sorted<T>(s: seq<T>, key: T -> int)
  {
    forall p, q :: 0 <= p < q < |s| ==> key(s[p]) <= key(s[q])
  }

  /** Distinct values have distinct keys, so sorting leaves no ties to break. */
  ghost predicate Injective<T(!new)>(key: T -> int)
  {
    forall x, y :: key(x) == key(y) ==> x == y
  }

  // ---------------------------------------------------------------------
  // The reference: a functional insertion sort

  function Insert<T>(x: T, s: seq<T>, key: T -> int): seq<T>
  {
    if |s| == 0 then [x] else if key(x) <= key(s[0]) then [x] + s else [s[0]] + Insert(x, s[1..], key)
  }

  function SortedBy<T>(s: seq<T>, key: T -> int): seq<T>
  {
    if |s| == 0 then [] else Insert(s[0], SortedBy(s[1..], key), key)
  }

  lemma {:induction false} InsertKeeps<T>(x: T, s: seq<T>, key: T -> int)
    requires Sorted(s, key)
    ensures Sorted(Insert(x, s, key), key)
    ensures multiset(Insert(x, s, key)) == multiset(s) + multiset{x}
    ensures |Insert(x, s, key)| == |s| + 1
  {
    if |s| == 0 {
    } else if key(x) <= key(s[0]) {
      ConsSorted(x, s, key);
    } else {
      var t := s[1..];
      assert s == [s[0]] + t;
      InsertKeeps(x, t, key);
      var r := Insert(x, t, key);
      forall k | 0 <= k < |r|
        ensures key(s[0]) <= key(r[k])
      {
        assert r[k] in multiset(r);
        if r[k] != x {
          assert r[k] in t;
        }
      }
      ConsSorted(s[0], r, key);
    }
  }

  /** An element whose key is at most the first key of a sorted sequence can go in front. */
  lemma ConsSorted<T>(h: T, s: seq<T>, key: T -> int)
    requires Sorted(s, key) && (|s| > 0 ==> key(h) <= key(s[0]))
    ensures Sorted([h] + s, key)
  {
    var r := [h] + s;
    forall p, q | 0 <= p < q < |r|
      ensures key(r[p]) <= key(r[q])
    {
      if p == 0 && q > 1 {
        assert key(s[0]) <= key(s[q - 1]);
      }
    }
  }

  /** The reference sort yields a sorted permutation. */
  lemma {:induction false} SortedBySorts<T>(s: seq<T>, key: T -> int)
    ensures Sorted(SortedBy(s, key), key)
    ensures multiset(SortedBy(s, key)) == multiset(s)
  {
    if |s| > 0 {
      SortedBySorts(s[1..], key);
      InsertKeeps(s[0], SortedBy(s[1..], key), key);
      assert s == [s[0]] + s[1..];
    }
  }

  /** With an injective key a sorted permutation is unique. */
  lemma {:induction false} SortedUnique<T(!new)>(s: seq<T>, t: seq<T>, key: T -> int)
    requires Injective(key) && Sorted(s, key) && Sorted(t, key) && multiset(s) == multiset(t)
    ensures s == t
    decreases |s|
  {
    HeadsAgree(s, t, key);
    if |s| > 0 {
      SortedUnique(s[1..], t[1..], key);
      SameHeadSameTail(s, t);
    }
  }

  lemma HeadsAgree<T(!new)>(s: seq<T>, t: seq<T>, key: T -> int)
    requires Injective(key) && Sorted(s, key) && Sorted(t, key) && multiset(s) == multiset(t)
    ensures |s| == |t|
    ensures |s| > 0 ==> s[0] == t[0] && Sorted(s[1..], key) && Sorted(t[1..], key) && multiset(s[1..]) == multiset(t[1..])
  {
    assert |s| == |multiset(s)| == |multiset(t)| == |t|;
    if |s| > 0 {
      FirstIsLeast(s, t[0], key);
      FirstIsLeast(t, s[0], key);
      DropFirst(s, key);
      DropFirst(t, key);
    }
  }

  lemma FirstIsLeast<T>(s: seq<T>, v: T, key: T -> int)
    requires |s| > 0 && Sorted(s, key) && v in multiset(s)
    ensures key(s[0]) <= key(v)
  {
    assert v in s;
    var i :| 0 <= i < |s| && s[i] == v;
    if i > 0 {
      assert key(s[0]) <= key(s[i]);
    }
  }

  lemma DropFirst<T>(s: seq<T>, key: T -> int)
    requires |s| > 0 && Sorted(s, key)
    ensures Sorted(s[1..], key) && multiset(s[1..]) == multiset(s) - multiset{s[0]}
  {
    assert s == [s[0]] + s[1..];
  }

  lemma SameHeadSameTail<T>(s: seq<T>, t: seq<T>)
    requires |s| == |t| > 0 && s[0] == t[0] && s[1..] == t[1..]
    ensures s == t
  {
    assert s == [s[0]] + s[1..] && t == [t[0]] + t[1..];
  }

  // ---------------------------------------------------------------------
  // The in-place sort

  /** sort.Slice, as an insertion sort by key. */
  method SortByKey<T(!new)>(a: array<T>, key: T -> int)
    modifies a
    ensures Sorted(a[..], key)
    ensures multiset(a[..]) == multiset(old(a[..]))
    ensures Injective(key) ==> a[..] == SortedBy(old(a[..]), key)
  {
    for i := 0 to a.Length
      invariant Sorted(a[..i], key)
      invariant multiset(a[..]) == multiset(old(a[..]))
    {
      InsertLast(a, i, key);
    }
    assert a[..a.Length] == a[..];
    if Injective(key) {
      SortedBySorts(old(a[..]), key);
      SortedUnique(a[..], SortedBy(old(a[..]), key), key);
    }
  }

  /** Moves a[i] left past the elements of the sorted prefix a[..i] with larger keys. */
  method InsertLast<T>(a: array<T>, i: nat, key: T -> int)
    requires i < a.Length && Sorted(a[..i], key)
    modifies a
    ensures Sorted(a[..i + 1], key)
    ensures multiset(a[..]) == multiset(old(a[..]))
  {
    var j := i;
    InsertionStart(a[..], i, key);
    while j > 0 && key(a[j - 1]) > key(a[j])
      invariant 0 <= j <= i
      invariant multiset(a[..]) == multiset(old(a[..]))
      invariant Inserting(a[..], j, i, key)
    {
      ghost var s := a[..];
      a[j - 1], a[j] := a[j], a[j - 1];
      assert a[..] == s[j - 1 := s[j]][j := s[j - 1]];
      InsertionStep(s, j, i, key);
      j := j - 1;
    }
    InsertionDone(a[..], j, i, key);
  }

  /**
   * The state of an insertion that has moved the new element to position j:
   * s[..i+1] without position j is sorted, and s[j] has a smaller key than
   * everything after it.
   */
  predicate Inserting<T>(s: seq<T>, j: nat, i: nat, key: T -> int)
    requires j <= i < |s|
  {
    (forall p, q :: 0 <= p < q <= i && p != j && q != j ==> key(s[p]) <= key(s[q])) &&
    (forall q :: j < q <= i ==> key(s[j]) < key(s[q]))
  }

  lemma InsertionStart<T>(s: seq<T>, i: nat, key: T -> int)
    requires i < |s| && Sorted(s[..i], key)
    ensures Inserting(s, i, i, key)
  {
    forall p, q | 0 <= p < q <= i && p != i && q != i
      ensures key(s[p]) <= key(s[q])
    {
      assert s[p] == s[..i][p] && s[q] == s[..i][q];
    }
  }

  lemma InsertionStep<T>(s: seq<T>, j: nat, i: nat, key: T -> int)
    requires 0 < j <= i < |s| && Inserting(s, j, i, key) && key(s[j - 1]) > key(s[j])
    ensures Inserting(s[j - 1 := s[j]][j := s[j - 1]], j - 1, i, key)
  {
  }

  lemma InsertionDone<T>(s: seq<T>, j: nat, i: nat, key: T -> int)
    requires j <= i < |s| && Inserting(s, j, i, key) && (j == 0 || key(s[j - 1]) <= key(s[j]))
    ensures Sorted(s[..i + 1], key)
  {
    forall p, q | 0 <= p < q <= i
      ensures key(s[p]) <= key(s[q])
    {
      if q == j && p < j - 1 {
        assert key(s[p]) <= key(s[j - 1]);
      }
    }
  }
}
