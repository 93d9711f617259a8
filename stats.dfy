/** Counting and median helpers (common/stats.go). */
module Stats {
  import opened Wrappers
  import opened GoNum
  import opened Seqs
  import opened Sorting

  /** The non-zero values of s, in their original order. */
  function NonZero(s: seq<nat>): seq<nat>
  {
    if |s| == 0 then [] else NonZero(s[..|s| - 1]) + (if s[|s| - 1] != 0 then [s[|s| - 1]] else [])
  }

  /** CountNonZeroU: the number of non-zero values. */
  method CountNonZeroU(s: seq<nat>) returns (r: int)
    ensures r == |NonZero(s)|
  {
    r := 0;
    for i := 0 to |s|
      invariant r == |NonZero(s[..i])|
    {
      assert s[..i + 1][..i] == s[..i];
      if s[i] != 0 {
        r := r + 1;
      }
    }
    assert s[..|s|] == s;
  }

  /** Every value is either zero or counted: the count plus the zeros is the length. */
  lemma {:induction false} NonZeroCount(s: seq<nat>)
    ensures |NonZero(s)| + Occurrences(s, 0) == |s|
    ensures |NonZero(s)| <= |s|
  {
    if |s| > 0 {
      NonZeroCount(s[..|s| - 1]);
    }
  }

  /** NonZero keeps exactly the non-zero values. */
  lemma {:induction false} NonZeroMembers(s: seq<nat>)
    ensures forall v :: v in NonZero(s) <==> v in s && v != 0
  {
    if |s| > 0 {
      NonZeroMembers(s[..|s| - 1]);
      assert s == s[..|s| - 1] + [s[|s| - 1]];
    }
  }

  // ---------------------------------------------------------------------
  // Median

  /** The key of the comparator `slice[i] < slice[j]`: the value itself. */
  function Ascending(b: Byte): int
  {
    b as int
  }

  lemma AscendingInjective()
    ensures Injective(Ascending)
  {
  }

  /**
   * The value MedianOfSliceU8 computes from a sorted slice: the half-way point
   * between its two middle elements, which coincide for an odd length. It is
   * computed as Go does, half the difference added to the smaller, which
   * cannot leave the range of a byte.
   */
  function Median(s: seq<Byte>): (r: Byte)
    requires |s| > 0 && Sorted(s, Ascending)
    ensures s[(|s| - 1) / 2] <= r <= s[|s| / 2]
    ensures r as int == (s[(|s| - 1) / 2] as int + s[|s| / 2] as int) / 2
  {
    var bigger, smaller := s[|s| / 2], s[(|s| - 1) / 2];
    (bigger - smaller) / 2 + smaller
  }

  /** In a sorted slice the lower middle element is at most the upper one. */
  lemma MiddleOrdered(s: seq<Byte>)
    requires |s| > 0 && Sorted(s, Ascending)
    ensures s[(|s| - 1) / 2] <= s[|s| / 2]
  {
    if (|s| - 1) / 2 < |s| / 2 {
      assert Ascending(s[(|s| - 1) / 2]) <= Ascending(s[|s| / 2]);
    }
  }

  /** Go's runtime message for reading index 0 of an empty slice. */
  const EmptyIndexPanic: string := "index out of range [0] with length 0"

  /** MedianOfSliceU8: sorts the slice in place, then takes the median; an empty slice panics. */
  method MedianOfSliceU8(a: array<Byte>) returns (r: Result<Byte>)
    modifies a
    ensures a[..] == SortedBy(old(a[..]), Ascending)
    ensures Sorted(a[..], Ascending) && multiset(a[..]) == multiset(old(a[..]))
    ensures a.Length == 0 ==> r == Panic(EmptyIndexPanic)
    ensures a.Length > 0 ==> r == Ok(Median(a[..]))
  {
    SortByKey(a, Ascending);
    AscendingInjective();
    var length := a.Length;
    if length == 0 {
      return Panic(EmptyIndexPanic);
    }
    ghost var s := a[..];
    MiddleOrdered(s);
    var bigger := a[length / 2];
    var smaller := a[(length - 1) / 2];
    assert bigger == s[length / 2] && smaller == s[(length - 1) / 2];
    var result := (bigger - smaller) / 2 + smaller;
    assert result == Median(s);
    return Ok(result);
  }

  /** For an odd length the median is the middle element. */
  lemma MedianOfOddLength(s: seq<Byte>)
    requires |s| % 2 == 1 && Sorted(s, Ascending)
    ensures Median(s) == s[|s| / 2]
  {
  }

  /**
   * A sorted permutation is unique, so the median depends only on the values
   * of the slice and not on their order.
   */
  lemma MedianOfSameValues(s: seq<Byte>, t: seq<Byte>)
    requires |s| > 0 && Sorted(s, Ascending) && Sorted(t, Ascending) && multiset(s) == multiset(t)
    ensures |t| > 0 && Median(s) == Median(t)
  {
    AscendingInjective();
    SortedUnique(s, t, Ascending);
  }
}
