/**
 * Reassembly of a labelled segment list once its Unknown segments have been
 * solved (gridlines/errors.go, reAssemble*). Each Unknown entry is replaced by
 * its solved section, the other lengths are copied, and the labels are rebuilt
 * so that they alternate.
 */
module Reassemble {
  import opened Wrappers
  import opened Seqs
  import opened Intervals

  /** The lengths of the entries labelled Unknown with index in [lo, hi), in order. */
  function UnknownLengths(c: CombinedList, lo: nat, hi: nat): (r: seq<nat>)
    requires Parallel(c) && hi <= |c.intervals|
    ensures hi <= lo ==> r == []
    ensures lo <= hi ==> |r| <= hi - lo
    decreases hi
  {
    if hi <= lo then []
    else UnknownLengths(c, lo, hi - 1) + (if c.types[hi - 1] == Unknown then [c.intervals[hi - 1]] else [])
  }

  /** The number of Unknown entries among the first n. */
  function UnknownCount(c: CombinedList, n: nat): nat
    requires Parallel(c) && n <= |c.intervals|
  {
    |UnknownLengths(c, 0, n)|
  }

  lemma {:induction false} UnknownCountGrows(c: CombinedList, m: nat, n: nat)
    requires Parallel(c) && m <= n <= |c.intervals|
    ensures UnknownCount(c, m) <= UnknownCount(c, n)
    decreases n - m
  {
    if m < n {
      UnknownCountGrows(c, m, n - 1);
    }
  }

  /**
   * The intervals written for the first n entries: a section for each Unknown
   * entry (the k-th Unknown gets section k), the length itself otherwise.
   */
  function Spliced(c: CombinedList, fixed: seq<seq<nat>>, n: nat): seq<nat>
    requires Parallel(c) && n <= |c.intervals|
    requires UnknownCount(c, n) <= |fixed|
  {
    if n == 0 then []
    else
      UnknownCountGrows(c, n - 1, n);
      Spliced(c, fixed, n - 1) + (if c.types[n - 1] == Unknown then fixed[UnknownCount(c, n - 1)] else [c.intervals[n - 1]])
  }

  /** The number of elements in all sections of `fixed`. */
  function ElementCount(fixed: seq<seq<nat>>): nat
  {
    if |fixed| == 0 then 0 else ElementCount(fixed[..|fixed| - 1]) + |fixed[|fixed| - 1]|
  }

  /** reAssembleGetTotalLength, as a value: one entry per section is replaced by its elements. */
  function TotalLength(c: CombinedList, fixed: seq<seq<nat>>): int
  {
    |c.intervals| - |fixed| + ElementCount(fixed)
  }

  /**
   * reAssembleCreateIntervals, as a value: a zeroed slice of resultLength
   * written from the front. A missing section or a write beyond the end is an
   * index panic; unwritten entries stay 0.
   */
  function Filled(resultLength: int, c: CombinedList, fixed: seq<seq<nat>>): (r: Result<seq<nat>>)
    requires Parallel(c)
    ensures r.Ok? ==> |r.value| == resultLength
  {
    if resultLength < 0 then Panic("makeslice: len out of range")
    else if UnknownCount(c, |c.intervals|) > |fixed| then Panic("index out of range")
    else
      var w := Spliced(c, fixed, |c.intervals|);
      if |w| > resultLength then Panic("index out of range")
      else Ok(w + seq(resultLength - |w|, _ => 0))
  }

  /** The opposite of a Grid or Pixel label. */
  function Opposite(l: Label): Label
  {
    if l == Grid then Pixel else Grid
  }

  /** n labels, starting with `first` and switching at every step. */
  function Alternating(n: nat, first: Label): (r: seq<Label>)
    ensures |r| == n
  {
    if n == 0 then [] else [first] + Alternating(n - 1, Opposite(first))
  }

  function StartLabel(startsWithGrid: bool): Label
  {
    if startsWithGrid then Grid else Pixel
  }

  /** reAssembleCombinedList, as a value. */
  function Reassembled(c: CombinedList, fixed: seq<seq<nat>>): Result<CombinedList>
    requires Parallel(c)
  {
    match Filled(TotalLength(c, fixed), c, fixed)
    case Panic(m) => Panic(m)
    case Ok(intervals) =>
      if |fixed| == 0 then Panic("index out of range")
      else Ok(CombinedList(intervals, Alternating(|intervals|, StartLabel(|fixed[0]| % 2 == 1))))
  }

  // ---------------------------------------------------------------------
  // The four functions of the source

  /** reAssembleGetTotalLength */
  method ReAssembleGetTotalLength(c: CombinedList, fixed: seq<seq<nat>>) returns (total: int)
    ensures total == TotalLength(c, fixed)
  {
    var originalCountTotal := |c.intervals|;
    var unknownsCount := |fixed|;
    var elementCount := 0;
    for k := 0 to |fixed|
      invariant elementCount == ElementCount(fixed[..k])
    {
      assert fixed[..k + 1][..k] == fixed[..k];
      elementCount := elementCount + |fixed[k]|;
    }
    assert fixed[..|fixed|] == fixed;
    total := originalCountTotal - unknownsCount + elementCount;
  }

  /** reAssembleCreateIntervals */
  method ReAssembleCreateIntervals(resultLength: int, c: CombinedList, fixed: seq<seq<nat>>)
    returns (r: Result<seq<nat>>)
    requires Parallel(c)
    ensures r == Filled(resultLength, c, fixed)
  {
    if resultLength < 0 {
      return Panic("makeslice: len out of range");
    }
    var newIntervals := new nat[resultLength](_ => 0);
    var intervalsId := 0;
    var currentSection := 0;
    var i := 0;
    while i < |c.intervals|
      invariant 0 <= i <= |c.intervals|
      invariant currentSection == UnknownCount(c, i) <= |fixed|
      invariant intervalsId == |Spliced(c, fixed, i)| <= resultLength
      invariant newIntervals[..intervalsId] == Spliced(c, fixed, i)
      invariant forall m :: intervalsId <= m < resultLength ==> newIntervals[m] == 0
    {
      UnknownCountGrows(c, i, i + 1);
      if c.types[i] == Unknown {
        if currentSection >= |fixed| {
          MissingSectionPanics(resultLength, c, fixed, i + 1);
          return Panic("index out of range");
        }
        var section := fixed[currentSection];
        var written, next := WriteSection(newIntervals, intervalsId, section);
        if !written {
          OverflowPanics(resultLength, c, fixed, i + 1);
          return Panic("index out of range");
        }
        intervalsId := next;
        currentSection := currentSection + 1;
      } else {
        if intervalsId >= resultLength {
          OverflowPanics(resultLength, c, fixed, i + 1);
          return Panic("index out of range");
        }
        newIntervals[intervalsId] := c.intervals[i];
        intervalsId := intervalsId + 1;
      }
      i := i + 1;
    }
    ZeroTail(newIntervals[..], intervalsId);
    r := Ok(newIntervals[..]);
  }

  /**
   * The inner loop of reAssembleCreateIntervals: the elements of one section
   * are written from position id on; it fails when they do not fit.
   */
  method WriteSection(a: array<nat>, id: nat, section: seq<nat>) returns (written: bool, next: nat)
    requires id <= a.Length
    requires forall m :: id <= m < a.Length ==> a[m] == 0
    modifies a
    ensures written <==> id + |section| <= a.Length
    ensures written ==> next == id + |section| && a[..next] == old(a[..id]) + section
    ensures written ==> forall m :: next <= m < a.Length ==> a[m] == 0
  {
    ghost var before := a[..id];
    next := id;
    var j := 0;
    while j < |section|
      invariant 0 <= j <= |section|
      invariant next == id + j <= a.Length
      invariant a[..next] == before + section[..j]
      invariant forall m :: next <= m < a.Length ==> a[m] == 0
    {
      if next >= a.Length {
        return false, next;
      }
      assert section[..j + 1] == section[..j] + [section[j]];
      a[next] := section[j];
      next := next + 1;
      j := j + 1;
    }
    assert section[..j] == section;
    written := true;
  }

  /** reAssembleCreateTypes */
  method ReAssembleCreateTypes(resultLength: nat, startsWithGrid: bool) returns (types: seq<Label>)
    ensures types == Alternating(resultLength, StartLabel(startsWithGrid))
  {
    var evenLabel, oddLabel := Pixel, Grid;
    if startsWithGrid {
      evenLabel, oddLabel := Grid, Pixel;
    }
    var newTypes := new Label[resultLength](_ => Pixel);
    for i := 0 to resultLength
      invariant forall k :: 0 <= k < i ==> newTypes[k] == if k % 2 == 0 then evenLabel else oddLabel
    {
      newTypes[i] := if i % 2 == 0 then evenLabel else oddLabel;
    }
    types := newTypes[..];
    forall k | 0 <= k < resultLength
      ensures types[k] == Alternating(resultLength, StartLabel(startsWithGrid))[k]
    {
      AlternatingAt(resultLength, StartLabel(startsWithGrid), k);
    }
  }

  /** reAssembleCombinedList */
  method ReAssembleCombinedList(c: CombinedList, fixed: seq<seq<nat>>) returns (r: Result<CombinedList>)
    requires Parallel(c)
    ensures r == Reassembled(c, fixed)
  {
    var resultLength := ReAssembleGetTotalLength(c, fixed);
    var intervals := ReAssembleCreateIntervals(resultLength, c, fixed);
    if intervals.Panic? {
      return Panic(intervals.reason);
    }
    if |fixed| == 0 {
      return Panic("index out of range");
    }
    var startsWithGrid := |fixed[0]| % 2 == 1;
    var types := ReAssembleCreateTypes(resultLength, startsWithGrid);
    r := Ok(CombinedList(intervals.value, types));
  }

  // ---------------------------------------------------------------------
  // Helpers of the proofs

  lemma MissingSectionPanics(resultLength: int, c: CombinedList, fixed: seq<seq<nat>>, n: nat)
    requires Parallel(c) && n <= |c.intervals|
    requires UnknownCount(c, n) > |fixed|
    ensures Filled(resultLength, c, fixed).Panic?
  {
    UnknownCountGrows(c, n, |c.intervals|);
  }

  lemma OverflowPanics(resultLength: int, c: CombinedList, fixed: seq<seq<nat>>, n: nat)
    requires Parallel(c) && n <= |c.intervals|
    requires UnknownCount(c, n) <= |fixed|
    requires 0 <= resultLength < |Spliced(c, fixed, n)|
    ensures Filled(resultLength, c, fixed).Panic?
  {
    if UnknownCount(c, |c.intervals|) <= |fixed| {
      SplicedPrefix(c, fixed, n, |c.intervals|);
    }
  }

  lemma ZeroTail(s: seq<nat>, n: nat)
    requires n <= |s|
    requires forall m :: n <= m < |s| ==> s[m] == 0
    ensures s == s[..n] + seq(|s| - n, _ => 0)
  {
  }

  lemma {:induction false} AlternatingAt(n: nat, first: Label, i: nat)
    requires first != Unknown && i < n
    ensures Alternating(n, first)[i] == if i % 2 == 0 then first else Opposite(first)
  {
    if i > 0 {
      AlternatingAt(n - 1, Opposite(first), i - 1);
      assert Alternating(n, first)[i] == Alternating(n - 1, Opposite(first))[i - 1];
      assert Opposite(Opposite(first)) == first;
      assert (i - 1) % 2 == 0 <==> i % 2 != 0;
    }
  }

  // ---------------------------------------------------------------------
  // Properties

  /** Splicing the first m entries writes a prefix of what splicing n entries writes. */
  lemma {:induction false} SplicedPrefix(c: CombinedList, fixed: seq<seq<nat>>, m: nat, n: nat)
    requires Parallel(c) && m <= n <= |c.intervals|
    requires UnknownCount(c, n) <= |fixed|
    ensures UnknownCount(c, m) <= |fixed|
    ensures |Spliced(c, fixed, m)| <= |Spliced(c, fixed, n)|
    ensures Spliced(c, fixed, n)[..|Spliced(c, fixed, m)|] == Spliced(c, fixed, m)
    decreases n - m
  {
    UnknownCountGrows(c, m, n);
    if m < n {
      UnknownCountGrows(c, n - 1, n);
      SplicedPrefix(c, fixed, m, n - 1);
      var a := Spliced(c, fixed, m);
      var b := Spliced(c, fixed, n - 1);
      assert Spliced(c, fixed, n)[..|b|] == b;
      assert Spliced(c, fixed, n)[..|a|] == b[..|a|];
    }
  }

  /** The spliced list holds one element per copied entry plus the elements of the sections used. */
  lemma {:induction false} SplicedLength(c: CombinedList, fixed: seq<seq<nat>>, n: nat)
    requires Parallel(c) && n <= |c.intervals|
    requires UnknownCount(c, n) <= |fixed|
    ensures |Spliced(c, fixed, n)| == n - UnknownCount(c, n) + ElementCount(fixed[..UnknownCount(c, n)])
  {
    if n > 0 {
      UnknownCountGrows(c, n - 1, n);
      SplicedLength(c, fixed, n - 1);
      var k := UnknownCount(c, n - 1);
      if c.types[n - 1] == Unknown {
        assert fixed[..k + 1][..k] == fixed[..k];
      }
    }
  }

  /** When every Unknown entry has its section, the computed total is the exact length. */
  lemma TotalLengthExact(c: CombinedList, fixed: seq<seq<nat>>)
    requires Parallel(c)
    requires UnknownCount(c, |c.intervals|) == |fixed|
    ensures |Spliced(c, fixed, |c.intervals|)| == TotalLength(c, fixed)
    ensures Filled(TotalLength(c, fixed), c, fixed) == Ok(Spliced(c, fixed, |c.intervals|))
  {
    SplicedLength(c, fixed, |c.intervals|);
    assert fixed[..|fixed|] == fixed;
    var w := Spliced(c, fixed, |c.intervals|);
    assert w + seq(0, _ => 0) == w;
  }

  /**
   * Entry i is copied when it is not Unknown, and replaced by its section
   * otherwise, at the position where the entries before it end.
   */
  lemma SplicedPieces(c: CombinedList, fixed: seq<seq<nat>>, i: nat)
    requires Parallel(c) && i < |c.intervals|
    requires UnknownCount(c, |c.intervals|) <= |fixed|
    ensures UnknownCount(c, i) <= |fixed|
    ensures var w := Spliced(c, fixed, |c.intervals|);
      var at := |Spliced(c, fixed, i)|;
      && (c.types[i] != Unknown ==> at < |w| && w[at] == c.intervals[i])
      && (c.types[i] == Unknown ==>
            UnknownCount(c, i) < |fixed| && at + |fixed[UnknownCount(c, i)]| <= |w|
            && w[at..at + |fixed[UnknownCount(c, i)]|] == fixed[UnknownCount(c, i)])
  {
    SplicedPrefix(c, fixed, i + 1, |c.intervals|);
    SplicedPrefix(c, fixed, i, i + 1);
    UnknownCountGrows(c, i + 1, |c.intervals|);
    var w := Spliced(c, fixed, |c.intervals|);
    var u := Spliced(c, fixed, i + 1);
    var at := |Spliced(c, fixed, i)|;
    if c.types[i] == Unknown {
      var s := fixed[UnknownCount(c, i)];
      assert w[at..at + |s|] == u[at..at + |s|];
    } else {
      assert w[at] == u[at];
    }
  }

  /** A list with no Unknown entry is copied unchanged. */
  lemma {:induction false} SplicedNoUnknown(c: CombinedList, n: nat)
    requires Parallel(c) && n <= |c.intervals|
    requires forall i :: 0 <= i < n ==> c.types[i] != Unknown
    ensures UnknownCount(c, n) == 0
    ensures Spliced(c, [], n) == c.intervals[..n]
  {
    if n > 0 {
      SplicedNoUnknown(c, n - 1);
      assert c.intervals[..n] == c.intervals[..n - 1] + [c.intervals[n - 1]];
    }
  }

  /**
   * When each section adds up to the Unknown length it replaces, the spliced
   * list adds up to the same total as the original.
   */
  lemma {:induction false} SplicedSum(c: CombinedList, fixed: seq<seq<nat>>, n: nat)
    requires Parallel(c) && n <= |c.intervals|
    requires UnknownCount(c, n) <= |fixed|
    requires forall k :: 0 <= k < UnknownCount(c, n) ==> Sum(fixed[k]) == UnknownLengths(c, 0, n)[k]
    ensures Sum(Spliced(c, fixed, n)) == Sum(c.intervals[..n])
  {
    if n > 0 {
      UnknownCountGrows(c, n - 1, n);
      var before := UnknownLengths(c, 0, n - 1);
      assert forall k :: 0 <= k < |before| ==> UnknownLengths(c, 0, n)[k] == before[k];
      SplicedSum(c, fixed, n - 1);
      SplicedSumStep(c, fixed, n);
      PrefixSumStep(c.intervals, n);
    }
  }

  lemma SplicedSumStep(c: CombinedList, fixed: seq<seq<nat>>, n: nat)
    requires Parallel(c) && 0 < n <= |c.intervals|
    requires UnknownCount(c, n) <= |fixed|
    requires c.types[n - 1] == Unknown ==> Sum(fixed[UnknownCount(c, n - 1)]) == c.intervals[n - 1]
    ensures UnknownCount(c, n - 1) <= |fixed|
    ensures Sum(Spliced(c, fixed, n)) == Sum(Spliced(c, fixed, n - 1)) + c.intervals[n - 1]
  {
    UnknownCountGrows(c, n - 1, n);
    var piece := if c.types[n - 1] == Unknown then fixed[UnknownCount(c, n - 1)] else [c.intervals[n - 1]];
    SumConcat(Spliced(c, fixed, n - 1), piece);
    SumSingleton(c.intervals[n - 1]);
  }

  lemma PrefixSumStep(s: seq<nat>, n: nat)
    requires 0 < n <= |s|
    ensures Sum(s[..n]) == Sum(s[..n - 1]) + s[n - 1]
  {
    assert s[..n] == s[..n - 1] + [s[n - 1]];
    SumConcat(s[..n - 1], [s[n - 1]]);
    SumSingleton(s[n - 1]);
  }

  /** Alternating labels are never Unknown, start with `first` and differ from their neighbours. */
  lemma AlternatingShape(n: nat, first: Label)
    requires first != Unknown
    ensures var r := Alternating(n, first);
      && (forall i :: 0 <= i < n ==> r[i] != Unknown)
      && (n > 0 ==> r[0] == first)
      && (forall i :: 0 <= i < n - 1 ==> r[i] != r[i + 1])
  {
    var r := Alternating(n, first);
    forall i | 0 <= i < n
      ensures r[i] != Unknown
    {
      AlternatingAt(n, first, i);
    }
    forall i | 0 <= i < n - 1
      ensures r[i] != r[i + 1]
    {
      AlternatingAt(n, first, i);
      AlternatingAt(n, first, i + 1);
    }
  }

  /**
   * The label of the last element of the first section is Grid: the start
   * label is chosen from the parity of that section's length.
   */
  lemma FirstSectionEndsOnGrid(n: nat, firstLength: nat)
    requires 1 <= firstLength <= n
    ensures Alternating(n, StartLabel(firstLength % 2 == 1))[firstLength - 1] == Grid
  {
    AlternatingAt(n, StartLabel(firstLength % 2 == 1), firstLength - 1);
  }

  /**
   * With one section per Unknown entry, reassembly succeeds. The intervals are
   * the spliced list, whose length is the computed total, and the labels
   * alternate with no Unknown, starting with Grid exactly when the first section
   * has odd length.
   */
  lemma ReassembledShape(c: CombinedList, fixed: seq<seq<nat>>)
    requires Parallel(c)
    requires UnknownCount(c, |c.intervals|) == |fixed| >= 1
    ensures Reassembled(c, fixed).Ok?
    ensures var r := Reassembled(c, fixed).value;
      && Parallel(r)
      && r.intervals == Spliced(c, fixed, |c.intervals|)
      && |r.intervals| == |c.intervals| - |fixed| + ElementCount(fixed)
      && (forall i :: 0 <= i < |r.types| ==> r.types[i] != Unknown)
      && (forall i :: 0 <= i < |r.types| - 1 ==> r.types[i] != r.types[i + 1])
      && (|r.types| > 0 ==> (r.types[0] == Grid <==> |fixed[0]| % 2 == 1))
  {
    TotalLengthExact(c, fixed);
    var w := Spliced(c, fixed, |c.intervals|);
    AlternatingShape(|w|, StartLabel(|fixed[0]| % 2 == 1));
  }

  /** Reassembly panics when an Unknown entry has no section, or when there is no section at all. */
  lemma ReassembledFails(c: CombinedList, fixed: seq<seq<nat>>)
    requires Parallel(c)
    requires UnknownCount(c, |c.intervals|) > |fixed| || |fixed| == 0
    ensures Reassembled(c, fixed).Panic?
  {
  }

  lemma SplicedExample(c: CombinedList, fixed: seq<seq<nat>>)
    requires c == CombinedList([5, 4, 1, 4, 5], [Unknown, Pixel, Grid, Pixel, Unknown])
    requires fixed == [[4, 1], [1, 4]]
    ensures UnknownCount(c, 5) == 2
    ensures Spliced(c, fixed, 5) == [4, 1, 4, 1, 4, 1, 4]
  {
    assert UnknownLengths(c, 0, 1) == [5];
    assert UnknownLengths(c, 0, 2) == [5];
    assert UnknownLengths(c, 0, 3) == [5];
    assert UnknownLengths(c, 0, 4) == [5];
    assert UnknownLengths(c, 0, 5) == [5, 5];
    assert Spliced(c, fixed, 1) == [4, 1];
    assert Spliced(c, fixed, 2) == [4, 1, 4];
    assert Spliced(c, fixed, 3) == [4, 1, 4, 1];
    assert Spliced(c, fixed, 4) == [4, 1, 4, 1, 4];
  }

  /** A left edge of 5, three correct entries and a right edge of 5. */
  lemma ReassembledExample()
    ensures Reassembled(CombinedList([5, 4, 1, 4, 5], [Unknown, Pixel, Grid, Pixel, Unknown]), [[4, 1], [1, 4]])
         == Ok(CombinedList([4, 1, 4, 1, 4, 1, 4], [Pixel, Grid, Pixel, Grid, Pixel, Grid, Pixel]))
  {
    var c := CombinedList([5, 4, 1, 4, 5], [Unknown, Pixel, Grid, Pixel, Unknown]);
    var fixed: seq<seq<nat>> := [[4, 1], [1, 4]];
    SplicedExample(c, fixed);
    TotalLengthExact(c, fixed);
    assert Alternating(7, Pixel) == [Pixel, Grid, Pixel, Grid, Pixel, Grid, Pixel];
  }
}
