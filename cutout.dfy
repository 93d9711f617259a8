/**
 * Positions along one axis covered by the intervals of a labelled list that
 * carry a given label: the rows or columns the cutout visualisation paints.
 */
module Cutout {
  import opened Seqs
  import opened Intervals

  /** The positions start, start + 1, ..., start + len - 1. */
  function Run(start: int, len: nat): (r: seq<int>)
    ensures |r| == len
    ensures forall k | 0 <= k < len :: r[k] == start + k
  {
    seq(len, k requires 0 <= k < len => start + k)
  }

  /**
   * What one interval contributes: its positions when it has the label, and,
   * in the variant with zeros, its start position when it has the label and
   * is empty.
   */
  function Emit(start: int, len: nat, labelled: bool, withZeros: bool): seq<int>
  {
    if !labelled then []
    else if withZeros && len == 0 then [start]
    else Run(start, len)
  }

  /** The positions of the labelled intervals, interval by interval from the start of the axis. */
  function LabelIndexes(ivs: seq<nat>, tys: seq<Label>, t: Label, withZeros: bool): seq<int>
    requires |ivs| == |tys|
    decreases |ivs|
  {
    if |ivs| == 0 then []
    else
      var n := |ivs| - 1;
      LabelIndexes(ivs[..n], tys[..n], t, withZeros) + Emit(Sum(ivs[..n]), ivs[n], tys[n] == t, withZeros)
  }

  /** Position o lies inside an interval that carries label t. */
  ghost predicate Inside(ivs: seq<nat>, tys: seq<Label>, t: Label, o: int)
    requires |ivs| == |tys|
  {
    exists i | 0 <= i < |ivs| :: tys[i] == t && Sum(ivs[..i]) <= o < Sum(ivs[..i]) + ivs[i]
  }

  /** Position o is the start of an empty interval that carries label t. */
  ghost predicate EmptyAt(ivs: seq<nat>, tys: seq<Label>, t: Label, o: int)
    requires |ivs| == |tys|
  {
    exists i | 0 <= i < |ivs| :: tys[i] == t && ivs[i] == 0 && Sum(ivs[..i]) == o
  }

  /** The total length of the intervals carrying label t. */
  function LabelledLength(ivs: seq<nat>, tys: seq<Label>, t: Label): nat
    requires |ivs| == |tys|
    decreases |ivs|
  {
    if |ivs| == 0 then 0
    else
      var n := |ivs| - 1;
      LabelledLength(ivs[..n], tys[..n], t) + (if tys[n] == t then ivs[n] else 0)
  }

  /** The number of empty intervals carrying label t. */
  function EmptyCount(ivs: seq<nat>, tys: seq<Label>, t: Label): nat
    requires |ivs| == |tys|
    decreases |ivs|
  {
    if |ivs| == 0 then 0
    else
      var n := |ivs| - 1;
      EmptyCount(ivs[..n], tys[..n], t) + (if tys[n] == t && ivs[n] == 0 then 1 else 0)
  }

  lemma {:induction false} SumNat(ivs: seq<nat>)
    ensures Sum(ivs) >= 0
    decreases |ivs|
  {
    if |ivs| > 0 {
      SumNat(ivs[..|ivs| - 1]);
    }
  }

  /** Every position lies in [lo, hi], and below hi when strict. */
  predicate Within(r: seq<int>, lo: int, hi: int, strict: bool)
  {
    forall k | 0 <= k < |r| :: lo <= r[k] <= hi && (strict ==> r[k] < hi)
  }

  /** The positions never decrease, and strictly increase when strict. */
  predicate Ascending(r: seq<int>, strict: bool)
  {
    forall k, l | 0 <= k < l < |r| :: r[k] <= r[l] && (strict ==> r[k] < r[l])
  }

  /** What one interval contributes lies in [start, start + len], below start + len without zeros, in increasing order. */
  lemma EmitBounds(start: int, len: nat, labelled: bool, withZeros: bool)
    ensures Within(Emit(start, len, labelled, withZeros), start, start + len, !withZeros)
    ensures Ascending(Emit(start, len, labelled, withZeros), true)
  {
  }

  /** Without zeros a position is contributed by an interval exactly when it lies inside it and the interval has the label. */
  lemma EmitMember(start: int, len: nat, labelled: bool, o: int)
    ensures o in Emit(start, len, labelled, false) <==> labelled && start <= o < start + len
  {
    if labelled && start <= o < start + len {
      assert Run(start, len)[o - start] == o;
    }
  }

  /**
   * Without zeros the positions strictly increase and stay below the length
   * of the axis; with zeros they never decrease and stay at most that length.
   */
  lemma {:induction false} LabelIndexesBounds(ivs: seq<nat>, tys: seq<Label>, t: Label, withZeros: bool)
    requires |ivs| == |tys|
    ensures Within(LabelIndexes(ivs, tys, t, withZeros), 0, Sum(ivs), !withZeros)
    ensures Ascending(LabelIndexes(ivs, tys, t, withZeros), !withZeros)
    decreases |ivs|
  {
    if |ivs| > 0 {
      var n := |ivs| - 1;
      var start := Sum(ivs[..n]);
      LabelIndexesBounds(ivs[..n], tys[..n], t, withZeros);
      SumNat(ivs[..n]);
      EmitBounds(start, ivs[n], tys[n] == t, withZeros);
      var a := LabelIndexes(ivs[..n], tys[..n], t, withZeros);
      var e := Emit(start, ivs[n], tys[n] == t, withZeros);
      var r := a + e;
      assert r == LabelIndexes(ivs, tys, t, withZeros);
      assert Sum(ivs) == start + ivs[n];
      forall k, l | 0 <= k < l < |r|
        ensures r[k] <= r[l] && (!withZeros ==> r[k] < r[l])
      {
        if l < |a| {
          assert r[k] == a[k] && r[l] == a[l];
        } else if k < |a| {
          assert r[k] == a[k] && r[l] == e[l - |a|];
        } else {
          assert r[k] == e[k - |a|] && r[l] == e[l - |a|];
        }
      }
      forall k | 0 <= k < |r|
        ensures 0 <= r[k] <= Sum(ivs) && (!withZeros ==> r[k] < Sum(ivs))
      {
        if k >= |a| {
          assert r[k] == e[k - |a|];
        } else {
          assert r[k] == a[k];
        }
      }
    }
  }

  /** Without zeros a position is listed exactly when it lies inside an interval with the label. */
  lemma {:induction false} LabelIndexesInside(ivs: seq<nat>, tys: seq<Label>, t: Label, o: int)
    requires |ivs| == |tys|
    ensures o in LabelIndexes(ivs, tys, t, false) <==> Inside(ivs, tys, t, o)
    decreases |ivs|
  {
    if |ivs| > 0 {
      var n := |ivs| - 1;
      var ivs', tys' := ivs[..n], tys[..n];
      var start := Sum(ivs');
      LabelIndexesInside(ivs', tys', t, o);
      EmitMember(start, ivs[n], tys[n] == t, o);
      assert LabelIndexes(ivs, tys, t, false) == LabelIndexes(ivs', tys', t, false) + Emit(start, ivs[n], tys[n] == t, false);
      if Inside(ivs, tys, t, o) {
        var i :| 0 <= i < |ivs| && tys[i] == t && Sum(ivs[..i]) <= o < Sum(ivs[..i]) + ivs[i];
        if i < n {
          assert ivs'[..i] == ivs[..i];
          assert tys'[i] == t && Sum(ivs'[..i]) <= o < Sum(ivs'[..i]) + ivs'[i];
        }
      }
      if Inside(ivs', tys', t, o) {
        var i :| 0 <= i < n && tys'[i] == t && Sum(ivs'[..i]) <= o < Sum(ivs'[..i]) + ivs'[i];
        assert ivs'[..i] == ivs[..i];
        assert tys[i] == t && Sum(ivs[..i]) <= o < Sum(ivs[..i]) + ivs[i];
      }
      if tys[n] == t && start <= o < start + ivs[n] {
        assert tys[n] == t && Sum(ivs[..n]) <= o < Sum(ivs[..n]) + ivs[n];
      }
    }
  }

  /** Without zeros the number of positions is the total length of the labelled intervals. */
  lemma {:induction false} LabelIndexesLength(ivs: seq<nat>, tys: seq<Label>, t: Label)
    requires |ivs| == |tys|
    ensures |LabelIndexes(ivs, tys, t, false)| == LabelledLength(ivs, tys, t)
    decreases |ivs|
  {
    if |ivs| > 0 {
      LabelIndexesLength(ivs[..|ivs| - 1], tys[..|ivs| - 1], t);
    }
  }

  /** The variant with zeros lists one more position for each empty labelled interval. */
  lemma {:induction false} WithZerosLength(ivs: seq<nat>, tys: seq<Label>, t: Label)
    requires |ivs| == |tys|
    ensures |LabelIndexes(ivs, tys, t, true)| == |LabelIndexes(ivs, tys, t, false)| + EmptyCount(ivs, tys, t)
    decreases |ivs|
  {
    if |ivs| > 0 {
      WithZerosLength(ivs[..|ivs| - 1], tys[..|ivs| - 1], t);
    }
  }

  /** EmptyAt over a list is EmptyAt over all but its last interval, or that interval. */
  lemma EmptyAtLast(ivs: seq<nat>, tys: seq<Label>, t: Label, o: int)
    requires |ivs| == |tys| && |ivs| > 0
    ensures var n := |ivs| - 1;
      EmptyAt(ivs, tys, t, o) <==>
        EmptyAt(ivs[..n], tys[..n], t, o) || (tys[n] == t && ivs[n] == 0 && Sum(ivs[..n]) == o)
  {
    var n := |ivs| - 1;
    var ivs', tys' := ivs[..n], tys[..n];
    if EmptyAt(ivs, tys, t, o) {
      var i :| 0 <= i < |ivs| && tys[i] == t && ivs[i] == 0 && Sum(ivs[..i]) == o;
      if i < n {
        assert ivs'[..i] == ivs[..i];
        assert tys'[i] == t && ivs'[i] == 0 && Sum(ivs'[..i]) == o;
      }
    }
    if EmptyAt(ivs', tys', t, o) {
      var i :| 0 <= i < n && tys'[i] == t && ivs'[i] == 0 && Sum(ivs'[..i]) == o;
      assert ivs'[..i] == ivs[..i];
      assert tys[i] == t && ivs[i] == 0 && Sum(ivs[..i]) == o;
    }
    if tys[n] == t && ivs[n] == 0 && Sum(ivs[..n]) == o {
      assert tys[n] == t && ivs[n] == 0 && Sum(ivs[..n]) == o;
    }
  }

  /** One interval with zeros emits what it emits without, plus its start when it is empty and labelled. */
  lemma EmitWithZeros(start: int, len: nat, labelled: bool, o: int)
    ensures o in Emit(start, len, labelled, true) <==>
      o in Emit(start, len, labelled, false) || (labelled && len == 0 && o == start)
  {
  }

  /** The extra positions of the variant with zeros are the starts of the empty labelled intervals. */
  lemma {:induction false} WithZerosMembers(ivs: seq<nat>, tys: seq<Label>, t: Label, o: int)
    requires |ivs| == |tys|
    ensures o in LabelIndexes(ivs, tys, t, true) <==> o in LabelIndexes(ivs, tys, t, false) || EmptyAt(ivs, tys, t, o)
    decreases |ivs|
  {
    if |ivs| > 0 {
      var n := |ivs| - 1;
      WithZerosMembers(ivs[..n], tys[..n], t, o);
      EmptyAtLast(ivs, tys, t, o);
      EmitWithZeros(Sum(ivs[..n]), ivs[n], tys[n] == t, o);
    }
  }

  /** Each interval's share: the loop over its length appends Emit's positions. */
  method EmitInterval(result: seq<int>, currentIndex: int, size: nat, labelled: bool, withZeros: bool)
    returns (r: seq<int>, next: int)
    ensures r == result + Emit(currentIndex, size, labelled, withZeros)
    ensures next == currentIndex + size
  {
    r := result;
    if withZeros && size == 0 && labelled {
      r := r + [currentIndex];
    }
    ghost var base := r;
    next := currentIndex;
    for j := 0 to size
      invariant next == currentIndex + j
      invariant r == base + (if labelled then Run(currentIndex, j) else [])
    {
      if labelled {
        assert Run(currentIndex, j + 1) == Run(currentIndex, j) + [next];
        r := r + [next];
      }
      next := next + 1;
    }
  }

  /** The scan of getIndexesOf*: one running offset, appending the positions of the labelled intervals. */
  method IndexesOfLabel(c: CombinedList, t: Label, withZeros: bool) returns (result: seq<int>)
    requires Parallel(c)
    ensures result == LabelIndexes(c.intervals, c.types, t, withZeros)
  {
    var currentIndex := 0;
    result := [];
    for i := 0 to |c.types|
      invariant currentIndex == Sum(c.intervals[..i])
      invariant result == LabelIndexes(c.intervals[..i], c.types[..i], t, withZeros)
    {
      var intervalType := c.types[i];
      var intervalSize := c.intervals[i];
      result, currentIndex := EmitInterval(result, currentIndex, intervalSize, intervalType == t, withZeros);
      assert c.intervals[..i + 1][..i] == c.intervals[..i];
      assert c.types[..i + 1][..i] == c.types[..i];
    }
    assert c.intervals[..|c.types|] == c.intervals;
    assert c.types[..|c.types|] == c.types;
  }

  /** getIndexesOfUnknowns: every position inside an Unknown interval, in increasing order. */
  method GetIndexesOfUnknowns(c: CombinedList) returns (result: seq<int>)
    requires Parallel(c)
    ensures result == LabelIndexes(c.intervals, c.types, Unknown, false)
  {
    result := IndexesOfLabel(c, Unknown, false);
  }

  /** getIndexesOfGrid: every position inside a Grid interval, in increasing order. */
  method GetIndexesOfGrid(c: CombinedList) returns (result: seq<int>)
    requires Parallel(c)
    ensures result == LabelIndexes(c.intervals, c.types, Grid, false)
  {
    result := IndexesOfLabel(c, Grid, false);
  }

  /** getIndexesOfUnknownsWithZeros: as getIndexesOfUnknowns, plus the start of each empty Unknown interval. */
  method GetIndexesOfUnknownsWithZeros(c: CombinedList) returns (result: seq<int>)
    requires Parallel(c)
    ensures result == LabelIndexes(c.intervals, c.types, Unknown, true)
  {
    result := IndexesOfLabel(c, Unknown, true);
  }

  /** getIndexesOfGridWithZeros: as getIndexesOfGrid, plus the start of each empty Grid interval. */
  method GetIndexesOfGridWithZeros(c: CombinedList) returns (result: seq<int>)
    requires Parallel(c)
    ensures result == LabelIndexes(c.intervals, c.types, Grid, true)
  {
    result := IndexesOfLabel(c, Grid, true);
  }
}
