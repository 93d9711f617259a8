/**
 * The generic in-place slice utilities (common/slices.go). A Go slice is an
 * array here; the functions that take two slices are documented as undefined
 * for overlapping memory, so their two arrays are required to be distinct.
 * Runtime panics are returned as a Status, with the writes that happened
 * before the panic kept.
 */
module Slices {
  import opened Wrappers
  import opened Seqs

  /** MemCopy: copies `from` into the front of `to`; a longer `from` panics once `to` is full. */
  method MemCopy<T>(to: array<T>, from: array<T>) returns (s: Status)
    requires to != from
    modifies to
    ensures from.Length <= to.Length ==> s == Completed
    ensures from.Length > to.Length ==> s == Panicked("index out of range")
    ensures forall i :: 0 <= i < to.Length ==> to[i] == if i < from.Length then from[i] else old(to[i])
  {
    for i := 0 to from.Length
      invariant i <= to.Length
      invariant forall k :: 0 <= k < to.Length ==> to[k] == if k < i then from[k] else old(to[k])
    {
      if i >= to.Length {
        return Panicked("index out of range");
      }
      to[i] := from[i];
    }
    return Completed;
  }

  /** MemSet: every element becomes val. */
  method MemSet<T>(a: array<T>, val: T)
    modifies a
    ensures forall i :: 0 <= i < a.Length ==> a[i] == val
  {
    for i := 0 to a.Length
      invariant forall k :: 0 <= k < i ==> a[k] == val
    {
      a[i] := val;
    }
  }

  /**
   * MemRepeat: the target is filled with the sequence repeated from its start.
   * An empty sequence makes `i % len(sequence)` divide by zero, unless the
   * target is empty and the loop body never runs.
   */
  method MemRepeat<T>(target: array<T>, sequence: array<T>) returns (s: Status)
    requires target != sequence
    modifies target
    ensures sequence.Length == 0 && target.Length > 0 ==> s == Panicked("integer divide by zero") && target[..] == old(target[..])
    ensures sequence.Length > 0 || target.Length == 0 ==> s == Completed
    ensures s == Completed ==> forall i :: 0 <= i < target.Length ==> target[i] == sequence[i % sequence.Length]
  {
    for i := 0 to target.Length
      invariant sequence.Length == 0 ==> i == 0 && target[..] == old(target[..])
      invariant forall k :: 0 <= k < i ==> target[k] == sequence[k % sequence.Length]
    {
      if sequence.Length == 0 {
        return Panicked("integer divide by zero");
      }
      target[i] := sequence[i % sequence.Length];
    }
    return Completed;
  }

  /**
   * MemSwap: exchanges left[i] and right[i] for every index of left; a shorter
   * right panics after the indexes both share have been exchanged.
   */
  method MemSwap<T>(left: array<T>, right: array<T>) returns (s: Status)
    requires left != right
    modifies left, right
    ensures left.Length <= right.Length ==> s == Completed
    ensures left.Length > right.Length ==> s == Panicked("index out of range")
    ensures forall i :: 0 <= i < left.Length ==> left[i] == if i < right.Length then old(right[i]) else old(left[i])
    ensures forall i :: 0 <= i < right.Length ==> right[i] == if i < left.Length then old(left[i]) else old(right[i])
  {
    for i := 0 to left.Length
      invariant i <= right.Length
      invariant forall k :: 0 <= k < left.Length ==> left[k] == if k < i then old(right[k]) else old(left[k])
      invariant forall k :: 0 <= k < right.Length ==> right[k] == if k < i then old(left[k]) else old(right[k])
    {
      if i >= right.Length {
        return Panicked("index out of range");
      }
      left[i], right[i] := right[i], left[i];
    }
    return Completed;
  }

  /** MemReverse: the slice is reversed in place by swapping mirrored pairs. */
  method MemReverse<T>(a: array<T>)
    modifies a
    ensures a[..] == Reversed(old(a[..]))
  {
    var count := a.Length;
    for i := 0 to count / 2
      invariant forall k :: 0 <= k < i ==> a[k] == old(a[count - 1 - k]) && a[count - 1 - k] == old(a[k])
      invariant forall k :: i <= k < count - i ==> a[k] == old(a[k])
    {
      a[i], a[count - 1 - i] := a[count - 1 - i], a[i];
    }
    assert forall k :: 0 <= k < count ==> a[k] == old(a[count - 1 - k]);
  }

  // ---------------------------------------------------------------------
  // Reversal in batches

  /**
   * The batches of s, each of b elements, in reverse order; the order inside
   * a batch is kept. A final part shorter than b stays whole.
   */
  function BatchReversed<T>(s: seq<T>, b: nat): (r: seq<T>)
    requires b > 0
    ensures |r| == |s|
    decreases |s|
  {
    if |s| <= b then s else BatchReversed(s[b..], b) + s[..b]
  }

  /** x is a whole number of batches of b. */
  predicate Multiple(x: nat, b: nat)
    requires b > 0
    decreases x
  {
    x == 0 || (x >= b && Multiple(x - b, b))
  }

  lemma {:induction false} MultipleOf(k: nat, b: nat)
    requires b > 0
    ensures Multiple(k * b, b)
  {
    if k > 0 {
      assert k * b - b == (k - 1) * b;
      MultipleOf(k - 1, b);
    }
  }

  /** Reversing the batches of a concatenation reverses the order of its two parts. */
  lemma {:induction false} BatchReversedConcat<T>(s: seq<T>, t: seq<T>, b: nat)
    requires b > 0 && Multiple(|s|, b)
    ensures BatchReversed(s + t, b) == BatchReversed(t, b) + BatchReversed(s, b)
    decreases |s|
  {
    if |s| == 0 {
      assert s + t == t;
    } else if |t| == 0 {
      assert s + t == s;
    } else {
      assert (s + t)[b..] == s[b..] + t;
      assert (s + t)[..b] == s[..b];
      BatchReversedConcat(s[b..], t, b);
      if |s| == b {
        assert s[b..] == [] && s[..b] == s;
        assert s[b..] + t == t;
      }
    }
  }

  /** Batches of a single element: reversal in batches is plain reversal. */
  lemma {:induction false} BatchOfOneReverses<T>(s: seq<T>)
    ensures BatchReversed(s, 1) == Reversed(s)
    decreases |s|
  {
    if |s| > 1 {
      BatchOfOneReverses(s[1..]);
      assert Reversed(s) == Reversed(s[1..]) + [s[0]];
    }
  }

  /** One batch covering the whole slice: nothing moves. */
  lemma WholeBatchKeeps<T>(s: seq<T>)
    requires |s| > 0
    ensures BatchReversed(s, |s|) == s
  {
  }

  /** Reversing the batches twice gives back the original. */
  lemma {:induction false} BatchReversedTwice<T>(s: seq<T>, b: nat)
    requires b > 0 && Multiple(|s|, b)
    ensures BatchReversed(BatchReversed(s, b), b) == s
    decreases |s|
  {
    if |s| > b {
      BatchReversedTwice(s[b..], b);
      assert Multiple(b, b) by {
        assert Multiple(b - b, b);
      }
      BatchReversedConcat(BatchReversed(s[b..], b), s[..b], b);
      assert s[..b] + s[b..] == s;
    }
  }

  lemma {:induction false} MultipleDiff(x: nat, y: nat, b: nat)
    requires b > 0 && Multiple(x, b) && Multiple(y, b) && y <= x
    ensures Multiple(x - y, b)
    decreases y
  {
    if y > 0 {
      MultipleDiff(x - b, y - b, b);
      assert x - b - (y - b) == x - y;
    }
  }

  lemma {:induction false} MultipleStep(x: nat, y: nat, b: nat)
    requires b > 0 && Multiple(x, b) && Multiple(y, b) && x < y
    ensures x + b <= y && Multiple(x + b, b)
    decreases x
  {
    if x > 0 {
      MultipleStep(x - b, y - b, b);
    } else {
      assert Multiple(b - b, b);
    }
  }

  /**
   * Where each element of a reversal in batches comes from: element j of the
   * batch at offset f is element j of the batch at the mirrored offset.
   */
  lemma {:induction false} BatchReversedAt<T>(s: seq<T>, b: nat, f: nat, j: nat)
    requires b > 0 && Multiple(|s|, b) && Multiple(f, b) && f + b <= |s| && j < b
    ensures BatchReversed(s, b)[f + j] == s[|s| - f - b + j]
    decreases |s|
  {
    if f + b < |s| {
      MultipleStep(f + b, |s|, b) by {
        MultipleStep(f, |s|, b);
      }
      assert |s| > b;
      assert Multiple(|s| - b, b);
      BatchReversedAt(s[b..], b, f, j);
    } else {
      if |s| > b {
        assert |BatchReversed(s[b..], b)| == f;
      }
    }
  }

  /** The batches at offsets front and back mirror each other in the reversal. */
  lemma MirroredPair<T>(orig: seq<T>, b: nat, front: nat, back: nat)
    requires b > 0 && Multiple(|orig|, b) && Multiple(front, b) && Multiple(back, b)
    requires back == |orig| - b - front && front + b <= back
    ensures forall k | front <= k < front + b :: BatchReversed(orig, b)[k] == orig[k - front + back]
    ensures forall k | back <= k < back + b :: BatchReversed(orig, b)[k] == orig[k - back + front]
  {
    forall k | front <= k < front + b
      ensures BatchReversed(orig, b)[k] == orig[k - front + back]
    {
      BatchReversedAt(orig, b, front, k - front);
    }
    forall k | back <= k < back + b
      ensures BatchReversed(orig, b)[k] == orig[k - back + front]
    {
      BatchReversedAt(orig, b, back, k - back);
    }
  }

  /** With an odd number of batches the middle one stays where it is. */
  lemma MiddleKept<T>(orig: seq<T>, b: nat, half: nat)
    requires b > 0 && Multiple(|orig|, b) && Multiple(half, b)
    requires |orig| == 2 * half || |orig| == 2 * half + b
    ensures forall k | half <= k < |orig| - half :: BatchReversed(orig, b)[k] == orig[k]
  {
    forall k | half <= k < |orig| - half
      ensures BatchReversed(orig, b)[k] == orig[k]
    {
      BatchReversedAt(orig, b, half, k - half);
    }
  }

  /**
   * MemSwap applied to two non-overlapping windows a[x..x+len] and a[y..y+len]
   * of one slice, as MemReverseExtended does.
   */
  method SwapWindows<T>(a: array<T>, x: nat, y: nat, len: nat)
    requires x + len <= y && y + len <= a.Length
    modifies a
    ensures forall k :: 0 <= k < a.Length ==>
      a[k] == if x <= k < x + len then old(a[k - x + y]) else if y <= k < y + len then old(a[k - y + x]) else old(a[k])
  {
    for i := 0 to len
      invariant forall k :: 0 <= k < a.Length ==>
        a[k] == if x <= k < x + i then old(a[k - x + y]) else if y <= k < y + i then old(a[k - y + x]) else old(a[k])
    {
      a[x + i], a[y + i] := a[y + i], a[x + i];
    }
  }

  /**
   * MemReverseExtended: the batches of batchSize elements are put in reverse
   * order by swapping mirrored batches. The divisibility test comes first, so
   * a batch size of 0 divides by zero; Go's `%` gives `len % b` the sign of
   * len, which is never negative, so only the magnitude of b matters there.
   */
  method MemReverseExtended<T>(a: array<T>, batchSize: int) returns (s: Status)
    modifies a
    ensures batchSize == 0 ==> s == Panicked("integer divide by zero")
    ensures batchSize != 0 && a.Length % Abs(batchSize) != 0 ==>
      s == Panicked("Slice length not divisible by batch size")
    ensures batchSize != 0 && a.Length % Abs(batchSize) == 0 && (batchSize > a.Length || batchSize < 1) ==>
      s == Panicked("Batch size not in range. Required: (0 < batch_size <= len(slice))")
    ensures s != Completed ==> a[..] == old(a[..])
    ensures s == Completed <==> 0 < batchSize <= a.Length && a.Length % batchSize == 0
    ensures s == Completed ==> a[..] == BatchReversed(old(a[..]), batchSize)
  {
    if batchSize == 0 {
      return Panicked("integer divide by zero");
    }
    if a.Length % Abs(batchSize) != 0 {
      return Panicked("Slice length not divisible by batch size");
    }
    if batchSize > a.Length || batchSize < 1 {
      return Panicked("Batch size not in range. Required: (0 < batch_size <= len(slice))");
    }
    var b: nat := batchSize;
    var items := a.Length / b;
    assert a.Length == items * b;
    MultipleOf(items, b);
    MultipleOf(items / 2, b);
    EndBound(items, b);
    SwapMirroredBatches(a, b, (items / 2) * b);
    return Completed;
  }

  /**
   * The loop of MemReverseExtended: batch i, at offset i * b, is exchanged
   * with its mirror for every i below half the number of batches. The loop
   * runs over the offsets, which are the multiples of b below `half`.
   */
  method SwapMirroredBatches<T>(a: array<T>, b: nat, half: nat)
    requires b > 0 && Multiple(a.Length, b) && Multiple(half, b)
    requires a.Length == 2 * half || a.Length == 2 * half + b
    modifies a
    ensures a[..] == BatchReversed(old(a[..]), b)
  {
    var total := a.Length;
    ghost var orig := a[..];
    ghost var r := BatchReversed(orig, b);
    var front := 0;
    while front < half
      invariant Multiple(front, b) && front <= half
      invariant forall k :: 0 <= k < total ==> a[k] == if k < front || k >= total - front then r[k] else orig[k]
    {
      MultipleStep(front, half, b);
      var back := total - b - front;
      MultipleDiff(total - front, b, b) by {
        MultipleDiff(total, front, b);
        assert Multiple(b - b, b);
      }
      MirroredPair(orig, b, front, back);
      SwapWindows(a, front, back, b);
      front := front + b;
    }
    MiddleKept(orig, b, half);
    assert a[..] == r;
  }

  lemma EndBound(items: nat, b: nat)
    ensures items * b == 2 * ((items / 2) * b) || items * b == 2 * ((items / 2) * b) + b
  {
    var h := items / 2;
    if items % 2 == 0 {
      assert items == 2 * h;
    } else {
      assert items == 2 * h + 1;
    }
  }

  function Abs(x: int): nat
  {
    if x < 0 then -x else x
  }
}
