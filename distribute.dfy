/**
 * The balanced integer partition used to size the pixel segments of a
 * reconstructed run: items are spread over buckets by walking a Bresenham
 * line from (0, 0) to (remainder + buckets - 1, buckets - 1) and adding one
 * item to the bucket of every y-value it visits.
 */
module Distribute {
  import opened GoNum
  import opened Seqs

  function Abs(x: int): nat
  {
    if x < 0 then -x else x
  }

  /** The direction a coordinate moves in to approach `b` from `a`. */
  function Toward(a: int, b: int): int
  {
    if a < b then 1 else -1
  }

  /**
   * The closed form of Bresenham's minor coordinate: after k major steps on
   * a line of major extent d and minor extent e, the minor coordinate has
   * moved by k*e/d rounded to the nearest integer, halves rounded down.
   */
  function Rise(d: nat, e: nat, k: nat): nat
  {
    if d == 0 then 0 else (2 * e * k + d - 1) / (2 * d)
  }

  /** The minor coordinates of a line that moves d steps along its major axis. */
  function Line(d: nat, e: nat, a: int, b: int): (ys: seq<int>)
    ensures |ys| == d + 1
  {
    seq(d + 1, k requires 0 <= k <= d => a + Toward(a, b) * Rise(d, e, k))
  }

  /**
   * The y-values (x-values for a steep line) produced by `bresenhamLine`.
   * The source compares the float quotient dy/dx with 1; for dx = 0 that
   * quotient is +Inf when dy > 0 and NaN when dy = 0, so in every case the
   * comparison holds exactly when dy > dx.
   */
  function BresenhamPoints(x1: int, y1: int, x2: int, y2: int): seq<int>
  {
    var dx := Abs(x2 - x1);
    var dy := Abs(y2 - y1);
    if dy > dx then Line(dy, dx, x1, x2) else Line(dx, dy, y1, y2)
  }

  /** Euclidean division is pinned down by its bounds. */
  lemma DivUnique(n: int, m: int, q: int)
    requires m > 0 && m * q <= n < m * q + m
    ensures n / m == q
  {
    var q' := n / m;
    assert n == m * q' + n % m;
    if q' > q {
      assert m * q' >= m * (q + 1) by { MulLeftMonotone(m, q + 1, q'); }
    } else if q' < q {
      assert m * q >= m * (q' + 1) by { MulLeftMonotone(m, q' + 1, q); }
    }
  }

  lemma MulLeftMonotone(m: int, a: int, b: int)
    requires m >= 0 && a <= b
    ensures m * a <= m * b
  {
    assert m * b - m * a == m * (b - a);
  }

  /** The decision variable `p` of the source's loop after k steps. */
  function Decision(d: nat, e: nat, k: nat): int
  {
    2 * e * (k + 1) - d - 2 * d * Rise(d, e, k)
  }

  /** A positive factor cancels from a strict inequality. */
  lemma MulCancel(m: int, a: int, b: int)
    requires m > 0 && m * a < m * b
    ensures a < b
  {
    assert m * b - m * a == m * (b - a);
  }

  /** A multiple of m at most n bounds the quotient n / m from below. */
  lemma DivLower(n: int, m: int, q: int)
    requires m > 0 && m * q <= n
    ensures q <= n / m
  {
    var q' := n / m;
    assert n == m * q' + n % m;
    assert m * (q' + 1) == m * q' + m;
    MulCancel(m, q, q' + 1);
  }

  /** A multiple of m above n bounds the quotient n / m from above. */
  lemma DivUpper(n: int, m: int, q: int)
    requires m > 0 && n < m * (q + 1)
    ensures n / m <= q
  {
    var q' := n / m;
    assert n == m * q' + n % m;
    MulCancel(m, q', q + 1);
  }

  /** Adding at most one divisor's worth moves the quotient by the carry of the remainder. */
  lemma DivStep(n: int, m: int, t: int)
    requires m > 0 && 0 <= t <= m
    ensures (n + t) / m == n / m + (if n % m + t >= m then 1 else 0)
  {
    var j := n / m;
    assert n == m * j + n % m;
    assert m * (j + 1) == m * j + m;
    if n % m + t >= m {
      DivUnique(n + t, m, j + 1);
    } else {
      DivUnique(n + t, m, j);
    }
  }

  /** One step of the source's loop: the minor coordinate moves exactly when p > 0. */
  lemma RiseStep(d: nat, e: nat, k: nat)
    requires 0 < d && e <= d
    ensures Rise(d, e, k + 1) == Rise(d, e, k) + (if Decision(d, e, k) > 0 then 1 else 0)
  {
    var n := 2 * e * k + d - 1;
    var j := Rise(d, e, k);
    assert j == n / (2 * d);
    assert 2 * e * (k + 1) == 2 * e * k + 2 * e;
    DivStep(n, 2 * d, 2 * e);
    assert n == 2 * d * j + n % (2 * d);
    assert Decision(d, e, k) == n % (2 * d) + 2 * e - 2 * d + 1;
  }

  /** The minor coordinate starts at 0, ends at e and never passes e. */
  lemma RiseEnds(d: nat, e: nat, k: nat)
    requires 0 < d && e <= d && k <= d
    ensures Rise(d, e, 0) == 0
    ensures Rise(d, e, d) == e
    ensures Rise(d, e, k) <= e
  {
    DivUnique(d - 1, 2 * d, 0);
    RiseFinish(d, e);
    RiseAtMost(d, e, k);
  }

  lemma RiseFinish(d: nat, e: nat)
    requires 0 < d
    ensures Rise(d, e, d) == e
  {
    assert 2 * e * d + d - 1 == 2 * d * e + (d - 1);
    DivUnique(2 * e * d + d - 1, 2 * d, e);
  }

  lemma RiseAtMost(d: nat, e: nat, k: nat)
    requires 0 < d && k <= d
    ensures Rise(d, e, k) <= e
  {
    var n := 2 * e * k + d - 1;
    MulLeftMonotone(2 * e, k, d);
    assert 2 * e * d == 2 * d * e;
    assert 2 * d * (e + 1) == 2 * d * e + 2 * d;
    DivUpper(n, 2 * d, e);
  }

  /** Consecutive minor coordinates differ by 0 or 1. */
  lemma RiseSmallSteps(d: nat, e: nat, k: nat)
    requires 0 < d && e <= d
    ensures Rise(d, e, k) <= Rise(d, e, k + 1) <= Rise(d, e, k) + 1
  {
    RiseStep(d, e, k);
  }

  /** A line at least half as steep as a diagonal rises within every two steps. */
  lemma RiseWithinTwo(d: nat, e: nat, k: nat)
    requires 0 < d && e <= d && d <= 2 * e
    ensures Rise(d, e, k + 2) > Rise(d, e, k)
  {
    var n := 2 * e * k + d - 1;
    var j := Rise(d, e, k);
    assert j == n / (2 * d);
    assert n == 2 * d * j + n % (2 * d);
    assert 2 * e * (k + 2) == 2 * e * k + 4 * e;
    assert 2 * d * (j + 1) == 2 * d * j + 2 * d;
    DivLower(n + 4 * e, 2 * d, j + 1);
  }

  lemma LinePrefixStep(d: nat, e: nat, a: int, b: int, k: nat)
    requires k < d
    ensures Line(d, e, a, b)[..k + 2] == Line(d, e, a, b)[..k + 1] + [a + Toward(a, b) * Rise(d, e, k + 1)]
  {
  }

  /** The decision value follows the source's update rule. */
  lemma DecisionStep(d: nat, e: nat, k: nat)
    requires 0 < d && e <= d
    ensures Decision(d, e, k + 1) == Decision(d, e, k) + (if Decision(d, e, k) > 0 then 2 * (e - d) else 2 * e)
  {
    RiseStep(d, e, k);
    var j := Rise(d, e, k);
    var j' := Rise(d, e, k + 1);
    assert 2 * d * j' == 2 * d * j + 2 * d * (j' - j);
    assert 2 * e * (k + 2) == 2 * e * (k + 1) + 2 * e;
  }

  /** The minor coordinate follows the source's update rule, never overshooting its end. */
  lemma MinorStep(d: nat, e: nat, a: int, b: int, k: nat, y: int)
    requires k < d && e <= d && e == Abs(b - a)
    requires y == a + Toward(a, b) * Rise(d, e, k)
    ensures (if Decision(d, e, k) > 0 then (if y < b then y + 1 else y - 1) else y) == a + Toward(a, b) * Rise(d, e, k + 1)
  {
    RiseStep(d, e, k);
    RiseEnds(d, e, k + 1);
    var j := Rise(d, e, k);
    if a < b {
      assert y == a + j;
      assert a + Toward(a, b) * Rise(d, e, k + 1) == a + Rise(d, e, k + 1);
    } else {
      assert y == a - j;
      assert a + Toward(a, b) * Rise(d, e, k + 1) == a - Rise(d, e, k + 1);
    }
  }

  /** bresenhamLine */
  method BresenhamLine(x1: int, y1: int, x2: int, y2: int) returns (ys: seq<int>)
    ensures ys == BresenhamPoints(x1, y1, x2, y2)
  {
    var dx: nat := Abs(x2 - x1);
    var dy: nat := Abs(y2 - y1);
    var xa, ya, xb, yb := x1, y1, x2, y2;
    if dy > dx {
      dx, dy := dy, dx;
      xa, ya := ya, xa;
      xb, yb := yb, xb;
    }
    ghost var a0 := ya;
    assert BresenhamPoints(x1, y1, x2, y2) == Line(dx, dy, a0, yb);
    var p: int := 2 * dy - dx;
    ys := [ya];
    if dx > 0 {
      RiseEnds(dx, dy, 0);
    }
    var k: nat := 0;
    while k < dx
      invariant k <= dx
      invariant ys == Line(dx, dy, a0, yb)[..k + 1]
      invariant ya == a0 + Toward(a0, yb) * Rise(dx, dy, k)
      invariant p == Decision(dx, dy, k)
    {
      LinePrefixStep(dx, dy, a0, yb, k);
      DecisionStep(dx, dy, k);
      MinorStep(dx, dy, a0, yb, k, ya);
      if p > 0 {
        if ya < yb {
          ya := ya + 1;
        } else {
          ya := ya - 1;
        }
        p := p + 2 * (dy - dx);
      } else {
        p := p + 2 * dy;
      }
      if xa < xb {
        xa := xa + 1;
      } else {
        xa := xa - 1;
      }
      ys := ys + [ya];
      k := k + 1;
    }
    assert Line(dx, dy, a0, yb)[..dx + 1] == Line(dx, dy, a0, yb);
  }

  /** The number of entries of `ys` that fall in each of the buckets 0..n-1, added up. */
  function OccurrencesBelow(ys: seq<int>, n: nat): nat
  {
    if n == 0 then 0 else OccurrencesBelow(ys, n - 1) + Occurrences(ys, n - 1)
  }

  lemma {:induction false} OccurrencesBelowSnoc(ys: seq<int>, x: int, n: nat)
    ensures OccurrencesBelow(ys + [x], n) == OccurrencesBelow(ys, n) + (if 0 <= x < n then 1 else 0)
  {
    if n > 0 {
      OccurrencesBelowSnoc(ys, x, n - 1);
      OccurrencesSnoc(ys, x, n - 1);
    }
  }

  /** When every entry is a bucket index below n, the buckets hold every entry once. */
  lemma {:induction false} OccurrencesBelowAll(ys: seq<int>, n: nat)
    requires forall k :: 0 <= k < |ys| ==> 0 <= ys[k] < n
    ensures OccurrencesBelow(ys, n) == |ys|
    decreases |ys|
  {
    if |ys| == 0 {
      OccurrencesBelowEmpty(n);
    } else {
      var init := ys[..|ys| - 1];
      assert ys == init + [ys[|ys| - 1]];
      OccurrencesBelowAll(init, n);
      OccurrencesBelowSnoc(init, ys[|ys| - 1], n);
    }
  }

  lemma {:induction false} OccurrencesBelowEmpty(n: nat)
    ensures OccurrencesBelow([], n) == 0
  {
    if n > 0 {
      OccurrencesBelowEmpty(n - 1);
    }
  }

  /** The minor coordinates of a line whose major extent is d and minor extent e. */
  function Rises(d: nat, e: nat): (ys: seq<int>)
    ensures |ys| == d + 1
  {
    seq(d + 1, k requires 0 <= k <= d => Rise(d, e, k))
  }

  /**
   * Walking the first n points of a sequence that starts at 0, climbs by 0 or
   * 1 per step and never stays put twice in a row, every value below the
   * current one has been visited once or twice, the current one once or (if
   * the previous point had it too) twice, and larger values not yet.
   */
  lemma {:induction false} StepVisits(s: seq<int>, n: nat)
    requires 1 <= n <= |s| && s[0] == 0
    requires forall k | 0 <= k < |s| - 1 :: s[k] <= s[k + 1] <= s[k] + 1
    requires forall k | 0 <= k < |s| - 2 :: s[k + 2] > s[k]
    ensures forall v :: 0 <= v < s[n - 1] ==> 1 <= Occurrences(s[..n], v) <= 2
    ensures Occurrences(s[..n], s[n - 1]) == (if n >= 2 && s[n - 2] == s[n - 1] then 2 else 1)
    ensures forall v :: v > s[n - 1] ==> Occurrences(s[..n], v) == 0
  {
    if n == 1 {
      assert s[..1] == [0];
      assert forall v :: v > 0 ==> Occurrences(s[..1], v) == 0 by {
        forall v | v > 0 ensures Occurrences(s[..1], v) == 0 {
          assert s[..1][..0] == [];
        }
      }
      assert [0][..0] == [];
    } else {
      StepVisits(s, n - 1);
      var x := s[n - 1];
      assert s[..n] == s[..n - 1] + [x];
      assert s[n - 2] <= x <= s[n - 2] + 1;
      if n >= 3 {
        assert x > s[n - 3];
      }
      forall v ensures Occurrences(s[..n], v) == Occurrences(s[..n - 1], v) + (if x == v then 1 else 0) {
        OccurrencesSnoc(s[..n - 1], x, v);
      }
    }
  }

  /** The points of a line at least half as steep as a diagonal visit their values as StepVisits says. */
  lemma RisesVisits(d: nat, e: nat, n: nat)
    requires 0 < d && e <= d && d <= 2 * e
    requires 1 <= n <= d + 1
    ensures forall v :: 0 <= v < Rise(d, e, n - 1) ==> 1 <= Occurrences(Rises(d, e)[..n], v) <= 2
    ensures Occurrences(Rises(d, e)[..n], Rise(d, e, n - 1)) ==
      (if n >= 2 && Rise(d, e, n - 2) == Rise(d, e, n - 1) then 2 else 1)
    ensures forall v :: v > Rise(d, e, n - 1) ==> Occurrences(Rises(d, e)[..n], v) == 0
  {
    var s := Rises(d, e);
    RiseEnds(d, e, 0);
    forall k | 0 <= k < |s| - 1
      ensures s[k] <= s[k + 1] <= s[k] + 1
    {
      RiseSmallSteps(d, e, k);
    }
    forall k | 0 <= k < |s| - 2
      ensures s[k + 2] > s[k]
    {
      RiseWithinTwo(d, e, k);
    }
    StepVisits(s, n);
    assert s[n - 1] == Rise(d, e, n - 1);
    if n >= 2 {
      assert s[n - 2] == Rise(d, e, n - 2);
    }
  }

  /** Every value 0..e is visited once or twice along the whole line. */
  lemma RisesBalanced(d: nat, e: nat, v: int)
    requires 0 < d && e <= d && d <= 2 * e
    requires 0 <= v <= e
    ensures 1 <= Occurrences(Rises(d, e), v) <= 2
  {
    RisesVisits(d, e, d + 1);
    RiseEnds(d, e, d);
    assert Rises(d, e)[..d + 1] == Rises(d, e);
  }

  /** The points `distributeEvenly` walks for `items` over `buckets` >= 2. */
  function BucketLine(buckets: nat, items: nat): seq<int>
    requires buckets >= 2
  {
    BresenhamPoints(0, 0, items % buckets + buckets - 1, buckets - 1)
  }

  lemma BucketLineIsRises(buckets: nat, items: nat)
    requires buckets >= 2
    ensures BucketLine(buckets, items) == Rises(items % buckets + buckets - 1, buckets - 1)
  {
    var d := items % buckets + buckets - 1;
    var e := buckets - 1;
    assert BucketLine(buckets, items) == Line(d, e, 0, e);
  }

  lemma BucketLineShape(buckets: nat, items: nat)
    requires buckets >= 2
    ensures BucketLine(buckets, items) == Rises(items % buckets + buckets - 1, buckets - 1)
    ensures forall k :: 0 <= k < |BucketLine(buckets, items)| ==> 0 <= BucketLine(buckets, items)[k] < buckets
  {
    var d := items % buckets + buckets - 1;
    var e := buckets - 1;
    BucketLineIsRises(buckets, items);
    forall k | 0 <= k <= d
      ensures 0 <= Rise(d, e, k) <= e
    {
      RiseAtMost(d, e, k);
    }
  }

  /** Bucket i after the walk: `base - 1` plus one per visit, both in `uint` arithmetic. */
  function Bucket(ys: seq<int>, base: int, i: int): nat
  {
    ToUint(ToUint(base - 1) + Occurrences(ys, i))
  }

  /** distributeEvenly, as a value. */
  function Distribution(buckets: nat, items: nat): (r: seq<nat>)
    ensures |r| == buckets
  {
    if buckets == 0 then []
    else if buckets == 1 then [items]
    else Buckets(BucketLine(buckets, items), items / buckets, buckets)
  }

  /** The first n buckets after the walk. */
  function Buckets(ys: seq<int>, base: int, n: nat): (r: seq<nat>)
    ensures |r| == n
  {
    seq(n, i requires 0 <= i < n => Bucket(ys, base, i))
  }

  /** `uint` increments compose: wrapping after each step equals wrapping once. */
  lemma ToUintSucc(x: int)
    ensures ToUint(ToUint(x) + 1) == ToUint(x + 1)
  {
    var m := TwoTo64;
    assert x == m * (x / m) + x % m;
    if x % m == m - 1 {
      assert x + 1 == m * (x / m + 1);
    } else {
      assert x + 1 == m * (x / m) + (x % m + 1);
    }
  }

  /** Visiting point k adds one to its own bucket and leaves the others alone. */
  lemma BucketVisit(ys: seq<int>, k: nat, base: int)
    requires k < |ys|
    ensures Bucket(ys[..k + 1], base, ys[k]) == ToUint(Bucket(ys[..k], base, ys[k]) + 1)
    ensures forall j :: j != ys[k] ==> Bucket(ys[..k + 1], base, j) == Bucket(ys[..k], base, j)
  {
    assert ys[..k + 1] == ys[..k] + [ys[k]];
    forall j
      ensures Occurrences(ys[..k + 1], j) == Occurrences(ys[..k], j) + (if ys[k] == j then 1 else 0)
    {
      OccurrencesSnoc(ys[..k], ys[k], j);
    }
    ToUintSucc(ToUint(base - 1) + Occurrences(ys[..k], ys[k]));
  }

  /** Before the walk every bucket holds `base - 1`, wrapped to `uint`. */
  lemma BucketsStart(ys: seq<int>, base: int)
    ensures forall j :: Bucket(ys[..0], base, j) == ToUint(base - 1)
  {
    assert ys[..0] == [];
  }

  /** After the whole walk the buckets are exactly `Buckets`. */
  lemma BucketsAfterWalk(r: seq<nat>, ys: seq<int>, base: int)
    requires forall j :: 0 <= j < |r| ==> r[j] == Bucket(ys[..|ys|], base, j)
    ensures r == Buckets(ys, base, |r|)
  {
    assert ys[..|ys|] == ys;
  }

  /** distributeEvenly */
  method DistributeEvenly(numBuckets: nat, numItems: nat) returns (r: seq<nat>)
    ensures r == Distribution(numBuckets, numItems)
  {
    if numBuckets == 0 {
      DistributionSmall(numItems);
      return [];
    } else if numBuckets == 1 {
      DistributionSmall(numItems);
      return [numItems];
    }
    DistributionMany(numBuckets, numItems);
    var base := numItems / numBuckets;
    var remainder := numItems % numBuckets;
    var start := ToUint(base - 1);
    var result := new nat[numBuckets](_ => start);
    var indexes := BresenhamLine(0, 0, remainder + numBuckets - 1, numBuckets - 1);
    BucketLineShape(numBuckets, numItems);
    assert forall k :: 0 <= k < |indexes| ==> 0 <= indexes[k] < numBuckets;
    AddVisits(result, indexes, base);
    r := result[..];
  }

  /** The increment loop of distributeEvenly: one `uint` increment per visited bucket. */
  method AddVisits(result: array<nat>, ys: seq<int>, base: int)
    requires forall k :: 0 <= k < |ys| ==> 0 <= ys[k] < result.Length
    requires forall j :: 0 <= j < result.Length ==> result[j] == ToUint(base - 1)
    modifies result
    ensures result[..] == Buckets(ys, base, result.Length)
  {
    BucketsStart(ys, base);
    for k := 0 to |ys|
      invariant forall j :: 0 <= j < result.Length ==> result[j] == Bucket(ys[..k], base, j)
    {
      var i := ys[k];
      BucketVisit(ys, k, base);
      result[i] := ToUint(result[i] + 1);
    }
    BucketsAfterWalk(result[..], ys, base);
  }

  /** A bucket that was visited once or twice does not wrap, whatever its base. */
  lemma BucketNoWrap(ys: seq<int>, base: int, i: int)
    requires 0 <= base && base + 1 < TwoTo64
    requires 1 <= Occurrences(ys, i) <= 2
    ensures Bucket(ys, base, i) == base - 1 + Occurrences(ys, i)
  {
    if base == 0 {
      assert ToUint(base - 1) == TwoTo64 - 1;
    }
  }

  /** Without wrap-around, bucket i holds `base - 1` plus its number of visits. */
  lemma BucketExact(buckets: nat, items: nat, i: int)
    requires buckets >= 2 && items < TwoTo64 && 0 <= i < buckets
    ensures Bucket(BucketLine(buckets, items), items / buckets, i) ==
      items / buckets - 1 + Occurrences(BucketLine(buckets, items), i)
    ensures 1 <= Occurrences(BucketLine(buckets, items), i) <= 2
  {
    var ys := BucketLine(buckets, items);
    var d := items % buckets + buckets - 1;
    var e := buckets - 1;
    BucketLineIsRises(buckets, items);
    assert d <= 2 * e;
    RisesBalanced(d, e, i);
    assert 1 <= Occurrences(ys, i) <= 2;
    var base := items / buckets;
    BaseSmall(items, buckets);
    assert 0 <= base && base + 1 < TwoTo64;
    BucketNoWrap(ys, base, i);
  }

  lemma BaseSmall(items: nat, buckets: nat)
    requires buckets >= 2 && items < TwoTo64
    ensures 0 <= items / buckets && items / buckets + 1 < TwoTo64
  {
    DivAntitone(items, 1, buckets);
    assert items / 1 == items;
  }

  lemma DivAntitone(n: nat, a: nat, b: nat)
    requires 0 < a <= b
    ensures n / b <= n / a
  {
    assert n == b * (n / b) + n % b;
    assert n == a * (n / a) + n % a;
    if n / b > n / a {
      MulLeftMonotone(a, n / a + 1, n / b);
      MulLeftMonotone(n / b, a, b);
    }
  }

  lemma BucketsPrefix(ys: seq<int>, base: int, n: nat)
    requires n > 0
    ensures Buckets(ys, base, n)[..n - 1] == Buckets(ys, base, n - 1)
    ensures Buckets(ys, base, n)[n - 1] == Bucket(ys, base, n - 1)
  {
  }

  lemma {:induction false} SumOfBuckets(ys: seq<int>, base: int, n: nat)
    requires forall i :: 0 <= i < n ==> Bucket(ys, base, i) == base - 1 + Occurrences(ys, i)
    ensures Sum(Buckets(ys, base, n)) == n * (base - 1) + OccurrencesBelow(ys, n)
  {
    if n > 0 {
      BucketsPrefix(ys, base, n);
      SumOfBuckets(ys, base, n - 1);
      MulSucc(n - 1, base - 1);
    }
  }

  lemma MulSucc(a: int, b: int)
    ensures (a + 1) * b == a * b + b
  {
  }

  /** With two or more buckets the entries add up to the items. */
  lemma DistributionSum(buckets: nat, items: nat)
    requires buckets >= 2 && items < TwoTo64
    ensures Sum(Distribution(buckets, items)) == items
  {
    var ys := BucketLine(buckets, items);
    var base := items / buckets;
    forall i | 0 <= i < buckets
      ensures Bucket(ys, base, i) == base - 1 + Occurrences(ys, i)
    {
      BucketExact(buckets, items, i);
    }
    SumOfBuckets(ys, base, buckets);
    BucketLineShape(buckets, items);
    OccurrencesBelowAll(ys, buckets);
    DistributionCount(buckets, items);
  }

  /** The arithmetic behind the sum: buckets·(base − 1) + remainder + buckets = items. */
  lemma DistributionCount(buckets: nat, items: nat)
    requires buckets >= 2
    ensures buckets * (items / buckets - 1) + (items % buckets + buckets) == items
  {
    assert items == buckets * (items / buckets) + items % buckets;
    assert buckets * (items / buckets - 1) == buckets * (items / buckets) - buckets;
  }

  /**
   * The source's promise for a uint number of items: one entry per bucket, the
   * entries add up to the items, and each is ⌊items/buckets⌋ or one more.
   */
  lemma DistributionBalanced(buckets: nat, items: nat)
    requires items < TwoTo64
    ensures |Distribution(buckets, items)| == buckets
    ensures buckets >= 1 ==> Sum(Distribution(buckets, items)) == items
    ensures buckets >= 1 ==> forall i :: 0 <= i < buckets ==>
      Distribution(buckets, items)[i] == items / buckets || Distribution(buckets, items)[i] == items / buckets + 1
  {
    if buckets == 1 {
      SumSingleton(items);
    } else if buckets >= 2 {
      DistributionSum(buckets, items);
      forall i | 0 <= i < buckets
        ensures Distribution(buckets, items)[i] == items / buckets || Distribution(buckets, items)[i] == items / buckets + 1
      {
        BucketExact(buckets, items, i);
      }
    }
  }

  lemma DistributionMany(buckets: nat, items: nat)
    requires buckets >= 2
    ensures Distribution(buckets, items) == Buckets(BucketLine(buckets, items), items / buckets, buckets)
  {
  }

  /** Zero buckets give no entries, one bucket takes every item. */
  lemma DistributionSmall(items: nat)
    ensures Distribution(0, items) == []
    ensures Distribution(1, items) == [items]
  {
  }

  /** The example from the source's documentation: 33 items over 10 buckets. */
  lemma DistributionExample()
    ensures Distribution(10, 33) == [3, 4, 3, 3, 4, 3, 3, 4, 3, 3]
  {
    var ys := BucketLine(10, 33);
    assert ys == Line(12, 9, 0, 9);
    var lit := [0, 1, 1, 2, 3, 4, 4, 5, 6, 7, 7, 8, 9];
    assert ys == lit;
    var counts := [1, 2, 1, 1, 2, 1, 1, 2, 1, 1];
    forall v | 0 <= v < 10
      ensures Occurrences(lit, v) == counts[v]
    {
      LiteralCounts(v);
    }
  }

  /** The number of entries equal to v from index i on, counted left to right. */
  function CountFrom(s: seq<int>, v: int, i: nat): nat
    requires i <= |s|
    decreases |s| - i
  {
    if i == |s| then 0 else (if s[i] == v then 1 else 0) + CountFrom(s, v, i + 1)
  }

  lemma {:induction false} CountFromIsOccurrences(s: seq<int>, v: int, i: nat)
    requires i <= |s|
    ensures CountFrom(s, v, i) == Occurrences(s[i..], v)
    decreases |s| - i
  {
    if i < |s| {
      CountFromIsOccurrences(s, v, i + 1);
      assert s[i..] == [s[i]] + s[i + 1..];
      OccurrencesCons(s[i], s[i + 1..], v);
    }
  }

  lemma {:induction false} OccurrencesCons(x: int, s: seq<int>, v: int)
    ensures Occurrences([x] + s, v) == (if x == v then 1 else 0) + Occurrences(s, v)
    decreases |s|
  {
    if |s| == 0 {
      assert [x] + s == [x];
      assert [x][..0] == [];
    } else {
      var t := s[..|s| - 1];
      assert ([x] + s)[..|s|] == [x] + t;
      OccurrencesCons(x, t, v);
    }
  }

  lemma LiteralCounts(v: int)
    requires 0 <= v < 10
    ensures Occurrences([0, 1, 1, 2, 3, 4, 4, 5, 6, 7, 7, 8, 9], v) == [1, 2, 1, 1, 2, 1, 1, 2, 1, 1][v]
  {
    var s := [0, 1, 1, 2, 3, 4, 4, 5, 6, 7, 7, 8, 9];
    CountFromIsOccurrences(s, v, 0);
    assert s[0..] == s;
  }
}
