/**
 * Time-window arithmetic over integer-second timestamps: inclusive window
 * tests, windows around a centre, bucketing by floor division, alignment
 * to an interval and sliding-window generation.
 */
module TimeUtil {

  /** Python's `//`: the quotient rounded toward negative infinity. */
  function FloorDiv(a: int, b: int): (q: int)
    requires b != 0
    ensures b > 0 ==> q * b <= a < q * b + b
    ensures b < 0 ==> q * b + b < a <= q * b
  {
    if b > 0 then a / b else (-a) / (-b)
  }

  /** `window_start <= timestamp <= window_end`. */
  predicate IsWithinWindow(timestamp: int, windowStart: int, windowEnd: int)
  {
    windowStart <= timestamp <= windowEnd
  }

  /** Both ends of a window belong to it; one unit beyond either does not. */
  lemma WindowIsInclusive(windowStart: int, windowEnd: int)
    requires windowStart <= windowEnd
    ensures IsWithinWindow(windowStart, windowStart, windowEnd)
    ensures IsWithinWindow(windowEnd, windowStart, windowEnd)
    ensures !IsWithinWindow(windowStart - 1, windowStart, windowEnd)
    ensures !IsWithinWindow(windowEnd + 1, windowStart, windowEnd)
  {
  }

  /**
   * The window from `before` seconds ahead of `center` to `after` seconds
   * past it (by default 30 minutes before and 5 minutes after).
   */
  function TimeWindow(center: int, before: int := 30 * 60, after: int := 5 * 60): (w: (int, int))
    ensures w.0 == center - before
    ensures w.1 - w.0 == before + after
    ensures before >= 0 && after >= 0 ==> w.0 <= center <= w.1
    ensures IsWithinWindow(center, w.0, w.1) <==> before >= 0 && after >= 0
  {
    (center - before, center + after)
  }

  /** The bucket a timestamp falls in. */
  function BucketKey(timestamp: int, bucketSize: int): int
    requires bucketSize != 0
  {
    FloorDiv(timestamp, bucketSize)
  }

  /**
   * The indices below `n` grouped by bucket key: each index sits in the
   * bucket of its key, buckets hold only such indices below `n`, in
   * ascending order, and no bucket is empty.
   */
  ghost predicate Grouped(buckets: map<int, seq<nat>>, timestamps: seq<int>, bucketSize: int, n: nat)
    requires bucketSize != 0 && n <= |timestamps|
  {
    && (forall i :: 0 <= i < n ==>
          BucketKey(timestamps[i], bucketSize) in buckets
          && i in buckets[BucketKey(timestamps[i], bucketSize)])
    && (forall k, j :: k in buckets && 0 <= j < |buckets[k]| ==>
          buckets[k][j] < n && BucketKey(timestamps[buckets[k][j]], bucketSize) == k)
    && (forall k, j1, j2 :: k in buckets && 0 <= j1 < j2 < |buckets[k]| ==>
          buckets[k][j1] < buckets[k][j2])
    && (forall k :: k in buckets ==> |buckets[k]| > 0)
  }

  /** Appending index `n` to the bucket of its key keeps the grouping, one index further. */
  lemma GroupedStep(buckets: map<int, seq<nat>>, timestamps: seq<int>, bucketSize: int, n: nat)
    requires bucketSize != 0 && n < |timestamps|
    requires Grouped(buckets, timestamps, bucketSize, n)
    ensures var key := BucketKey(timestamps[n], bucketSize);
      Grouped(buckets[key := (if key in buckets then buckets[key] else []) + [n]], timestamps, bucketSize, n + 1)
  {
  }

  /**
   * Groups the indices of `timestamps` by bucket key: every index sits in
   * exactly one bucket, the one of its key, in ascending order, and no
   * bucket is empty.
   */
  method BucketTimestamps(timestamps: seq<int>, bucketSize: int := 30) returns (buckets: map<int, seq<nat>>)
    requires bucketSize != 0
    ensures forall i :: 0 <= i < |timestamps| ==>
              BucketKey(timestamps[i], bucketSize) in buckets
              && i in buckets[BucketKey(timestamps[i], bucketSize)]
    ensures forall k, j :: k in buckets && 0 <= j < |buckets[k]| ==>
              buckets[k][j] < |timestamps| && BucketKey(timestamps[buckets[k][j]], bucketSize) == k
    ensures forall k, j1, j2 :: k in buckets && 0 <= j1 < j2 < |buckets[k]| ==>
              buckets[k][j1] < buckets[k][j2]
    ensures forall k :: k in buckets ==> |buckets[k]| > 0
  {
    buckets := map[];
    var idx := 0;
    while idx < |timestamps|
      invariant 0 <= idx <= |timestamps|
      invariant Grouped(buckets, timestamps, bucketSize, idx)
    {
      GroupedStep(buckets, timestamps, bucketSize, idx);
      var key := BucketKey(timestamps[idx], bucketSize);
      if key !in buckets {
        buckets := buckets[key := []];
      }
      buckets := buckets[key := buckets[key] + [idx]];
      idx := idx + 1;
    }
  }

  /** The first timestamp of bucket `bucketKey`. */
  function BucketKeyToTimestamp(bucketKey: int, bucketSize: int): (t: int)
  {
    bucketKey * bucketSize
  }

  /**
   * With a positive bucket size, a bucket's timestamp is at most every
   * timestamp bucketed under it, and less than one bucket size below it.
   */
  lemma BucketStartBounds(timestamp: int, bucketSize: int)
    requires bucketSize > 0
    ensures BucketKeyToTimestamp(BucketKey(timestamp, bucketSize), bucketSize) <= timestamp
    ensures timestamp < BucketKeyToTimestamp(BucketKey(timestamp, bucketSize), bucketSize) + bucketSize
  {
  }

  /**
   * Aligns `timestamp` to a multiple of `interval`: "floor" rounds down,
   * any other mode rounds down and then adds one interval.
   */
  function AlignToInterval(timestamp: int, interval: int, align: string := "floor"): (aligned: int)
    requires interval != 0
    ensures exists q :: aligned == q * interval
    ensures align == "floor" && interval > 0 ==> aligned <= timestamp < aligned + interval
    ensures align != "floor" && interval > 0 ==> aligned - interval <= timestamp < aligned
  {
    var q := FloorDiv(timestamp, interval);
    if align == "floor" then q * interval else (q + 1) * interval
  }

  /** Ceiling alignment moves even an aligned timestamp one interval up. */
  lemma CeilOfAlignedMovesUp(timestamp: int, interval: int)
    requires interval > 0
    requires AlignToInterval(timestamp, interval, "floor") == timestamp
    ensures AlignToInterval(timestamp, interval, "ceil") == timestamp + interval
  {
  }

  /**
   * The windows `(s, s + windowSize)` for `s = start + k * step`, k = 0, 1, ...,
   * as long as the window ends at or before `end`. The loop terminates
   * only when `step > 0`, or when not even the first window fits.
   */
  method SlidingWindows(start: int, end: int, windowSize: int, step: int) returns (windows: seq<(int, int)>)
    requires step > 0 || start + windowSize > end
    ensures forall k :: 0 <= k < |windows| ==>
              windows[k] == (start + k * step, start + k * step + windowSize)
              && windows[k].1 <= end
    ensures start + |windows| * step + windowSize > end
    ensures windows == [] <==> start + windowSize > end
  {
    windows := [];
    var current := start;
    while current + windowSize <= end
      invariant step > 0 || current + windowSize > end
      invariant current == start + |windows| * step
      invariant forall k :: 0 <= k < |windows| ==>
                  windows[k] == (start + k * step, start + k * step + windowSize)
                  && windows[k].1 <= end
      invariant windows != [] ==> start + windowSize <= end
      decreases end - windowSize - current
    {
      windows := windows + [(current, current + windowSize)];
      current := current + step;
    }
  }
}
