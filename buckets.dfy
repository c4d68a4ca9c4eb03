/**
 * The time series of `computeTimeBuckets`: the timeline points are put into
 * buckets of a fixed width aligned on multiples of that width, the buckets
 * are taken in ascending order of their start, and each one reports the
 * chosen percentile of its values and how many values it holds.
 */
module Buckets {
  import opened Wrappers
  import opened Foreign
  import opened Sorting
  import opened Tally
  import opened Utils
  import opened Analysis

  /** `bucketMinutes * 60_000`: the width of a bucket in milliseconds. */
  function BucketWidth(bucketMinutes: real): (width: real)
    requires bucketMinutes > 0.0
    ensures width > 0.0
  {
    bucketMinutes * 60000.0
  }

  /**
   * One bucket of the series: the label the chart shows (`caption`), the rounded
   * percentile value and the number of points. The start the label is made
   * from is kept alongside.
   */
  datatype TimeBucket = TimeBucket(start: real, caption: string, value: real, count: nat)

  lemma DivMul(x: real, w: real)
    requires w > 0.0
    ensures (x / w) * w == x
  {
  }

  lemma MulSucc(k: real, w: real)
    ensures (k + 1.0) * w == k * w + w
  {
  }

  /** If ts is q times w, with q between k and k + 1, then ts lies between k * w and k * w + w. */
  lemma ProductBracket(ts: real, q: real, k: real, w: real)
    requires q * w == ts && k <= q < k + 1.0 && w > 0.0
    ensures k * w <= ts < k * w + w
  {
    calc {
      k * w;
    <= { MulMonotone(k, q, w); }
      q * w;
    ==
      ts;
    }
    calc {
      ts;
    ==
      q * w;
    < { MulStrict(q, k + 1.0, w); }
      (k + 1.0) * w;
    == { MulSucc(k, w); }
      k * w + w;
    }
  }

  /** The multiple of width reached by flooring ts / width lies at most one width below ts. */
  lemma FloorMulBounds(ts: real, width: real, k: int)
    requires width > 0.0 && k == (ts / width).Floor
    ensures k as real * width <= ts < k as real * width + width
  {
    DivMul(ts, width);
    ProductBracket(ts, ts / width, k as real, width);
  }

  /** `Math.floor(ts / bucketMs) * bucketMs`: the start of the bucket holding ts. */
  function BucketStart(ts: real, width: real): (start: real)
    requires width > 0.0
    ensures start <= ts < start + width
  {
    var k := (ts / width).Floor;
    FloorMulBounds(ts, width, k);
    k as real * width
  }

  /** If ts lies between f * w and (f + 1) * w, then ts / w lies between f and f + 1. */
  lemma QuotientBracket(ts: real, w: real, f: real)
    requires w > 0.0 && f * w <= ts < (f + 1.0) * w
    ensures f <= ts / w < f + 1.0
  {
    var q := ts / w;
    DivMul(ts, w);
    if q < f {
      calc {
        ts;
      ==
        q * w;
      < { MulStrict(q, f, w); }
        f * w;
      }
    }
    if f + 1.0 <= q {
      calc {
        (f + 1.0) * w;
      <= { MulMonotone(f + 1.0, q, w); }
        q * w;
      ==
        ts;
      }
    }
  }

  /** The start of a bucket is the multiple of the width that lies at most one width below ts. */
  lemma BucketStartUnique(ts: real, width: real, k: int)
    requires width > 0.0
    requires k as real * width <= ts < (k as real + 1.0) * width
    ensures BucketStart(ts, width) == k as real * width
  {
    QuotientBracket(ts, width, k as real);
    assert (ts / width).Floor == k;
  }

  /** Each point paired with its bucket start: the key and value `buckets.get(start).push(val)` files. */
  function BucketPairs(points: seq<TimelinePoint>, width: real): (ps: seq<(real, real)>)
    requires width > 0.0
    ensures |ps| == |points|
    ensures forall i :: 0 <= i < |points| ==> ps[i] == (BucketStart(points[i].ts, width), points[i].val)
  {
    if points == [] then []
    else
      var p := points[|points| - 1];
      BucketPairs(points[..|points| - 1], width) + [(BucketStart(p.ts, width), p.val)]
  }

  /** The `Map` from bucket start to the values in that bucket, in timeline order. */
  function BucketMap(points: seq<TimelinePoint>, width: real): map<real, seq<real>>
    requires width > 0.0
  {
    GroupBy(BucketPairs(points, width))
  }

  /** The bucket starts in the `Map`'s insertion order. */
  function BucketOrder(points: seq<TimelinePoint>, width: real): seq<real>
    requires width > 0.0
  {
    FirstOccurrences(KeysOf(BucketPairs(points, width)))
  }

  /**
   * The bucket starting at start with values vals, sorted and summarised by the
   * picker (`Pick` is `getPicker()` applied); p is a valid percentile.
   */
  function MakeBucket(env: Env, m: PickerMethod, p: real, start: real, vals: seq<real>): (b: TimeBucket)
    requires vals != [] && 0.0 < p <= 100.0
    ensures b.start == start && b.count == |vals|
  {
    var sorted := SortAsc(vals);
    TimeBucket(start, env.bucketLabel(start), env.round6(Pick(m, sorted, p).value), |sorted|)
  }

  /** The `.map` over the sorted entries: one bucket per start. */
  function Emit(env: Env, m: PickerMethod, p: real, starts: seq<real>, buckets: map<real, seq<real>>): (r: seq<TimeBucket>)
    requires 0.0 < p <= 100.0
    requires forall i :: 0 <= i < |starts| ==> starts[i] in buckets && buckets[starts[i]] != []
    ensures |r| == |starts|
    ensures forall i :: 0 <= i < |starts| ==> r[i] == MakeBucket(env, m, p, starts[i], buckets[starts[i]])
  {
    seq(|starts|, i requires 0 <= i < |starts| => MakeBucket(env, m, p, starts[i], buckets[starts[i]]))
  }

  /** The starts of the buckets, ascending: the entries sorted by key. */
  function SortedStarts(points: seq<TimelinePoint>, width: real): (starts: seq<real>)
    requires width > 0.0
    ensures forall s :: s in starts <==> s in BucketMap(points, width)
    ensures StrictlyAscending(starts)
  {
    var order := BucketOrder(points, width);
    GroupByHoldsValues(BucketPairs(points, width));
    FirstOccurrencesMembers(KeysOf(BucketPairs(points, width)));
    SortAscOfDistinct(order);
    SortAscMembers(order);
    SortAsc(order)
  }

  /**
   * `computeTimeBuckets(bucketMinutes, percentile)` for a positive width and a
   * percentile in (0, 100]: one bucket per occupied start, in the order of the
   * sorted starts.
   */
  function BucketSeries(env: Env, m: PickerMethod, points: seq<TimelinePoint>, bucketMinutes: real, p: real): (r: seq<TimeBucket>)
    requires bucketMinutes > 0.0 && 0.0 < p <= 100.0
    ensures var starts := SortedStarts(points, BucketWidth(bucketMinutes));
      |r| == |starts| && forall k :: 0 <= k < |r| ==> r[k].start == starts[k]
  {
    var width := BucketWidth(bucketMinutes);
    GroupsNonEmpty(BucketPairs(points, width));
    Emit(env, m, p, SortedStarts(points, width), BucketMap(points, width))
  }

  /** The buckets come out in strictly ascending order of start, one per start occupied by a point. */
  lemma BucketSeriesAscending(env: Env, m: PickerMethod, points: seq<TimelinePoint>, bucketMinutes: real, p: real)
    requires bucketMinutes > 0.0 && 0.0 < p <= 100.0
    ensures var r := BucketSeries(env, m, points, bucketMinutes, p);
      forall i, j :: 0 <= i < j < |r| ==> r[i].start < r[j].start
  {
  }

  /** The bucket start of point i is among the sorted starts. */
  lemma StartOfPoint(points: seq<TimelinePoint>, width: real, i: nat) returns (k: nat)
    requires width > 0.0 && i < |points|
    ensures k < |SortedStarts(points, width)| && SortedStarts(points, width)[k] == BucketStart(points[i].ts, width)
  {
    var ps := BucketPairs(points, width);
    var starts := SortedStarts(points, width);
    var s := BucketStart(points[i].ts, width);
    assert s in starts by {
      GroupByHoldsValues(ps);
      assert KeysOf(ps)[i] == s;
    }
    k :| 0 <= k < |starts| && starts[k] == s;
  }

  /** Every sorted start is the bucket start of some point. */
  lemma PointOfStart(points: seq<TimelinePoint>, width: real, k: nat) returns (i: nat)
    requires width > 0.0 && k < |SortedStarts(points, width)|
    ensures i < |points| && SortedStarts(points, width)[k] == BucketStart(points[i].ts, width)
  {
    var ps := BucketPairs(points, width);
    var starts := SortedStarts(points, width);
    var s := starts[k];
    assert s in starts;
    assert s in GroupBy(ps);
    assert s in KeysOf(ps) by {
      GroupByHoldsValues(ps);
    }
    i :| 0 <= i < |ps| && KeysOf(ps)[i] == s;
  }

  /** The bucket of point i is in the series. */
  lemma BucketOfPoint(env: Env, m: PickerMethod, points: seq<TimelinePoint>, bucketMinutes: real, p: real, i: nat)
    returns (k: nat)
    requires bucketMinutes > 0.0 && 0.0 < p <= 100.0
    requires i < |points|
    ensures var r := BucketSeries(env, m, points, bucketMinutes, p);
      k < |r| && r[k].start == BucketStart(points[i].ts, BucketWidth(bucketMinutes))
  {
    k := StartOfPoint(points, BucketWidth(bucketMinutes), i);
  }

  /** Every bucket of the series is the bucket of some point. */
  lemma PointOfBucket(env: Env, m: PickerMethod, points: seq<TimelinePoint>, bucketMinutes: real, p: real, k: nat)
    returns (i: nat)
    requires bucketMinutes > 0.0 && 0.0 < p <= 100.0
    requires k < |BucketSeries(env, m, points, bucketMinutes, p)|
    ensures i < |points|
    ensures BucketSeries(env, m, points, bucketMinutes, p)[k].start == BucketStart(points[i].ts, BucketWidth(bucketMinutes))
  {
    i := PointOfStart(points, BucketWidth(bucketMinutes), k);
  }

  /** The time ts falls in bucket b of the given width. */
  predicate InBucket(b: TimeBucket, ts: real, width: real)
  {
    b.start <= ts < b.start + width
  }

  /** Every point is counted in a bucket of the series that covers its time. */
  lemma BucketsCoverPoints(env: Env, m: PickerMethod, points: seq<TimelinePoint>, bucketMinutes: real, p: real)
    requires bucketMinutes > 0.0 && 0.0 < p <= 100.0
    ensures var r := BucketSeries(env, m, points, bucketMinutes, p);
      forall i :: 0 <= i < |points| ==>
        exists k :: 0 <= k < |r| && InBucket(r[k], points[i].ts, BucketWidth(bucketMinutes))
  {
    var r := BucketSeries(env, m, points, bucketMinutes, p);
    forall i | 0 <= i < |points|
      ensures exists k :: 0 <= k < |r| && InBucket(r[k], points[i].ts, BucketWidth(bucketMinutes))
    {
      var k := BucketOfPoint(env, m, points, bucketMinutes, p, i);
      assert InBucket(r[k], points[i].ts, BucketWidth(bucketMinutes));
    }
  }

  /** Every bucket of the series covers the time of some point: no bucket is empty. */
  lemma BucketsHoldPoints(env: Env, m: PickerMethod, points: seq<TimelinePoint>, bucketMinutes: real, p: real)
    requires bucketMinutes > 0.0 && 0.0 < p <= 100.0
    ensures var r := BucketSeries(env, m, points, bucketMinutes, p);
      forall k :: 0 <= k < |r| ==>
        exists i :: 0 <= i < |points| && InBucket(r[k], points[i].ts, BucketWidth(bucketMinutes))
  {
    var r := BucketSeries(env, m, points, bucketMinutes, p);
    forall k | 0 <= k < |r|
      ensures exists i :: 0 <= i < |points| && InBucket(r[k], points[i].ts, BucketWidth(bucketMinutes))
    {
      var i := PointOfBucket(env, m, points, bucketMinutes, p, k);
      assert InBucket(r[k], points[i].ts, BucketWidth(bucketMinutes));
    }
  }

  /**
   * A bucket holds exactly the points whose time falls in it: its count is
   * their number and its value is the rounded percentile of their values.
   */
  lemma BucketContents(env: Env, m: PickerMethod, points: seq<TimelinePoint>, bucketMinutes: real, p: real, k: nat)
    requires bucketMinutes > 0.0 && 0.0 < p <= 100.0
    requires k < |BucketSeries(env, m, points, bucketMinutes, p)|
    ensures var b := BucketSeries(env, m, points, bucketMinutes, p)[k];
      var vals := ValuesAt(BucketPairs(points, BucketWidth(bucketMinutes)), b.start);
      vals != [] &&
      b.count == |vals| == Occ(KeysOf(BucketPairs(points, BucketWidth(bucketMinutes))), b.start) &&
      b.value == env.round6(Pick(m, SortAsc(vals), p).value)
  {
    var width := BucketWidth(bucketMinutes);
    var ps := BucketPairs(points, width);
    var starts := SortedStarts(points, width);
    var buckets := BucketMap(points, width);
    var s := starts[k];
    assert s in starts;
    assert s in buckets;
    GroupByHoldsValues(ps);
    assert buckets[s] == ValuesAt(ps, s);
    GroupsNonEmpty(ps);
    assert BucketSeries(env, m, points, bucketMinutes, p)[k] == MakeBucket(env, m, p, s, buckets[s]);
  }

  /** The counts of the buckets, added up. */
  function TotalCount(bs: seq<TimeBucket>): nat
  {
    if bs == [] then 0 else TotalCount(bs[..|bs| - 1]) + bs[|bs| - 1].count
  }

  /** The counts of the emitted buckets are the lengths of their groups. */
  lemma {:induction false} TotalCountOfEmit(env: Env, m: PickerMethod, p: real, starts: seq<real>, buckets: map<real, seq<real>>)
    requires 0.0 < p <= 100.0
    requires forall i :: 0 <= i < |starts| ==> starts[i] in buckets && buckets[starts[i]] != []
    ensures TotalCount(Emit(env, m, p, starts, buckets)) == SumLengths(starts, buckets)
  {
    if starts != [] {
      var r := Emit(env, m, p, starts, buckets);
      assert r[..|r| - 1] == Emit(env, m, p, starts[..|starts| - 1], buckets);
      TotalCountOfEmit(env, m, p, starts[..|starts| - 1], buckets);
    }
  }

  /** No point is lost or counted twice: the counts add up to the number of points. */
  lemma BucketCountsAddUp(env: Env, m: PickerMethod, points: seq<TimelinePoint>, bucketMinutes: real, p: real)
    requires bucketMinutes > 0.0 && 0.0 < p <= 100.0
    ensures TotalCount(BucketSeries(env, m, points, bucketMinutes, p)) == |points|
  {
    var width := BucketWidth(bucketMinutes);
    var ps := BucketPairs(points, width);
    var starts := SortedStarts(points, width);
    GroupByHoldsValues(ps);
    GroupsNonEmpty(ps);
    TotalCountOfEmit(env, m, p, starts, BucketMap(points, width));
    assert Distinct(starts);
    SumLengthsIsSumOcc(starts, ps);
    SumOccCovers(starts, KeysOf(ps));
  }
}
