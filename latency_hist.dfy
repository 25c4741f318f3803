/**
 * The bucketed latency histogram: fixed-width buckets counting samples, a
 * running sample total, a percentile read off the cumulative counts with
 * linear interpolation inside the chosen bucket, and a reset that hands back
 * the old counts. Latencies are non-negative whole milliseconds; the
 * percentile and its result are reals.
 */
module LatencyHistogram {

  /** Sum of the bucket counts. */
  function Sum(counts: seq<nat>): nat
  {
    if |counts| == 0 then 0 else Sum(counts[..|counts| - 1]) + counts[|counts| - 1]
  }

  lemma SumPrefix(counts: seq<nat>, i: nat)
    requires i < |counts|
    ensures Sum(counts[..i + 1]) == Sum(counts[..i]) + counts[i]
  {
    assert counts[..i + 1][..i] == counts[..i];
  }

  /** Raising one count by one raises the sum by one. */
  lemma {:induction false} SumIncrement(counts: seq<nat>, i: nat)
    requires i < |counts|
    ensures Sum(counts[i := counts[i] + 1]) == Sum(counts) + 1
    decreases |counts|
  {
    var n := |counts| - 1;
    var after := counts[i := counts[i] + 1];
    if i < n {
      assert after[..n] == counts[..n][i := counts[i] + 1];
      SumIncrement(counts[..n], i);
    } else {
      assert after[..n] == counts[..n];
    }
  }

  lemma {:induction false} SumZeros(n: nat)
    ensures Sum(seq(n, _ => 0)) == 0
  {
    if n > 0 {
      assert seq(n, _ => 0)[..n - 1] == seq(n - 1, _ => 0);
      SumZeros(n - 1);
    }
  }

  /** `math.ceil(a / b)` for whole numbers. */
  function CeilDiv(a: nat, b: nat): (q: nat)
    requires b > 0
    ensures q * b >= a && (q == 0 || (q - 1) * b < a)
  {
    var q := (a + b - 1) / b;
    assert q * b <= a + b - 1 < (q + 1) * b;
    q
  }

  /**
   * Bucket `i` is the first whose cumulative count reaches `target`: the
   * counts up to and including it reach it, and no shorter prefix does.
   */
  ghost predicate FirstReaching(counts: seq<nat>, target: real, i: nat)
  {
    i < |counts| && Cumulative(counts, i) as real >= target &&
    forall j :: 0 <= j < i ==> (Cumulative(counts, j) as real) < target
  }

  /**
   * A percentile answer `ms` read from bucket `i`: the first bucket to
   * reach the target, `ms` within its edges, and exactly its lower edge
   * when every earlier bucket is empty.
   */
  ghost predicate FromBucket(counts: seq<nat>, target: real, width: nat, i: nat, ms: real)
  {
    FirstReaching(counts, target, i) &&
    (i * width) as real <= ms <= ((i + 1) * width) as real &&
    (Sum(counts[..i]) == 0 ==> ms == (i * width) as real)
  }

  /** The count of buckets 0 through `i`. */
  function Cumulative(counts: seq<nat>, i: nat): nat
    requires i < |counts|
  {
    Sum(counts[..i + 1])
  }

  /** One bucket further along, the running count grows by that bucket; the last reaches the total. */
  lemma CumulativeStep(counts: seq<nat>, i: nat)
    requires i < |counts|
    ensures Cumulative(counts, i) == Sum(counts[..i]) + counts[i]
    ensures i + 1 == |counts| ==> Cumulative(counts, i) == Sum(counts)
  {
    SumPrefix(counts, i);
    assert counts[..|counts|] == counts;
  }

  /**
   * The interpolated offset into a bucket: the share of the bucket's count
   * needed to reach the target, times the width, lies within the bucket.
   */
  lemma InterpolationWithin(below: real, bucketCount: real, target: real, width: real)
    requires 0.0 <= below < target <= below + bucketCount && width >= 0.0
    ensures 0.0 <= (target - below) / bucketCount * width <= width
  {
    var fraction := (target - below) / bucketCount;
    assert fraction * bucketCount == target - below;
    assert 0.0 < fraction <= 1.0;
  }

  /** A share of at most the whole is at most the whole. */
  lemma ShareAtMost(total: real, share: real)
    requires total >= 0.0 && 0.0 <= share <= 1.0
    ensures 0.0 <= total * share <= total
  {
  }

  /** `total_samples * (percentile / 100)`: how many samples the percentile must cover. */
  function Target(total: nat, percentile: real): real
  {
    total as real * (percentile / 100.0)
  }

  datatype Percentile = ValueError | NoSamples | Value(ms: real)

  class Analyzer {
    const bucketWidth: nat
    const numBuckets: nat
    var buckets: array<nat>
    var totalSamples: nat

    /** There are `numBuckets` buckets and their counts add up to the sample total. */
    ghost predicate Valid()
      reads this, buckets
    {
      bucketWidth > 0 && buckets.Length == numBuckets && Sum(buckets[..]) == totalSamples
    }

    /** `LatencyAnalyzer(bucket_size_ms, max_latency_ms)`. */
    constructor (bucketSize: nat, maxLatency: nat)
      requires bucketSize > 0
      ensures Valid() && fresh(buckets)
      ensures bucketWidth == bucketSize && numBuckets == CeilDiv(maxLatency, bucketSize)
      ensures buckets[..] == seq(numBuckets, _ => 0) && totalSamples == 0
    {
      bucketWidth := bucketSize;
      numBuckets := CeilDiv(maxLatency, bucketSize);
      buckets := new nat[CeilDiv(maxLatency, bucketSize)](_ => 0);
      totalSamples := 0;
      new;
      assert buckets[..] == seq(numBuckets, _ => 0);
      SumZeros(numBuckets);
    }

    /** The bucket a latency falls in: its width multiple, capped at the last bucket. */
    function BucketOf(latency: nat): (b: int)
      reads this
      requires bucketWidth > 0
      ensures numBuckets > 0 ==> 0 <= b < numBuckets
      ensures numBuckets > 0 && latency / bucketWidth < numBuckets ==>
                b * bucketWidth <= latency < (b + 1) * bucketWidth
      ensures numBuckets > 0 && latency / bucketWidth >= numBuckets ==> b == numBuckets - 1
    {
      var b := latency / bucketWidth;
      if b < numBuckets - 1 then b else numBuckets - 1
    }

    /**
     * `record(latency_ms)`: one more sample in its bucket. With no buckets
     * the index is -1 on an empty list, which raises IndexError
     * (`raised`) and changes nothing.
     */
    method Record(latency: nat) returns (raised: bool)
      requires Valid()
      modifies buckets, this`totalSamples
      ensures Valid()
      ensures raised <==> numBuckets == 0
      ensures raised ==> buckets[..] == old(buckets[..]) && totalSamples == old(totalSamples)
      ensures !raised ==> var b := BucketOf(latency);
                buckets[..] == old(buckets[..])[b := old(buckets[b]) + 1] && totalSamples == old(totalSamples) + 1
    {
      if numBuckets == 0 {
        return true;
      }
      var b := BucketOf(latency);
      SumIncrement(buckets[..], b);
      buckets[b] := buckets[b] + 1;
      totalSamples := totalSamples + 1;
      return false;
    }

    /**
     * `get_percentile(percentile)`: ValueError outside [0, 100], None with no
     * samples; otherwise the first bucket whose cumulative count reaches
     * `total * percentile / 100`, interpolated within that bucket.
     */
    method GetPercentile(percentile: real) returns (r: Percentile)
      requires Valid()
      ensures r == ValueError <==> !(0.0 <= percentile <= 100.0)
      ensures r == NoSamples <==> 0.0 <= percentile <= 100.0 && totalSamples == 0
      ensures r.Value? ==>
                exists i: nat :: FromBucket(buckets[..], Target(totalSamples, percentile), bucketWidth, i, r.ms)
    {
      if !(0.0 <= percentile <= 100.0) {
        return ValueError;
      }
      if totalSamples == 0 {
        return NoSamples;
      }
      var target := Target(totalSamples, percentile);
      ShareAtMost(totalSamples as real, percentile / 100.0);
      var i, below := FindBucket(target);
      CumulativeStep(buckets[..], i);
      r := Interpolate(i, below, buckets[i], target);
      assert FromBucket(buckets[..], target, bucketWidth, i, r.ms);
    }

    /**
     * The scan of `get_percentile`: the first bucket whose cumulative count
     * reaches `target`, and the count of the buckets before it. Some bucket
     * does, because the last one's cumulative count is the whole total.
     */
    method FindBucket(target: real) returns (i: nat, below: nat)
      requires Valid() && totalSamples > 0 && target <= totalSamples as real
      ensures FirstReaching(buckets[..], target, i) && below == Sum(buckets[..][..i])
      ensures below as real < target || below == 0
    {
      ghost var counts := buckets[..];
      assert numBuckets == 0 ==> counts == [];
      i, below := 0, 0;
      var count: nat := 0;
      for k := 0 to numBuckets
        invariant k < numBuckets
        invariant count == Sum(counts[..k])
        invariant forall j :: 0 <= j < k ==> (Cumulative(counts, j) as real) < target
      {
        CumulativeStep(counts, k);
        var reached := count + buckets[k];
        if reached as real >= target {
          assert k > 0 ==> Cumulative(counts, k - 1) == count;
          return k, count;
        }
        count := reached;
      }
      assert false;
    }

    /**
     * The value returned once bucket `i` is the first to reach `target`:
     * its lower edge when nothing lies below it, otherwise the lower edge
     * plus the needed share of the bucket's width.
     */
    function Interpolate(i: nat, below: nat, bucketCount: nat, target: real): (r: Percentile)
      reads this
      requires target <= (below + bucketCount) as real && (below > 0 ==> below as real < target)
      ensures r.Value? && (i * bucketWidth) as real <= r.ms <= ((i + 1) * bucketWidth) as real
      ensures below == 0 ==> r.ms == (i * bucketWidth) as real
    {
      var lowerBound := i * bucketWidth;
      assert ((i + 1) * bucketWidth) as real == lowerBound as real + bucketWidth as real;
      if below == 0 then Value(lowerBound as real)
      else
        InterpolationWithin(below as real, bucketCount as real, target, bucketWidth as real);
        var fraction := (target - below as real) / bucketCount as real;
        Value(lowerBound as real + fraction * bucketWidth as real)
    }

    /** `reset()`: hands back the old counts and starts every bucket again from zero. */
    method Reset() returns (snapshot: seq<nat>)
      requires Valid()
      modifies this`buckets, this`totalSamples
      ensures Valid() && fresh(buckets)
      ensures snapshot == old(buckets[..]) && Sum(snapshot) == old(totalSamples)
      ensures buckets[..] == seq(numBuckets, _ => 0) && totalSamples == 0
    {
      snapshot := buckets[..];
      buckets := new nat[numBuckets](_ => 0);
      totalSamples := 0;
      assert buckets[..] == seq(numBuckets, _ => 0);
      SumZeros(numBuckets);
    }
  }
  /** The outcome of `LatencyAnalyzer(...)`: a zero bucket width raises `ZeroDivisionError`. */
  datatype Construction = ZeroDivisionError | Built(analyzer: Analyzer)

  /** `LatencyAnalyzer(bucket_size_ms, max_latency_ms)`, including the division by the width. */
  method Create(bucketSize: nat, maxLatency: nat) returns (r: Construction)
    ensures r.ZeroDivisionError? <==> bucketSize == 0
    ensures r.Built? ==>
              r.analyzer.Valid() && fresh(r.analyzer) && fresh(r.analyzer.buckets) &&
              r.analyzer.bucketWidth == bucketSize &&
              r.analyzer.numBuckets == CeilDiv(maxLatency, bucketSize) &&
              r.analyzer.buckets[..] == seq(r.analyzer.numBuckets, _ => 0) &&
              r.analyzer.totalSamples == 0
  {
    if bucketSize == 0 {
      return ZeroDivisionError;
    }
    var a := new Analyzer(bucketSize, maxLatency);
    return Built(a);
  }

  /** `LatencyAnalyzer()` with its default arguments: 1 ms buckets up to 1000 ms. */
  method CreateDefault() returns (a: Analyzer)
    ensures a.Valid() && fresh(a) && fresh(a.buckets)
    ensures a.bucketWidth == 1 && a.numBuckets == 1000
    ensures a.buckets[..] == seq(1000, _ => 0) && a.totalSamples == 0
  {
    a := new Analyzer(1, 1000);
  }
}
