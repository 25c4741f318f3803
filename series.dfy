/**
 * What both time-series stores share: the (timestamp, value) point, order
 * by timestamp, Python's `bisect_left` / `bisect_right` (the binary search
 * itself, over the list of timestamps the stores build before each call),
 * Python's clamping slice, and reference definitions of the selections the
 * stores compute with them.
 */
module Series {
  import opened Wrappers

  datatype Point<V> = Point(timestamp: int, value: V)

  /** `[p[0] for p in points]`. */
  function Times<V>(points: seq<Point<V>>): (r: seq<int>)
    ensures |r| == |points|
    ensures forall i :: 0 <= i < |points| ==> r[i] == points[i].timestamp
  {
    seq(|points|, i requires 0 <= i < |points| => points[i].timestamp)
  }

  predicate Sorted(a: seq<int>)
  {
    forall i, j :: 0 <= i <= j < |a| ==> a[i] <= a[j]
  }

  /** Non-decreasing by timestamp. */
  predicate SortedByTime<V>(points: seq<Point<V>>)
  {
    forall i, j :: 0 <= i <= j < |points| ==> points[i].timestamp <= points[j].timestamp
  }

  /** Sorted points give a sorted list of timestamps to bisect. */
  lemma SortedTimes<V>(points: seq<Point<V>>)
    requires SortedByTime(points)
    ensures Sorted(Times(points))
  {
    var t := Times(points);
    forall i, j | 0 <= i <= j < |t| ensures t[i] <= t[j] {
      assert points[i].timestamp <= points[j].timestamp;
    }
  }

  /** A point not earlier than any of the points can follow them. */
  lemma SortedSnoc<V>(points: seq<Point<V>>, p: Point<V>)
    requires SortedByTime(points)
    requires forall i :: 0 <= i < |points| ==> points[i].timestamp <= p.timestamp
    ensures SortedByTime(points + [p])
  {
  }

  /**
   * A point placed after every point not later than it and before every
   * point not earlier than it keeps the points sorted; nothing else changes.
   */
  lemma InsertSorted<V>(points: seq<Point<V>>, i: nat, p: Point<V>)
    requires SortedByTime(points) && i <= |points|
    requires forall j :: 0 <= j < i ==> points[j].timestamp <= p.timestamp
    requires forall j :: i <= j < |points| ==> points[j].timestamp >= p.timestamp
    ensures SortedByTime(points[..i] + [p] + points[i..])
    ensures multiset(points[..i] + [p] + points[i..]) == multiset(points) + multiset{p}
  {
    var r := points[..i] + [p] + points[i..];
    forall a, b | 0 <= a <= b < |r| ensures r[a].timestamp <= r[b].timestamp {
      if a < i && b < i {
        assert r[a] == points[a] && r[b] == points[b];
      } else if a > i && b > i {
        assert r[a] == points[a - 1] && r[b] == points[b - 1];
      } else if a < i {
        assert r[a] == points[a];
        if b > i { assert r[b] == points[b - 1]; }
      } else if b > i {
        assert r[b] == points[b - 1];
      }
    }
    assert points == points[..i] + points[i..];
  }

  /**
   * The loop of `bisect_left` between `lo` and `hi`. On sorted input it
   * keeps "everything left of lo is below x, everything from hi on is not"
   * and ends on the partition point.
   */
  function SearchLeft(a: seq<int>, x: int, lo: nat, hi: nat): (r: nat)
    requires lo <= hi <= |a|
    ensures lo <= r <= hi
    ensures Sorted(a) && (forall i :: 0 <= i < lo ==> a[i] < x) && (forall i :: hi <= i < |a| ==> a[i] >= x) ==>
              (forall i :: 0 <= i < r ==> a[i] < x) && (forall i :: r <= i < |a| ==> a[i] >= x)
    decreases hi - lo
  {
    if lo < hi then
      var mid := (lo + hi) / 2;
      if a[mid] < x then SearchLeft(a, x, mid + 1, hi) else SearchLeft(a, x, lo, mid)
    else lo
  }

  /** The loop of `bisect_right`: the same search with `<=` in place of `<`. */
  function SearchRight(a: seq<int>, x: int, lo: nat, hi: nat): (r: nat)
    requires lo <= hi <= |a|
    ensures lo <= r <= hi
    ensures Sorted(a) && (forall i :: 0 <= i < lo ==> a[i] <= x) && (forall i :: hi <= i < |a| ==> a[i] > x) ==>
              (forall i :: 0 <= i < r ==> a[i] <= x) && (forall i :: r <= i < |a| ==> a[i] > x)
    decreases hi - lo
  {
    if lo < hi then
      var mid := (lo + hi) / 2;
      if x < a[mid] then SearchRight(a, x, lo, mid) else SearchRight(a, x, mid + 1, hi)
    else lo
  }

  /** `bisect.bisect_left(a, x)`: on sorted input, the first index holding a value `>= x`. */
  function BisectLeft(a: seq<int>, x: int): (r: nat)
    ensures r <= |a|
    ensures Sorted(a) ==> (forall i :: 0 <= i < r ==> a[i] < x) && (forall i :: r <= i < |a| ==> a[i] >= x)
  {
    SearchLeft(a, x, 0, |a|)
  }

  /** `bisect.bisect_right(a, x)`: on sorted input, the first index holding a value `> x`. */
  function BisectRight(a: seq<int>, x: int): (r: nat)
    ensures r <= |a|
    ensures Sorted(a) ==> (forall i :: 0 <= i < r ==> a[i] <= x) && (forall i :: r <= i < |a| ==> a[i] > x)
  {
    SearchRight(a, x, 0, |a|)
  }

  /** Python's `s[lo:hi]` for `0 <= lo, hi <= len(s)`: empty when `lo > hi`. */
  function Slice<T>(s: seq<T>, lo: nat, hi: nat): (r: seq<T>)
    requires lo <= |s| && hi <= |s|
    ensures lo <= hi ==> r == s[lo..hi]
    ensures lo > hi ==> r == []
  {
    if lo <= hi then s[lo..hi] else []
  }

  /** A set of timestamps: from `lo` on, and up to `hi` when there is one. */
  datatype Span = Span(lo: int, hi: Option<int>)

  predicate Inside(span: Span, t: int)
  {
    span.lo <= t && (span.hi.None? || t <= span.hi.value)
  }

  /** The points whose timestamp lies in `span`, in their original order. */
  function Filter<V>(points: seq<Point<V>>, span: Span): (r: seq<Point<V>>)
    ensures |r| <= |points|
    ensures forall p :: p in r ==> p in points && Inside(span, p.timestamp)
  {
    if |points| == 0 then []
    else if Inside(span, points[0].timestamp) then [points[0]] + Filter(points[1..], span)
    else Filter(points[1..], span)
  }

  lemma {:induction false} FilterAppend<V>(a: seq<Point<V>>, b: seq<Point<V>>, span: Span)
    ensures Filter(a + b, span) == Filter(a, span) + Filter(b, span)
  {
    if |a| > 0 {
      assert (a + b)[1..] == a[1..] + b;
      FilterAppend(a[1..], b, span);
    } else {
      assert a + b == b;
    }
  }

  lemma {:induction false} FilterAll<V>(points: seq<Point<V>>, span: Span)
    requires forall i :: 0 <= i < |points| ==> Inside(span, points[i].timestamp)
    ensures Filter(points, span) == points
  {
    if |points| > 0 {
      FilterAll(points[1..], span);
    }
  }

  lemma {:induction false} FilterNone<V>(points: seq<Point<V>>, span: Span)
    requires forall i :: 0 <= i < |points| ==> !Inside(span, points[i].timestamp)
    ensures Filter(points, span) == []
  {
    if |points| > 0 {
      FilterNone(points[1..], span);
    }
  }

  /** Filtering keeps sorted points sorted. */
  lemma {:induction false} FilterSorted<V>(points: seq<Point<V>>, span: Span)
    requires SortedByTime(points)
    ensures SortedByTime(Filter(points, span))
  {
    if |points| > 0 {
      var rest := Filter(points[1..], span);
      FilterSorted(points[1..], span);
      if Inside(span, points[0].timestamp) {
        var r := [points[0]] + rest;
        forall a, b | 0 <= a <= b < |r| ensures r[a].timestamp <= r[b].timestamp {
          if a == 0 && b > 0 {
            assert r[b] == rest[b - 1] && r[b] in points;
          } else if a > 0 {
            assert r[a] == rest[a - 1] && r[b] == rest[b - 1];
          }
        }
      }
    }
  }

  lemma {:induction false} FilterMultiset<V>(points: seq<Point<V>>, span: Span)
    ensures multiset(Filter(points, span)) <= multiset(points)
  {
    if |points| > 0 {
      assert points == [points[0]] + points[1..];
      FilterMultiset(points[1..], span);
    }
  }

  /** Positions below `lo` are before the span, positions from `hi` on are after it, the rest inside. */
  lemma FilterThreeParts<V>(points: seq<Point<V>>, lo: nat, hi: nat, span: Span)
    requires lo <= hi <= |points|
    requires forall i :: 0 <= i < lo ==> points[i].timestamp < span.lo
    requires forall i :: lo <= i < hi ==> Inside(span, points[i].timestamp)
    requires forall i :: hi <= i < |points| ==> !Inside(span, points[i].timestamp)
    ensures Filter(points, span) == points[lo..hi]
  {
    var a, b, c := points[..lo], points[lo..hi], points[hi..];
    assert points == a + b + c;
    forall i | 0 <= i < |a| ensures !Inside(span, a[i].timestamp) {
      assert a[i] == points[i];
    }
    forall i | 0 <= i < |b| ensures Inside(span, b[i].timestamp) {
      assert b[i] == points[lo + i];
    }
    forall i | 0 <= i < |c| ensures !Inside(span, c[i].timestamp) {
      assert c[i] == points[hi + i];
    }
    FilterNone(a, span);
    FilterAll(b, span);
    FilterNone(c, span);
    FilterAppend(a, b, span);
    FilterAppend(a + b, c, span);
    calc {
      Filter(points, span);
      Filter(a + b, span) + Filter(c, span);
      Filter(a, span) + Filter(b, span) + Filter(c, span);
      b;
    }
  }

  /** `bisect_left` over the timestamps of sorted points, read back on the points. */
  lemma BisectLeftPoints<V>(points: seq<Point<V>>, x: int)
    requires SortedByTime(points)
    ensures var r := BisectLeft(Times(points), x);
            (forall i :: 0 <= i < r ==> points[i].timestamp < x) &&
            (forall i :: r <= i < |points| ==> points[i].timestamp >= x)
  {
    var t := Times(points);
    SortedTimes(points);
    var r := BisectLeft(t, x);
    forall i | 0 <= i < r ensures points[i].timestamp < x { assert t[i] < x; }
    forall i | r <= i < |points| ensures points[i].timestamp >= x { assert t[i] >= x; }
  }

  /** `bisect_right` over the timestamps of sorted points, read back on the points. */
  lemma BisectRightPoints<V>(points: seq<Point<V>>, x: int)
    requires SortedByTime(points)
    ensures var r := BisectRight(Times(points), x);
            (forall i :: 0 <= i < r ==> points[i].timestamp <= x) &&
            (forall i :: r <= i < |points| ==> points[i].timestamp > x)
  {
    var t := Times(points);
    SortedTimes(points);
    var r := BisectRight(t, x);
    forall i | 0 <= i < r ensures points[i].timestamp <= x { assert t[i] <= x; }
    forall i | r <= i < |points| ensures points[i].timestamp > x { assert t[i] > x; }
  }

  /**
   * On points sorted by time, the slice between `bisect_left` of the lower
   * bound and `bisect_right` of the upper bound (or the end) is exactly the
   * points inside the span.
   */
  lemma BisectSlice<V>(points: seq<Point<V>>, span: Span)
    ensures SortedByTime(points) ==>
              var lo := BisectLeft(Times(points), span.lo);
              var hi := if span.hi.Some? then BisectRight(Times(points), span.hi.value) else |points|;
              Slice(points, lo, hi) == Filter(points, span)
  {
    if !SortedByTime(points) {
      return;
    }
    var lo := BisectLeft(Times(points), span.lo);
    var hi := if span.hi.Some? then BisectRight(Times(points), span.hi.value) else |points|;
    BisectLeftPoints(points, span.lo);
    if span.hi.Some? {
      BisectRightPoints(points, span.hi.value);
    }
    if lo <= hi {
      FilterThreeParts(points, lo, hi, span);
    } else {
      FilterNone(points, span);
    }
  }

  /** Reference definition: the last point (by position) whose timestamp is at most `t`. */
  function LastAtOrBefore<V>(points: seq<Point<V>>, t: int): (r: Option<Point<V>>)
    ensures r.None? <==> forall i :: 0 <= i < |points| ==> points[i].timestamp > t
    ensures r.Some? ==> r.value in points && r.value.timestamp <= t
  {
    if |points| == 0 then None
    else if points[|points| - 1].timestamp <= t then Some(points[|points| - 1])
    else LastAtOrBefore(points[..|points| - 1], t)
  }

  lemma {:induction false} LastAtOrBeforeSuffix<V>(points: seq<Point<V>>, t: int, k: nat)
    requires k < |points| && points[k].timestamp <= t
    requires forall j :: k < j < |points| ==> points[j].timestamp > t
    ensures LastAtOrBefore(points, t) == Some(points[k])
    decreases |points|
  {
    if k < |points| - 1 {
      LastAtOrBeforeSuffix(points[..|points| - 1], t, k);
    }
  }

  /**
   * On points sorted by time, the point just left of `bisect_right` of `t`
   * is the last one at or before `t`, and there is none when that index is 0.
   */
  lemma BisectFloor<V>(points: seq<Point<V>>, t: int)
    ensures SortedByTime(points) ==>
              var r := BisectRight(Times(points), t);
              LastAtOrBefore(points, t) == if r == 0 then None else Some(points[r - 1])
  {
    var r := BisectRight(Times(points), t);
    if SortedByTime(points) {
      BisectRightPoints(points, t);
      if r > 0 {
        LastAtOrBeforeSuffix(points, t, r - 1);
      }
    }
  }
}
