/**
 * The time-series store with a reader snapshot: writers append to (or, for
 * a late point, insort into) an active list and remember the last in-order
 * timestamp; past 1000 points the active list becomes the frozen snapshot
 * that lookups read. Timestamps are integers and values reals; the
 * "minus infinity" start of `_last_timestamp` is `None`.
 */
module TimeSeriesSnapshot {
  import opened Wrappers
  import opened Series

  /** `_active` is frozen once it holds more than this many points. */
  const SwapThreshold: nat := 1000

  type Sample = Point<real>

  /** Python's order on `Point` tuples: by timestamp, then by value. */
  predicate TupleLess(a: Sample, b: Sample)
  {
    a.timestamp < b.timestamp || (a.timestamp == b.timestamp && a.value < b.value)
  }

  /**
   * The loop of `bisect.insort` (that is, `insort_right`) between `lo` and
   * `hi`, comparing whole tuples. On a list sorted by timestamp alone it
   * still ends between the points not later and the points not earlier.
   */
  function InsortSearch(a: seq<Sample>, x: Sample, lo: nat, hi: nat): (r: nat)
    requires lo <= hi <= |a|
    ensures lo <= r <= hi
    ensures SortedByTime(a) &&
            (forall i :: 0 <= i < lo ==> a[i].timestamp <= x.timestamp) &&
            (forall i :: hi <= i < |a| ==> a[i].timestamp >= x.timestamp) ==>
              (forall i :: 0 <= i < r ==> a[i].timestamp <= x.timestamp) &&
              (forall i :: r <= i < |a| ==> a[i].timestamp >= x.timestamp)
    decreases hi - lo
  {
    if lo < hi then
      var mid := (lo + hi) / 2;
      if TupleLess(x, a[mid]) then InsortSearch(a, x, lo, mid) else InsortSearch(a, x, mid + 1, hi)
    else lo
  }

  lemma InsortPlaces(a: seq<Sample>, x: Sample, i: nat)
    requires i == InsortSearch(a, x, 0, |a|)
    ensures multiset(a[..i] + [x] + a[i..]) == multiset(a) + multiset{x}
    ensures SortedByTime(a) ==> SortedByTime(a[..i] + [x] + a[i..])
  {
    assert a == a[..i] + a[i..];
    if SortedByTime(a) {
      InsertSorted(a, i, x);
    }
  }

  /** `bisect.insort(a, x)`: adds `x` once and keeps a time-sorted list time-sorted. */
  function Insort(a: seq<Sample>, x: Sample): (r: seq<Sample>)
    ensures |r| == |a| + 1
    ensures multiset(r) == multiset(a) + multiset{x}
    ensures SortedByTime(a) ==> SortedByTime(r)
  {
    var i := InsortSearch(a, x, 0, |a|);
    InsortPlaces(a, x, i);
    a[..i] + [x] + a[i..]
  }

  /** Every point of the result is `x` or one of the points of `a`. */
  lemma InsortMembers(a: seq<Sample>, x: Sample)
    ensures forall y :: y in Insort(a, x) ==> y == x || y in a
  {
    var r := Insort(a, x);
    forall y | y in r ensures y == x || y in a {
      assert y in multiset(r);
    }
  }

  /** Places `p` after every point not later than it: one step of a stable sort. */
  function InsertByTime(sorted: seq<Sample>, p: Sample): (r: seq<Sample>)
    ensures multiset(r) == multiset(sorted) + multiset{p} && |r| == |sorted| + 1
    decreases |sorted|
  {
    if |sorted| == 0 then [p]
    else
      var n := |sorted| - 1;
      assert sorted == sorted[..n] + [sorted[n]];
      if sorted[n].timestamp <= p.timestamp then sorted + [p]
      else InsertByTime(sorted[..n], p) + [sorted[n]]
  }

  /** Every point of the result is `p` or one of the sorted points. */
  lemma InsertByTimeMembers(sorted: seq<Sample>, p: Sample)
    ensures forall x :: x in InsertByTime(sorted, p) ==> x == p || x in sorted
  {
    var r := InsertByTime(sorted, p);
    forall x | x in r ensures x == p || x in sorted {
      assert x in multiset(r);
    }
  }

  lemma {:induction false} InsertByTimeSorted(sorted: seq<Sample>, p: Sample)
    requires SortedByTime(sorted)
    ensures SortedByTime(InsertByTime(sorted, p))
    decreases |sorted|
  {
    if |sorted| > 0 {
      var n := |sorted| - 1;
      if sorted[n].timestamp > p.timestamp {
        var front := InsertByTime(sorted[..n], p);
        InsertByTimeSorted(sorted[..n], p);
        InsertByTimeMembers(sorted[..n], p);
        forall i | 0 <= i < |front| ensures front[i].timestamp <= sorted[n].timestamp {
          assert front[i] in front;
          if front[i] != p {
            var k :| 0 <= k < n && sorted[..n][k] == front[i];
            assert sorted[k] == front[i];
          }
        }
        SortedSnoc(front, sorted[n]);
        assert InsertByTime(sorted, p) == front + [sorted[n]];
      } else {
        SortedSnoc(sorted, p);
        assert InsertByTime(sorted, p) == sorted + [p];
      }
    }
  }

  /** Python's `sorted(points, key=timestamp)`: a stable sort by timestamp. */
  function SortByTime(points: seq<Sample>): (r: seq<Sample>)
    ensures multiset(r) == multiset(points) && |r| == |points|
    decreases |points|
  {
    if |points| == 0 then []
    else
      var n := |points| - 1;
      assert points == points[..n] + [points[n]];
      InsertByTime(SortByTime(points[..n]), points[n])
  }

  lemma {:induction false} SortByTimeSorted(points: seq<Sample>)
    ensures SortedByTime(SortByTime(points))
    decreases |points|
  {
    if |points| > 0 {
      var n := |points| - 1;
      SortByTimeSorted(points[..n]);
      InsertByTimeSorted(SortByTime(points[..n]), points[n]);
    }
  }

  /** The store's three fields as one value. */
  datatype Snapshot = Snapshot(active: seq<Sample>, frozen: seq<Sample>, last: Option<int>)

  /**
   * What the writer relies on: both lists sorted by time, and every active
   * point at or before the last in-order timestamp (none while it is unset).
   */
  predicate Coherent(s: Snapshot)
  {
    SortedByTime(s.active) && SortedByTime(s.frozen) &&
    (s.last.None? ==> s.active == []) &&
    (s.last.Some? ==> forall i :: 0 <= i < |s.active| ==> s.active[i].timestamp <= s.last.value)
  }

  /** Does a point at `ts` count as in order? (`timestamp >= _last_timestamp`) */
  predicate InOrder(s: Snapshot, ts: int)
  {
    s.last.None? || ts >= s.last.value
  }

  /**
   * `insert(timestamp, value)` on the fields: an in-order point is appended
   * and becomes the last timestamp, a late one is insorted; then, past the
   * threshold, the grown list replaces the snapshot and the active list
   * starts empty.
   */
  function InsertStep(s: Snapshot, ts: int, v: real): (r: Snapshot)
    ensures r.last == if InOrder(s, ts) then Some(ts) else s.last
    ensures |s.active| + 1 > SwapThreshold ==>
              r.active == [] && multiset(r.frozen) == multiset(s.active) + multiset{Point(ts, v)} &&
              (InOrder(s, ts) ==> r.frozen == s.active + [Point(ts, v)])
    ensures |s.active| + 1 <= SwapThreshold ==>
              r.frozen == s.frozen && multiset(r.active) == multiset(s.active) + multiset{Point(ts, v)} &&
              (InOrder(s, ts) ==> r.active == s.active + [Point(ts, v)])
  {
    var p := Point(ts, v);
    var grown := if InOrder(s, ts) then s.active + [p] else Insort(s.active, p);
    var last := if InOrder(s, ts) then Some(ts) else s.last;
    if |grown| > SwapThreshold then Snapshot([], grown, last) else Snapshot(grown, s.frozen, last)
  }

  /** Inserting keeps both lists sorted and the last timestamp an upper bound of the active list. */
  lemma InsertKeepsCoherent(s: Snapshot, ts: int, v: real)
    requires Coherent(s)
    ensures Coherent(InsertStep(s, ts, v))
  {
    var p := Point(ts, v);
    if InOrder(s, ts) {
      var grown := s.active + [p];
      assert SortedByTime(grown);
    } else {
      var grown := Insort(s.active, p);
      InsortMembers(s.active, p);
      forall i | 0 <= i < |grown| ensures grown[i].timestamp <= s.last.value {
        assert grown[i] in grown;
        if grown[i] != p {
          var k :| 0 <= k < |s.active| && s.active[k] == grown[i];
        }
      }
    }
  }

  /** `max(timestamps, default=-inf)`. */
  function MaxTimestamp(points: seq<Sample>): (r: Option<int>)
    ensures r.None? <==> |points| == 0
    ensures r.Some? ==> forall i :: 0 <= i < |points| ==> points[i].timestamp <= r.value
    ensures r.Some? ==> exists i :: 0 <= i < |points| && points[i].timestamp == r.value
  {
    if |points| == 0 then None
    else
      var rest := MaxTimestamp(points[1..]);
      if rest.Some? && rest.value > points[0].timestamp then
        assert forall i :: 1 <= i < |points| ==> points[i] == points[1..][i - 1];
        rest
      else
        assert forall i :: 1 <= i < |points| ==> points[i] == points[1..][i - 1];
        Some(points[0].timestamp)
  }

  /** `min(timestamps, default=-inf)`, as line 64 computes it. */
  function MinTimestamp(points: seq<Sample>): (r: Option<int>)
    ensures r.None? <==> |points| == 0
    ensures r.Some? ==> forall i :: 0 <= i < |points| ==> r.value <= points[i].timestamp
    ensures r.Some? ==> exists i :: 0 <= i < |points| && points[i].timestamp == r.value
  {
    if |points| == 0 then None
    else
      var rest := MinTimestamp(points[1..]);
      if rest.Some? && rest.value < points[0].timestamp then
        assert forall i :: 1 <= i < |points| ==> points[i] == points[1..][i - 1];
        rest
      else
        assert forall i :: 1 <= i < |points| ==> points[i] == points[1..][i - 1];
        Some(points[0].timestamp)
  }

  /**
   * `expire_before(cutoff)` as written: drops the points older than
   * `cutoff` from both lists and resets the last timestamp to the LEAST
   * remaining active timestamp.
   */
  function ExpireAsWritten(s: Snapshot, cutoff: int): (r: Snapshot)
    ensures r.active == Filter(s.active, Span(cutoff, None)) && r.frozen == Filter(s.frozen, Span(cutoff, None))
    ensures r.last.None? <==> r.active == []
    ensures r.last.Some? ==> forall i :: 0 <= i < |r.active| ==> r.last.value <= r.active[i].timestamp
  {
    var active := Filter(s.active, Span(cutoff, None));
    Snapshot(active, Filter(s.frozen, Span(cutoff, None)), MinTimestamp(active))
  }

  /**
   * With the least timestamp as the reset value, an insert that is later
   * than it but earlier than the newest active point is appended, and the
   * active list is no longer sorted.
   */
  lemma MinResetBreaksOrder()
    ensures var s := Snapshot([Point(1, 0.0), Point(5, 0.0)], [], Some(5));
            var e := ExpireAsWritten(s, 0);
            Coherent(s) && e.last == Some(1) && InOrder(e, 3) &&
            !SortedByTime(InsertStep(e, 3, 0.0).active)
  {
    var s := Snapshot([Point(1, 0.0), Point(5, 0.0)], [], Some(5));
    assert Coherent(s);
    ExpireExample();
    InsertAfterMinReset();
  }

  /** Expiring nothing resets the last timestamp to the least one, 1. */
  lemma ExpireExample()
    ensures ExpireAsWritten(Snapshot([Point(1, 0.0), Point(5, 0.0)], [], Some(5)), 0) ==
            Snapshot([Point(1, 0.0), Point(5, 0.0)], [], Some(1))
  {
    var s := Snapshot([Point(1, 0.0), Point(5, 0.0)], [], Some(5));
    FilterAll(s.active, Span(0, None));
    FilterAll(s.frozen, Span(0, None));
    var e := ExpireAsWritten(s, 0);
    assert e.active == [Point(1, 0.0), Point(5, 0.0)];
    assert e.last.value <= e.active[0].timestamp;
  }

  /** After that reset, 3 counts as in order and is appended after 5. */
  lemma InsertAfterMinReset()
    ensures var e := Snapshot([Point(1, 0.0), Point(5, 0.0)], [], Some(1));
            InOrder(e, 3) && !SortedByTime(InsertStep(e, 3, 0.0).active)
  {
    var e := Snapshot([Point(1, 0.0), Point(5, 0.0)], [], Some(1));
    var after := InsertStep(e, 3, 0.0).active;
    assert after == [Point(1, 0.0), Point(5, 0.0), Point(3, 0.0)];
    assert after[1].timestamp > after[2].timestamp;
  }


  /**
   * `expire_before(cutoff)` with the reset corrected: the last timestamp
   * becomes the GREATEST remaining active timestamp, or unset.
   */
  function Expire(s: Snapshot, cutoff: int): (r: Snapshot)
    ensures r.active == Filter(s.active, Span(cutoff, None)) && r.frozen == Filter(s.frozen, Span(cutoff, None))
    ensures r.last.None? <==> r.active == []
    ensures r.last.Some? ==> forall i :: 0 <= i < |r.active| ==> r.active[i].timestamp <= r.last.value
  {
    var active := Filter(s.active, Span(cutoff, None));
    Snapshot(active, Filter(s.frozen, Span(cutoff, None)), MaxTimestamp(active))
  }

  /** Expiring (with the corrected reset) keeps the store coherent. */
  lemma ExpireKeepsCoherent(s: Snapshot, cutoff: int)
    requires Coherent(s)
    ensures Coherent(Expire(s, cutoff))
  {
    FilterSorted(s.active, Span(cutoff, None));
    FilterSorted(s.frozen, Span(cutoff, None));
  }

  class Store {
    var active: seq<Sample>
    var frozen: seq<Sample>
    var last: Option<int>

    function State(): Snapshot
      reads this
    {
      Snapshot(active, frozen, last)
    }

    ghost predicate Valid()
      reads this
    {
      Coherent(State())
    }

    constructor ()
      ensures Valid() && State() == Snapshot([], [], None)
    {
      active, frozen, last := [], [], None;
    }

    /** `insert(timestamp, value)`. */
    method Insert(timestamp: int, value: real)
      requires Valid()
      modifies this
      ensures Valid() && State() == InsertStep(old(State()), timestamp, value)
    {
      InsertKeepsCoherent(State(), timestamp, value);
      if last.None? || timestamp >= last.value {
        active := active + [Point(timestamp, value)];
        last := Some(timestamp);
      } else {
        active := Insort(active, Point(timestamp, value));
      }
      if |active| > SwapThreshold {
        frozen := active;
        active := [];
      }
    }

    /**
     * `get_latest_before_or_equal(timestamp)`: reads the snapshot only;
     * the last snapshot point at or before `timestamp`, or None.
     */
    function GetLatestBeforeOrEqual(timestamp: int): (r: Option<Sample>)
      reads this
      ensures SortedByTime(frozen) ==> r == LastAtOrBefore(frozen, timestamp)
    {
      BisectFloor(frozen, timestamp);
      if |frozen| == 0 then None
      else
        var idx := BisectRight(Times(frozen), timestamp);
        if idx == 0 then None else Some(frozen[idx - 1])
    }

    /**
     * `get_range(start, end)`: the points of both lists with
     * `start <= timestamp <= end`, sorted by timestamp.
     */
    function GetRange(start: int, end: int): (r: seq<Sample>)
      reads this
      ensures SortedByTime(r)
      ensures SortedByTime(frozen) && SortedByTime(active) ==>
                r == SortByTime(Filter(frozen, Span(start, Some(end))) + Filter(active, Span(start, Some(end))))
      ensures SortedByTime(frozen) && SortedByTime(active) ==>
                multiset(r) == multiset(Filter(frozen, Span(start, Some(end)))) +
                               multiset(Filter(active, Span(start, Some(end))))
    {
      if |frozen| == 0 && |active| == 0 then []
      else
        var ft := Times(frozen);
        var fromFrozen := Slice(frozen, BisectLeft(ft, start), BisectRight(ft, end));
        var at := Times(active);
        var fromActive := Slice(active, BisectLeft(at, start), BisectRight(at, end));
        BisectSlice(frozen, Span(start, Some(end)));
        BisectSlice(active, Span(start, Some(end)));
        SortByTimeSorted(fromFrozen + fromActive);
        SortByTime(fromFrozen + fromActive)
    }

    /** `expire_before(cutoff)`, with the corrected reset of the last timestamp. */
    method ExpireBefore(cutoff: int)
      requires Valid()
      modifies this
      ensures Valid() && State() == Expire(old(State()), cutoff)
    {
      ExpireKeepsCoherent(State(), cutoff);
      active := Filter(active, Span(cutoff, None));
      frozen := Filter(frozen, Span(cutoff, None));
      last := MaxTimestamp(active);
    }

    /** `size()`: the snapshot's points only. */
    function Size(): (n: nat)
      reads this
      ensures n == |State().frozen|
    {
      |frozen|
    }
  }
}
