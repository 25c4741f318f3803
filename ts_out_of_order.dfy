/**
 * The time-series store with an out-of-order buffer: in-order points are
 * appended to a sorted list, late points wait in a sorted dictionary keyed
 * by timestamp and are merged into the list by binary-search insertion once
 * there are more than 100 of them, or before every lookup.
 */
module TimeSeriesOutOfOrder {
  import opened Wrappers
  import opened Series
  import Sets

  /** The buffer is merged as soon as it holds more than this many entries. */
  const MergeThreshold: nat := 100

  /** The buffered entries under `keys`, as points. */
  ghost function Entries<V>(buffer: map<int, V>, keys: set<int>): multiset<Point<V>>
  {
    multiset(set k | k in keys && k in buffer :: Point(k, buffer[k]))
  }

  /** One more key taken out of the buffer adds exactly its point. */
  lemma EntriesAdd<V>(buffer: map<int, V>, keys: set<int>, k: int)
    requires k in buffer && k !in keys
    ensures Entries(buffer, keys + {k}) == Entries(buffer, keys) + multiset{Point(k, buffer[k])}
  {
    var before := set j | j in keys && j in buffer :: Point(j, buffer[j]);
    var after := set j | j in keys + {k} && j in buffer :: Point(j, buffer[j]);
    assert Point(k, buffer[k]) !in before;
    assert after == before + {Point(k, buffer[k])};
  }

  /**
   * Inserting a point at its `bisect_left` position keeps the points sorted
   * and adds exactly that point.
   */
  lemma InsertAtBisect<V>(points: seq<Point<V>>, p: Point<V>)
    requires SortedByTime(points)
    ensures var i := BisectLeft(Times(points), p.timestamp);
            var r := points[..i] + [p] + points[i..];
            SortedByTime(r) && multiset(r) == multiset(points) + multiset{p} && |r| == |points| + 1
  {
    var i := BisectLeft(Times(points), p.timestamp);
    BisectLeftPoints(points, p.timestamp);
    InsertSorted(points, i, p);
  }

  class Store<V> {
    /** `points`: the merged (timestamp, value) list. */
    var points: seq<Point<V>>
    /** `buffer`: late values by timestamp, one per timestamp. */
    var buffer: map<int, V>

    ghost predicate Valid()
      reads this
    {
      SortedByTime(points)
    }

    constructor ()
      ensures Valid() && points == [] && buffer == map[]
    {
      points := [];
      buffer := map[];
    }

    /**
     * `_merge_buffer`: each buffered entry, in ascending timestamp order, is
     * inserted at its `bisect_left` position; then the buffer is cleared.
     */
    method MergeBuffer()
      requires Valid()
      modifies this`points, this`buffer
      ensures Valid() && buffer == map[]
      ensures |points| == |old(points)| + |old(buffer)|
      ensures multiset(points) == multiset(old(points)) + Entries(old(buffer), old(buffer).Keys)
    {
      var remaining := buffer.Keys;
      ghost var done: set<int> := {};
      while remaining != {}
        invariant buffer == old(buffer)
        invariant remaining + done == buffer.Keys && remaining !! done
        invariant SortedByTime(points)
        invariant |points| == |old(points)| + |done|
        invariant multiset(points) == multiset(old(points)) + Entries(buffer, done)
        decreases |remaining|
      {
        // `Least` only supplies the witness the choice below needs: the smallest key left.
        ghost var least := Sets.Least(remaining);
        var ts :| ts in remaining && forall k :: k in remaining ==> ts <= k;
        var p := Point(ts, buffer[ts]);
        InsertAtBisect(points, p);
        EntriesAdd(buffer, done, ts);
        var index := BisectLeft(Times(points), ts);
        points := points[..index] + [p] + points[index..];
        remaining := remaining - {ts};
        done := done + {ts};
      }
      assert done == buffer.Keys && |buffer.Keys| == |buffer|;
      buffer := map[];
    }

    /**
     * `insert(timestamp, value)`: append when the list is empty or the point
     * is not older than the last one; otherwise buffer it (a later value for
     * the same timestamp replaces the earlier) and merge once the buffer
     * holds more than 100 entries.
     */
    method Insert(timestamp: int, value: V)
      requires Valid()
      modifies this`points, this`buffer
      ensures Valid()
      ensures |old(points)| == 0 || timestamp >= old(points)[|old(points)| - 1].timestamp ==>
                points == old(points) + [Point(timestamp, value)] && buffer == old(buffer)
      ensures |old(points)| > 0 && timestamp < old(points)[|old(points)| - 1].timestamp ==>
                var pending := old(buffer)[timestamp := value];
                if |pending| > MergeThreshold then
                  buffer == map[] && |points| == |old(points)| + |pending| &&
                  multiset(points) == multiset(old(points)) + Entries(pending, pending.Keys)
                else
                  buffer == pending && points == old(points)
    {
      if |points| == 0 || timestamp >= points[|points| - 1].timestamp {
        points := points + [Point(timestamp, value)];
      } else {
        buffer := buffer[timestamp := value];
        if |buffer| > MergeThreshold {
          MergeBuffer();
        }
      }
    }

    /**
     * `get_latest_before_or_equal(timestamp)`: merges the buffer, then
     * returns the last point at or before `timestamp`, or None.
     */
    method GetLatestBeforeOrEqual(timestamp: int) returns (r: Option<Point<V>>)
      requires Valid()
      modifies this`points, this`buffer
      ensures Valid() && buffer == map[]
      ensures |points| == |old(points)| + |old(buffer)|
      ensures multiset(points) == multiset(old(points)) + Entries(old(buffer), old(buffer).Keys)
      ensures r == LastAtOrBefore(points, timestamp)
    {
      MergeBuffer();
      if |points| == 0 {
        return None;
      }
      BisectFloor(points, timestamp);
      var index := BisectRight(Times(points), timestamp) - 1;
      if index < 0 {
        return None;
      }
      return Some(points[index]);
    }

    /** `expire_before(cutoff)`: drops the points older than `cutoff`; the buffer is untouched. */
    method ExpireBefore(cutoff: int)
      requires Valid()
      modifies this`points
      ensures Valid()
      ensures points == Filter(old(points), Span(cutoff, None)) && buffer == old(buffer)
    {
      BisectSlice(points, Span(cutoff, None));
      var index := BisectLeft(Times(points), cutoff);
      points := points[index..];
    }

    /** `size()`: the merged points only, not the buffered ones. */
    method Size() returns (n: nat)
      requires Valid()
      ensures n == |points|
    {
      n := |points|;
    }
  }
}
