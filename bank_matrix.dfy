/**
 * The transitive-closure prototype of proactive deadlock detection: thread
 * ids are mapped to slots of a fixed `maxThreads x maxThreads` 0/1 wait-for
 * matrix (modelled as booleans); a cycle is found by running Warshall's
 * algorithm in place on a copy of the first `nextIndex` rows and columns and
 * looking for a set diagonal entry.
 */
module BankMatrix {
  import opened Ledger
  import opened Wrappers
  import Sets

  /** A square boolean matrix as rows. */
  type Matrix = seq<seq<bool>>

  ghost predicate Square(m: Matrix)
  {
    forall i :: 0 <= i < |m| ==> |m[i]| == |m|
  }

  /**
   * Warshall's recurrence: `i` reaches `j` in at least one step using only
   * intermediate slots below `k`.
   */
  ghost function Reach(m: Matrix, k: nat, i: nat, j: nat): bool
    requires Square(m) && k <= |m| && i < |m| && j < |m|
    decreases k
  {
    if k == 0 then m[i][j]
    else Reach(m, k - 1, i, j) || (Reach(m, k - 1, i, k - 1) && Reach(m, k - 1, k - 1, j))
  }

  /** A walk of at least one step along set entries of `m`. */
  ghost predicate IsPath(m: Matrix, p: seq<nat>)
    requires Square(m)
  {
    |p| >= 2 && (forall t :: 0 <= t < |p| ==> p[t] < |m|) &&
    forall t :: 0 <= t < |p| - 1 ==> m[p[t]][p[t + 1]]
  }

  /** Every slot strictly inside the walk is below `k`. */
  ghost predicate InteriorBelow(p: seq<nat>, k: nat)
  {
    forall t :: 0 < t < |p| - 1 ==> p[t] < k
  }

  /** Some walk from `i` to `j` passes only through slots below `k`. */
  ghost predicate PathVia(m: Matrix, k: nat, i: nat, j: nat)
    requires Square(m)
  {
    exists p :: IsPath(m, p) && p[0] == i && p[|p| - 1] == j && InteriorBelow(p, k)
  }

  /** The graph of `m` has a cycle. */
  ghost predicate HasCycle(m: Matrix)
    requires Square(m)
  {
    exists i :: 0 <= i < |m| && PathVia(m, |m|, i, i)
  }

  /** Joining a walk `i..c` and a walk `c..j` whose interiors are below `c`. */
  lemma JoinPaths(m: Matrix, c: nat, p1: seq<nat>, p2: seq<nat>) returns (q: seq<nat>)
    requires Square(m) && IsPath(m, p1) && IsPath(m, p2)
    requires p1[|p1| - 1] == c && p2[0] == c && InteriorBelow(p1, c) && InteriorBelow(p2, c)
    ensures IsPath(m, q) && q[0] == p1[0] && q[|q| - 1] == p2[|p2| - 1] && InteriorBelow(q, c + 1)
  {
    q := p1 + p2[1..];
    assert forall t :: 0 <= t < |p1| ==> q[t] == p1[t];
    assert forall t :: |p1| <= t < |q| ==> q[t] == p2[t - |p1| + 1];
    forall t | 0 <= t < |q| - 1 ensures m[q[t]][q[t + 1]] {
      if t < |p1| - 1 {
        assert m[p1[t]][p1[t + 1]];
      } else {
        assert m[p2[t - |p1| + 1]][p2[t - |p1| + 2]];
      }
    }
  }

  /** Soundness of the recurrence: a set entry is witnessed by a walk. */
  lemma {:induction false} ReachToPath(m: Matrix, k: nat, i: nat, j: nat)
    requires Square(m) && k <= |m| && i < |m| && j < |m|
    requires Reach(m, k, i, j)
    ensures PathVia(m, k, i, j)
    decreases k
  {
    if k == 0 {
      var p: seq<nat> := [i, j];
      assert IsPath(m, p) && InteriorBelow(p, 0);
    } else if Reach(m, k - 1, i, j) {
      ReachToPath(m, k - 1, i, j);
      var p :| IsPath(m, p) && p[0] == i && p[|p| - 1] == j && InteriorBelow(p, k - 1);
      assert InteriorBelow(p, k);
    } else {
      ReachToPath(m, k - 1, i, k - 1);
      ReachToPath(m, k - 1, k - 1, j);
      var p1 :| IsPath(m, p1) && p1[0] == i && p1[|p1| - 1] == k - 1 && InteriorBelow(p1, k - 1);
      var p2 :| IsPath(m, p2) && p2[0] == k - 1 && p2[|p2| - 1] == j && InteriorBelow(p2, k - 1);
      var q := JoinPaths(m, k - 1, p1, p2);
    }
  }

  /** Completeness of the recurrence: every walk through slots below `k` is found. */
  lemma {:induction false} PathToReach(m: Matrix, k: nat, p: seq<nat>)
    requires Square(m) && k <= |m| && IsPath(m, p) && InteriorBelow(p, k)
    ensures Reach(m, k, p[0], p[|p| - 1])
    decreases k, |p|
  {
    if k == 0 {
      assert p[1] < 0 || |p| == 2;
    } else if t :| 0 < t < |p| - 1 && p[t] == k - 1 {
      var p1, p2 := p[..t + 1], p[t..];
      assert IsPath(m, p1) && InteriorBelow(p1, k) by {
        forall s | 0 <= s < |p1| - 1 ensures m[p1[s]][p1[s + 1]] { assert p1[s] == p[s] && p1[s + 1] == p[s + 1]; }
      }
      assert IsPath(m, p2) && InteriorBelow(p2, k) by {
        forall s | 0 <= s < |p2| - 1 ensures m[p2[s]][p2[s + 1]] { assert p2[s] == p[t + s] && p2[s + 1] == p[t + s + 1]; }
      }
      PathToReach(m, k, p1);
      PathToReach(m, k, p2);
      // Passing through `k - 1` again cannot help a walk that starts or ends there.
      assert Reach(m, k, p[0], k - 1) == Reach(m, k - 1, p[0], k - 1);
      assert Reach(m, k, k - 1, p[|p| - 1]) == Reach(m, k - 1, k - 1, p[|p| - 1]);
    } else {
      assert InteriorBelow(p, k - 1);
      PathToReach(m, k - 1, p);
    }
  }

  /** The recurrence computes exactly walk reachability through slots below `k`. */
  lemma ReachIffPath(m: Matrix, k: nat, i: nat, j: nat)
    requires Square(m) && k <= |m| && i < |m| && j < |m|
    ensures Reach(m, k, i, j) <==> PathVia(m, k, i, j)
  {
    if Reach(m, k, i, j) {
      ReachToPath(m, k, i, j);
    }
    if PathVia(m, k, i, j) {
      var p :| IsPath(m, p) && p[0] == i && p[|p| - 1] == j && InteriorBelow(p, k);
      PathToReach(m, k, p);
    }
  }

  /** The top-left `n x n` block of `a`, as rows. */
  ghost function Block(a: array2<bool>, n: nat): (m: Matrix)
    reads a
    requires n <= a.Length0 && n <= a.Length1
    ensures |m| == n && Square(m)
    ensures forall i, j :: 0 <= i < n && 0 <= j < n ==> m[i][j] == a[i, j]
  {
    seq(n, i requires 0 <= i < n reads a => seq(n, j requires 0 <= j < n reads a => a[i, j]))
  }

  /**
   * Warshall's triple loop, in place, in the source's k, i, j order. Row and
   * column `k` do not change during round `k`, so reading updated entries is
   * harmless.
   */
  method TransitiveClosure(c: array2<bool>)
    requires c.Length0 == c.Length1
    modifies c
    ensures forall i, j :: 0 <= i < c.Length0 && 0 <= j < c.Length0 ==>
              c[i, j] == Reach(old(Block(c, c.Length0)), c.Length0, i, j)
  {
    var n := c.Length0;
    ghost var m := Block(c, n);
    for k := 0 to n
      invariant forall a, b :: 0 <= a < n && 0 <= b < n ==> c[a, b] == Reach(m, k, a, b)
    {
      for i := 0 to n
        invariant forall a, b :: 0 <= a < n && 0 <= b < n ==>
                    c[a, b] == Reach(m, if a < i then k + 1 else k, a, b)
      {
        for j := 0 to n
          invariant forall a, b :: 0 <= a < n && 0 <= b < n ==>
                      c[a, b] == Reach(m, if a < i || (a == i && b < j) then k + 1 else k, a, b)
        {
          assert c[i, k] == Reach(m, k, i, k);
          assert c[k, j] == Reach(m, k, k, j);
          c[i, j] := c[i, j] || (c[i, k] && c[k, j]);
        }
      }
    }
  }

  /** Largest value plus one, or 0 for none: `max(values, default=-1) + 1`. */
  function Frontier(values: set<nat>): (r: nat)
    ensures forall v :: v in values ==> v < r
    ensures values == {} ==> r == 0
    ensures values != {} ==> r - 1 in values
  {
    if values == {} then 0
    else
      MaxExists(values);
      var top :| top in values && forall v :: v in values ==> v <= top;
      top + 1
  }

  lemma {:induction false} MaxExists(values: set<nat>)
    requires values != {}
    ensures exists top :: top in values && forall v :: v in values ==> v <= top
    decreases |values|
  {
    var x := Sets.Pick(values);
    if values - {x} != {} {
      MaxExists(values - {x});
      var top :| top in values - {x} && forall v :: v in values - {x} ==> v <= top;
      var best := if x > top then x else top;
      assert best in values;
      forall v | v in values ensures v <= best {
        if v != x { assert v in values - {x}; }
      }
    } else {
      forall v | v in values ensures v <= x {
        assert v !in values - {x};
      }
      assert x in values;
    }
  }

  /**
   * `m` is the top-left block of `w` with the entry `ci -> ti` set: the
   * block a probe searched, read back from the matrix after the probe
   * cleared that entry again.
   */
  ghost predicate BlockWithEdge(w: Matrix, m: Matrix, ci: nat, ti: nat)
  {
    Square(w) && Square(m) && |m| <= |w| && ci < |m| && ti < |m| &&
    forall a, b :: 0 <= a < |m| && 0 <= b < |m| ==> m[a][b] == (w[a][b] || (a == ci && b == ti))
  }

  /** A single entry between two different slots cannot close a cycle. */
  lemma SingleEdgeAcyclic(m: Matrix, ci: nat, ti: nat)
    requires Square(m) && ci != ti
    requires forall a, b :: 0 <= a < |m| && 0 <= b < |m| && m[a][b] ==> a == ci && b == ti
    ensures !HasCycle(m)
  {
    // Every walk starts with the one entry and ends with it, so it cannot return to its start.
    forall p | IsPath(m, p) ensures p[0] == ci && p[|p| - 1] == ti {
      assert m[p[0]][p[1]];
      assert m[p[|p| - 2]][p[|p| - 1]];
    }
  }

  /** How many of `cur` and `tgt` have no slot in `ids` yet. */
  function FreshIds(ids: map<int, nat>, cur: int, tgt: int): nat
  {
    (if cur in ids then 0 else 1) + (if tgt in ids || tgt == cur then 0 else 1)
  }

  /** The slots currently assigned. */
  function Slots(ids: map<int, nat>): set<nat>
  {
    set t | t in ids :: ids[t]
  }

  datatype Slot = Index(idx: nat) | TooManyThreads

  /** How `_check_deadlock` ends: a cycle verdict or the ValueError of slot exhaustion. */
  datatype Checked = Checked(cycle: bool) | SlotsExhausted

  /** The scheduler's answers to the lock operations `transfer` performs. */
  datatype Schedule = Schedule(fromAcquired: bool, toLocked: bool, toAcquired: bool)

  datatype Outcome = Returned(ok: bool) | DeadlockRaised | ValueErrorRaised | RuntimeErrorRaised

  class Bank {
    var accounts: Accounts
    const maxThreads: nat
    var threadIds: map<int, nat>
    var nextIndex: nat
    const waitMatrix: array2<bool>

    /** Slots lie below `nextIndex <= maxThreads` and no two threads share one. */
    ghost predicate Valid()
      reads this
    {
      waitMatrix.Length0 == maxThreads && waitMatrix.Length1 == maxThreads &&
      nextIndex <= maxThreads &&
      (forall t :: t in threadIds ==> threadIds[t] < nextIndex) &&
      (forall a, b :: a in threadIds && b in threadIds && a != b ==> threadIds[a] != threadIds[b])
    }

    constructor (initial: Accounts, maxThreads: nat := 10)
      ensures Valid() && accounts == initial && this.maxThreads == maxThreads
      ensures threadIds == map[] && nextIndex == 0
      ensures forall i, j :: 0 <= i < maxThreads && 0 <= j < maxThreads ==> !waitMatrix[i, j]
    {
      accounts := initial;
      this.maxThreads := maxThreads;
      threadIds := map[];
      nextIndex := 0;
      waitMatrix := new bool[maxThreads, maxThreads]((i, j) => false);
    }

    /** `_get_thread_index`: the thread's slot, assigning the next fresh one if it has none. */
    method GetThreadIndex(tid: int) returns (r: Slot)
      requires Valid()
      modifies this`threadIds, this`nextIndex
      ensures Valid()
      ensures tid in old(threadIds) ==>
                r == Index(old(threadIds)[tid]) && threadIds == old(threadIds) && nextIndex == old(nextIndex)
      ensures tid !in old(threadIds) && old(nextIndex) >= maxThreads ==>
                r == TooManyThreads && threadIds == old(threadIds) && nextIndex == old(nextIndex)
      ensures tid !in old(threadIds) && old(nextIndex) < maxThreads ==>
                r == Index(old(nextIndex)) && threadIds == old(threadIds)[tid := old(nextIndex)] &&
                nextIndex == old(nextIndex) + 1
      ensures r.Index? ==> r.idx < maxThreads && tid in threadIds && threadIds[tid] == r.idx
    {
      if tid !in threadIds {
        if nextIndex >= maxThreads {
          return TooManyThreads;
        }
        threadIds := threadIds[tid := nextIndex];
        nextIndex := nextIndex + 1;
      }
      return Index(threadIds[tid]);
    }

    /** `_detect_cycle`: is there a cycle among the first `nextIndex` slots? */
    method DetectCycle() returns (cycle: bool)
      requires Valid()
      ensures cycle <==> HasCycle(Block(waitMatrix, nextIndex))
      ensures nextIndex == 0 ==> !cycle
    {
      var n := nextIndex;
      if n == 0 {
        return false;
      }
      var w := waitMatrix;
      var closure := new bool[n, n]((i, j) reads w => if 0 <= i < n && 0 <= j < n then w[i, j] else false);
      ghost var m := Block(waitMatrix, n);
      ghost var copied := Block(closure, n);
      forall a | 0 <= a < n ensures copied[a] == m[a] {
        assert forall b :: 0 <= b < n ==> copied[a][b] == m[a][b];
      }
      assert copied == m;
      TransitiveClosure(closure);
      var i := 0;
      while i < n
        invariant 0 <= i <= n
        invariant forall a :: 0 <= a < i ==> !Reach(m, n, a, a)
      {
        if closure[i, i] {
          ReachIffPath(m, n, i, i);
          return true;
        }
        i := i + 1;
      }
      forall a | 0 <= a < n ensures !PathVia(m, n, a, a) {
        ReachIffPath(m, n, a, a);
      }
      return false;
    }

    /**
     * The probe itself: mark the wait edge, run the cycle check on the
     * mapped block of the matrix, and clear the edge again.
     */
    method Probe(ci: nat, ti: nat) returns (cycle: bool, ghost probed: Matrix)
      requires Valid() && ci < nextIndex && ti < nextIndex
      modifies waitMatrix
      ensures Valid()
      ensures |probed| == nextIndex && Square(probed)
      ensures forall a, b :: 0 <= a < |probed| && 0 <= b < |probed| ==>
                probed[a][b] == (old(waitMatrix[a, b]) || (a == ci && b == ti))
      ensures cycle <==> HasCycle(probed)
      ensures forall a, b :: 0 <= a < maxThreads && 0 <= b < maxThreads ==>
                waitMatrix[a, b] == (if a == ci && b == ti then false else old(waitMatrix[a, b]))
    {
      waitMatrix[ci, ti] := true;
      probed := Block(waitMatrix, nextIndex);
      cycle := DetectCycle();
      assert probed == Block(waitMatrix, nextIndex);
      waitMatrix[ci, ti] := false;
    }

    /**
     * A thread whose matrix row is empty after the probe gives up its slot;
     * the next fresh slot becomes one past the highest slot still in use.
     */
    method ReleaseIfIdle(cur: int, ci: nat)
      requires Valid() && cur in threadIds && threadIds[cur] == ci
      modifies this`threadIds, this`nextIndex
      ensures Valid()
      ensures (forall j :: 0 <= j < maxThreads ==> !waitMatrix[ci, j]) ==>
                threadIds == old(threadIds) - {cur} && nextIndex == Frontier(Slots(threadIds))
      ensures (exists j :: 0 <= j < maxThreads && waitMatrix[ci, j]) ==>
                threadIds == old(threadIds) && nextIndex == old(nextIndex)
    {
      if forall j :: 0 <= j < maxThreads ==> !waitMatrix[ci, j] {
        threadIds := threadIds - {cur};
        nextIndex := Frontier(Slots(threadIds));
        forall t | t in threadIds ensures threadIds[t] < nextIndex {
          assert threadIds[t] in Slots(threadIds);
        }
      }
    }

    /**
     * The two `_get_thread_index` calls that open `_check_deadlock`: first
     * `cur`, then (only when that succeeded) `tgt`. A slot taken for `cur`
     * is kept even when `tgt` then finds none left.
     */
    method TakeSlots(cur: int, tgt: int) returns (cs: Slot, ts: Slot)
      requires Valid()
      modifies this`threadIds, this`nextIndex
      ensures Valid()
      ensures cs == (if cur in old(threadIds) then Index(old(threadIds)[cur])
                     else if old(nextIndex) >= maxThreads then TooManyThreads
                     else Index(old(nextIndex)))
      ensures cs.TooManyThreads? ==> ts == TooManyThreads
      ensures cs.Index? ==>
                (ts == TooManyThreads <==>
                 tgt !in old(threadIds) && tgt != cur &&
                 (if cur in old(threadIds) then old(nextIndex) else old(nextIndex) + 1) >= maxThreads)
      ensures ts.Index? ==>
                ts.idx == (if tgt in old(threadIds) then old(threadIds)[tgt]
                           else if tgt == cur then cs.idx
                           else if cur in old(threadIds) then old(nextIndex) else old(nextIndex) + 1)
      ensures cs.Index? ==> cur in threadIds && threadIds[cur] == cs.idx
      ensures ts.Index? ==> tgt in threadIds && threadIds[tgt] == ts.idx
      ensures ts.Index? ==> nextIndex == old(nextIndex) + FreshIds(old(threadIds), cur, tgt)
      ensures forall t :: t in old(threadIds) ==> t in threadIds && threadIds[t] == old(threadIds)[t]
      ensures forall t :: t in threadIds ==> t in old(threadIds) || t == cur || t == tgt
      ensures ts.TooManyThreads? ==>
                threadIds == (if cur in old(threadIds) || old(nextIndex) >= maxThreads then old(threadIds)
                              else old(threadIds)[cur := old(nextIndex)]) &&
                nextIndex == (if cur in old(threadIds) || old(nextIndex) >= maxThreads then old(nextIndex)
                              else old(nextIndex) + 1) &&
                nextIndex == maxThreads
    {
      cs := GetThreadIndex(cur);
      if cs.TooManyThreads? {
        return cs, TooManyThreads;
      }
      ts := GetThreadIndex(tgt);
    }

    /**
     * `_check_deadlock`: take slots for both threads, set the speculative
     * entry, look for a cycle, clear the entry, and give `cur`'s slot back when
     * its row is all clear. `ci`, `ti` and `probed` name the slots and the
     * block the search ran on.
     */
    method CheckDeadlock(cur: int, tgt: int) returns (r: Checked, ghost ci: nat, ghost ti: nat, ghost probed: Matrix)
      requires Valid()
      modifies this`threadIds, this`nextIndex, waitMatrix
      ensures Valid()
      ensures ci == if cur in old(threadIds) then old(threadIds)[cur] else old(nextIndex)
      ensures r == SlotsExhausted <==>
                (cur !in old(threadIds) && old(nextIndex) >= maxThreads) ||
                (tgt !in old(threadIds) && tgt != cur &&
                 (if cur in old(threadIds) then old(nextIndex) else old(nextIndex) + 1) >= maxThreads)
      ensures r.Checked? ==>
                ti == (if tgt in old(threadIds) then old(threadIds)[tgt]
                       else if tgt == cur then ci
                       else if cur in old(threadIds) then old(nextIndex) else old(nextIndex) + 1)
      ensures r.Checked? ==> ci < maxThreads && ti < maxThreads && Square(probed) && |probed| <= maxThreads
      ensures r.Checked? ==> ci < |probed| && ti < |probed|
      ensures r.Checked? ==>
                forall a, b :: 0 <= a < |probed| && 0 <= b < |probed| ==>
                  probed[a][b] == (old(waitMatrix[a, b]) || (a == ci && b == ti))
      ensures r.Checked? ==> (r.cycle <==> HasCycle(probed))
      ensures forall a, b :: 0 <= a < maxThreads && 0 <= b < maxThreads ==>
                waitMatrix[a, b] == (if r.Checked? && a == ci && b == ti then false else old(waitMatrix[a, b]))
      ensures r.Checked? && (forall j :: 0 <= j < maxThreads ==> !waitMatrix[ci, j]) ==>
                cur !in threadIds && nextIndex == Frontier(Slots(threadIds))
      ensures r.Checked? && (exists j :: 0 <= j < maxThreads && waitMatrix[ci, j]) ==>
                cur in threadIds && threadIds[cur] == ci
      ensures forall t :: t in old(threadIds) && t != cur ==> t in threadIds && threadIds[t] == old(threadIds)[t]
      ensures forall t :: t in threadIds ==> t in old(threadIds) || t == cur || t == tgt
      ensures r.Checked? && tgt != cur ==> ci != ti
      ensures r.Checked? && (tgt != cur || cur in threadIds) ==> tgt in threadIds && threadIds[tgt] == ti
      ensures r.Checked? && cur in threadIds ==> nextIndex == old(nextIndex) + FreshIds(old(threadIds), cur, tgt)
      ensures r == SlotsExhausted ==>
                threadIds == (if cur in old(threadIds) || old(nextIndex) >= maxThreads then old(threadIds)
                              else old(threadIds)[cur := old(nextIndex)]) &&
                nextIndex == (if cur in old(threadIds) || old(nextIndex) >= maxThreads then old(nextIndex)
                              else old(nextIndex) + 1) &&
                nextIndex == maxThreads
    {
      ci, ti, probed := if cur in threadIds then threadIds[cur] else nextIndex, 0, [];
      var cs, ts := TakeSlots(cur, tgt);
      if cs.TooManyThreads? || ts.TooManyThreads? {
        return SlotsExhausted, ci, ti, probed;
      }
      var currentIdx, targetIdx := cs.idx, ts.idx;
      ti := targetIdx;
      var cycle;
      cycle, probed := Probe(currentIdx, targetIdx);
      ReleaseIfIdle(cur, currentIdx);
      return Checked(cycle), ci, ti, probed;
    }

    /**
     * The probe loop of `transfer`: `_check_deadlock(me, other)` for every
     * other thread id in a snapshot of the slot map, visited in some order.
     * Returns the exception the loop raises, if any; Python raises
     * RuntimeError when the dict's size changed while it was being iterated.
     */
    method ProbeOthers(me: int) returns (raised: Option<Outcome>)
      requires Valid()
      modifies this`threadIds, this`nextIndex, waitMatrix
      ensures Valid()
      ensures raised.Some? ==>
                (raised.value == DeadlockRaised || raised.value == ValueErrorRaised ||
                 raised.value == RuntimeErrorRaised) && old(threadIds) != map[]
      ensures forall a, b :: 0 <= a < maxThreads && 0 <= b < maxThreads && waitMatrix[a, b] ==> old(waitMatrix[a, b])
      ensures old(threadIds) == map[] ==>
                raised == None && threadIds == map[] && nextIndex == old(nextIndex) && unchanged(waitMatrix)
      ensures raised == Some(DeadlockRaised) ==>
                exists other, m, ci: nat, ti: nat ::
                  other in old(threadIds) && other != me && other in threadIds && threadIds[other] == ti &&
                  BlockWithEdge(Block(waitMatrix, maxThreads), m, ci, ti) && ci != ti && HasCycle(m) &&
                  if me in threadIds then threadIds[me] == ci
                  else forall j :: 0 <= j < maxThreads ==> !waitMatrix[ci, j]
      ensures (forall a, b :: 0 <= a < maxThreads && 0 <= b < maxThreads ==> !old(waitMatrix[a, b])) ==>
                raised != Some(DeadlockRaised)
      ensures raised == Some(ValueErrorRaised) ==> nextIndex == maxThreads
    {
      var size := |threadIds|;
      var todo := threadIds.Keys;
      while todo != {}
        invariant Valid()
        invariant todo <= old(threadIds).Keys
        invariant forall a, b :: 0 <= a < maxThreads && 0 <= b < maxThreads && waitMatrix[a, b] ==> old(waitMatrix[a, b])
        invariant old(threadIds) == map[] ==>
                    todo == {} && threadIds == map[] && nextIndex == old(nextIndex) && unchanged(waitMatrix)
        decreases todo
      {
        // `Pick` only supplies the witness the choice below needs; any key may be chosen.
        ghost var someOther := Sets.Pick(todo);
        var other :| other in todo;
        todo := todo - {other};
        if other != me {
          var r, ci, ti, probed := CheckDeadlock(me, other);
          if r.SlotsExhausted? {
            return Some(ValueErrorRaised);
          }
          if r.cycle {
            assert BlockWithEdge(Block(waitMatrix, maxThreads), probed, ci, ti);
            if forall a, b :: 0 <= a < maxThreads && 0 <= b < maxThreads ==> !old(waitMatrix[a, b]) {
              SingleEdgeAcyclic(probed, ci, ti);
            }
            return Some(DeadlockRaised);
          }
          if |threadIds| != size {
            return Some(RuntimeErrorRaised);
          }
        }
      }
      return None;
    }

    /**
     * `transfer(from, to, amount)` run by thread `me`. The probe visits a
     * snapshot of the mapped thread ids in some order; Python raises
     * RuntimeError when that dict's size changed while it was being iterated.
     */
    method Transfer(from: int, to: int, amount: int, me: int, sched: Schedule) returns (outcome: Outcome)
      requires Valid()
      modifies this, waitMatrix
      ensures Valid()
      ensures !Admissible(old(accounts), from, to, amount) ==>
                outcome == Returned(false) && accounts == old(accounts) &&
                threadIds == old(threadIds) && nextIndex == old(nextIndex) && unchanged(waitMatrix)
      ensures outcome == Returned(true) ==>
                Admissible(old(accounts), from, to, amount) && from != to &&
                accounts == Apply(old(accounts), from, to, amount) && accounts[from] >= 0
      ensures outcome != Returned(true) ==> accounts == old(accounts)
      ensures Total(accounts) == Total(old(accounts))
      ensures forall a, b :: 0 <= a < maxThreads && 0 <= b < maxThreads && waitMatrix[a, b] ==> old(waitMatrix[a, b])
      ensures old(threadIds) == map[] ==>
                threadIds == map[] && nextIndex == old(nextIndex) && unchanged(waitMatrix) &&
                (outcome == Returned(false) || outcome == Returned(true))
      ensures outcome == Returned(true) ==> sched.fromAcquired && sched.toAcquired
      ensures Admissible(old(accounts), from, to, amount) && sched.fromAcquired && outcome.Returned? ==>
                (outcome.ok <==> from != to && sched.toAcquired)
      ensures outcome == DeadlockRaised || outcome == ValueErrorRaised || outcome == RuntimeErrorRaised ==>
                Admissible(old(accounts), from, to, amount) && sched.fromAcquired &&
                (from == to || sched.toLocked) && old(threadIds) != map[]
      ensures Admissible(old(accounts), from, to, amount) && from != to && sched.fromAcquired && sched.toAcquired &&
              (!sched.toLocked || old(threadIds) == map[]) ==>
                outcome == Returned(true)
      ensures outcome == DeadlockRaised ==>
                exists other, m, ci: nat, ti: nat ::
                  other in old(threadIds) && other != me && other in threadIds && threadIds[other] == ti &&
                  BlockWithEdge(Block(waitMatrix, maxThreads), m, ci, ti) && ci != ti && HasCycle(m) &&
                  if me in threadIds then threadIds[me] == ci
                  else forall j :: 0 <= j < maxThreads ==> !waitMatrix[ci, j]
      ensures (forall a, b :: 0 <= a < maxThreads && 0 <= b < maxThreads ==> !old(waitMatrix[a, b])) ==>
                outcome != DeadlockRaised
      ensures outcome == ValueErrorRaised ==> nextIndex == maxThreads
    {
      if from !in accounts || to !in accounts {
        return Returned(false);
      }
      if amount <= 0 || accounts[from] < amount {
        return Returned(false);
      }
      if !sched.fromAcquired {
        return Returned(false);
      }
      // `from == to`: the caller holds that non-reentrant lock itself.
      if from == to || sched.toLocked {
        var raised := ProbeOthers(me);
        if raised.Some? {
          return raised.value;
        }
      }
      if from == to || !sched.toAcquired {
        return Returned(false);
      }
      ApplyConserves(accounts, from, to, amount);
      accounts := Apply(accounts, from, to, amount);
      outcome := Returned(true);
    }
  }
}
