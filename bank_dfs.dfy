/**
 * The depth-first-search prototype of proactive deadlock detection for
 * two-account transfers: a wait-for graph kept as a map from thread id to the
 * set of thread ids it waits for, a recursive cycle search with a visited set
 * and a recursion stack, a speculative-edge check, and `transfer`.
 *
 * The graph is a Python `defaultdict(set)`: reading a missing key inserts it
 * with an empty set. `Succ` is the edge relation that ignores such empty
 * entries, and every reachability notion below is stated through it.
 */
module BankDfs {
  import opened Ledger
  import Wrappers
  import Sets

  type Graph = map<int, set<int>>

  /** The threads `x` waits for (empty when `x` has no entry). */
  function Succ(g: Graph, x: int): set<int>
  {
    if x in g then g[x] else {}
  }

  /** The graph with the edge `c -> t` added. */
  function AddEdge(g: Graph, c: int, t: int): (r: Graph)
    ensures forall x :: Succ(r, x) == if x == c then Succ(g, c) + {t} else Succ(g, x)
  {
    g[c := Succ(g, c) + {t}]
  }

  /** Every thread that some thread waits for. */
  ghost function Targets(g: Graph): set<int>
  {
    set x, y | x in g && y in g[x] :: y
  }

  /** A non-empty walk along edges of `g`. */
  ghost predicate IsPath(g: Graph, p: seq<int>)
  {
    |p| >= 1 && forall i :: 0 <= i < |p| - 1 ==> p[i + 1] in Succ(g, p[i])
  }

  /** `b` can be reached from `a` in zero or more steps. */
  ghost predicate Reaches(g: Graph, a: int, b: int)
  {
    exists p :: IsPath(g, p) && p[0] == a && p[|p| - 1] == b
  }

  /** `w` lies on a cycle: a walk of at least one step leads from `w` back to `w`. */
  ghost predicate OnCycle(g: Graph, w: int)
  {
    exists p :: IsPath(g, p) && |p| >= 2 && p[0] == w && p[|p| - 1] == w
  }

  /** Some cycle of `g` is reachable from `s`. */
  ghost predicate CycleReachable(g: Graph, s: int)
  {
    exists w :: Reaches(g, s, w) && OnCycle(g, w)
  }

  /**
   * A finishing order of a depth-first search that found no back edge: every
   * successor of a finished node finished before it.
   */
  ghost predicate FinishOrder(g: Graph, order: seq<int>)
  {
    forall i, y :: 0 <= i < |order| && y in Succ(g, order[i]) ==> y in order[..i]
  }

  /** A successor of a finished node finished earlier. */
  lemma FinishOrderEarlier(g: Graph, order: seq<int>, i: int, y: int) returns (j: int)
    requires FinishOrder(g, order) && 0 <= i < |order| && y in Succ(g, order[i])
    ensures 0 <= j < i && order[j] == y
  {
    assert y in order[..i];
    j :| 0 <= j < i && order[..i][j] == y;
  }

  lemma ReachesRefl(g: Graph, a: int)
    ensures Reaches(g, a, a)
  {
    assert IsPath(g, [a]);
  }

  lemma ReachesStep(g: Graph, a: int, b: int, c: int)
    requires Reaches(g, a, b) && c in Succ(g, b)
    ensures Reaches(g, a, c)
  {
    var p :| IsPath(g, p) && p[0] == a && p[|p| - 1] == b;
    var q := p + [c];
    assert forall i :: 0 <= i < |q| - 1 ==> q[i + 1] in Succ(g, q[i]) by {
      forall i | 0 <= i < |q| - 1 ensures q[i + 1] in Succ(g, q[i]) {
        if i < |p| - 1 { assert q[i] == p[i] && q[i + 1] == p[i + 1]; }
      }
    }
    assert IsPath(g, q);
  }

  /** An edge from `t` back to a node `n` that reaches `t` closes a cycle through `n`. */
  lemma BackEdgeCycle(g: Graph, n: int, t: int)
    requires Reaches(g, n, t) && n in Succ(g, t)
    ensures OnCycle(g, n)
  {
    var p :| IsPath(g, p) && p[0] == n && p[|p| - 1] == t;
    var q := p + [n];
    assert forall i :: 0 <= i < |q| - 1 ==> q[i + 1] in Succ(g, q[i]) by {
      forall i | 0 <= i < |q| - 1 ensures q[i + 1] in Succ(g, q[i]) {
        if i < |p| - 1 { assert q[i] == p[i] && q[i + 1] == p[i + 1]; }
      }
    }
    assert IsPath(g, q);
  }

  /** The nodes of a finishing order are closed under reachability. */
  lemma {:induction false} FinishOrderClosed(g: Graph, order: seq<int>, p: seq<int>)
    requires FinishOrder(g, order) && IsPath(g, p) && p[0] in order
    ensures p[|p| - 1] in order
    decreases |p|
  {
    if |p| > 1 {
      var i :| 0 <= i < |order| && order[i] == p[0];
      assert p[1] in Succ(g, order[i]);
      var j := FinishOrderEarlier(g, order, i, p[1]);
      var rest := p[1..];
      assert IsPath(g, rest) by {
        forall j | 0 <= j < |rest| - 1 ensures rest[j + 1] in Succ(g, rest[j]) {
          assert rest[j] == p[j + 1] && rest[j + 1] == p[j + 2];
        }
      }
      FinishOrderClosed(g, order, rest);
    }
  }

  /** A walk of at least one step from `order[i]` ends at a node finished before it. */
  lemma {:induction false} FinishOrderDescends(g: Graph, order: seq<int>, i: int, p: seq<int>)
    requires FinishOrder(g, order) && 0 <= i < |order|
    requires IsPath(g, p) && |p| >= 2 && p[0] == order[i]
    ensures p[|p| - 1] in order[..i]
    decreases |p|
  {
    assert p[1] in Succ(g, order[i]);
    var j := FinishOrderEarlier(g, order, i, p[1]);
    if |p| > 2 {
      var rest := p[1..];
      assert IsPath(g, rest) by {
        forall k | 0 <= k < |rest| - 1 ensures rest[k + 1] in Succ(g, rest[k]) {
          assert rest[k] == p[k + 1] && rest[k + 1] == p[k + 2];
        }
      }
      FinishOrderDescends(g, order, j, rest);
      assert order[..j] == order[..i][..j];
    }
  }

  /** No node of a finishing order lies on a cycle. */
  lemma {:induction false} FinishOrderNoCycle(g: Graph, order: seq<int>, i: int)
    requires FinishOrder(g, order) && 0 <= i < |order|
    ensures !OnCycle(g, order[i])
    decreases i
  {
    if OnCycle(g, order[i]) {
      var p :| IsPath(g, p) && |p| >= 2 && p[0] == order[i] && p[|p| - 1] == order[i];
      FinishOrderDescends(g, order, i, p);
      var j :| 0 <= j < i && order[j] == order[i];
      FinishOrderNoCycle(g, order, j);
    }
  }

  /** A search that finished `s` without a back edge proves no cycle is reachable from `s`. */
  lemma FinishOrderAcyclic(g: Graph, order: seq<int>, s: int)
    requires FinishOrder(g, order) && s in order
    ensures !CycleReachable(g, s)
  {
    if CycleReachable(g, s) {
      var w :| Reaches(g, s, w) && OnCycle(g, w);
      var p :| IsPath(g, p) && p[0] == s && p[|p| - 1] == w;
      FinishOrderClosed(g, order, p);
      var i :| 0 <= i < |order| && order[i] == w;
      FinishOrderNoCycle(g, order, i);
    }
  }

  /** Appending a node all of whose successors already finished keeps a finishing order. */
  lemma FinishOrderAppend(g: Graph, order: seq<int>, t: int)
    requires FinishOrder(g, order)
    requires forall y :: y in Succ(g, t) ==> y in order
    ensures FinishOrder(g, order + [t])
  {
    var o := order + [t];
    forall i, y | 0 <= i < |o| && y in Succ(g, o[i]) ensures y in o[..i] {
      if i < |order| {
        assert o[i] == order[i] && o[..i] == order[..i];
      } else {
        assert o[..i] == order;
      }
    }
  }

  /** `g` is `before` with, at most, some of `me`'s own edges removed. */
  ghost predicate OnlyPruned(g: Graph, before: Graph, me: int)
  {
    (forall x :: x != me ==> Succ(g, x) == Succ(before, x)) && Succ(g, me) <= Succ(before, me)
  }

  /** The scheduler's answers to the lock operations `transfer` performs. */
  datatype Schedule = Schedule(
    fromAcquired: bool,  // `locks[from].acquire(timeout=1.0)` succeeded
    toLocked: bool,      // `locks[to].locked()` was true
    toAcquired: bool)    // `locks[to].acquire(timeout=1.0)` succeeded

  /** How `transfer` ends: a returned boolean or a raised exception. */
  datatype Outcome = Returned(ok: bool) | DeadlockRaised | RuntimeErrorRaised

  class Bank {
    var accounts: Accounts
    var waitGraph: Graph

    constructor (initial: Accounts)
      ensures accounts == initial && waitGraph == map[]
    {
      accounts := initial;
      waitGraph := map[];
    }

    /**
     * The recursive search from `t`. `visited` and `recStack` are threaded
     * through as values, in the order the source mutates its shared sets.
     * Ghost parameters: `g` is the edge relation the search runs on, `root` the
     * node the outermost call started from, `universe` bounds the nodes (for
     * termination) and `order` lists the finished nodes in finishing order.
     */
    method DetectCycle(t: int, visited: set<int>, recStack: set<int>,
                       ghost g: Graph, ghost root: int, ghost universe: set<int>, ghost order: seq<int>)
      returns (found: bool, visited': set<int>, recStack': set<int>, ghost order': seq<int>)
      requires forall x :: Succ(waitGraph, x) == Succ(g, x)
      requires forall x :: Succ(g, x) <= universe
      requires t in universe && t !in visited && recStack <= visited
      requires Reaches(g, root, t) && forall v :: v in visited ==> Reaches(g, root, v)
      requires forall r :: r in recStack ==> Reaches(g, r, t)
      requires FinishOrder(g, order) && forall v :: v in order <==> v in visited && v !in recStack
      modifies this`waitGraph
      decreases universe - visited
      ensures forall x :: Succ(waitGraph, x) == Succ(g, x)
      ensures waitGraph.Keys == old(waitGraph).Keys + (visited' - visited)
      ensures visited + {t} <= visited'
      ensures forall v :: v in visited' ==> Reaches(g, root, v)
      ensures found ==> CycleReachable(g, root)
      ensures !found ==> recStack' == recStack && FinishOrder(g, order')
      ensures !found ==> forall v :: v in order' <==> v in visited' && v !in recStack
    {
      visited' := visited + {t};
      recStack' := recStack + {t};
      order' := order;
      if t !in waitGraph {
        waitGraph := waitGraph[t := {}];
      }
      var todo := waitGraph[t];
      ghost var done: set<int> := {};
      while todo != {}
        invariant todo + done == Succ(g, t)
        invariant recStack' == recStack + {t}
        invariant visited + {t} <= visited'
        invariant forall x :: Succ(waitGraph, x) == Succ(g, x)
        invariant waitGraph.Keys == old(waitGraph).Keys + (visited' - visited)
        invariant forall v :: v in visited' ==> Reaches(g, root, v)
        invariant FinishOrder(g, order') && forall v :: v in order' <==> v in visited' && v !in recStack'
        invariant forall n :: n in done ==> n in order'
        decreases todo
      {
        // `Pick` only supplies the witness the choice below needs; any successor may be chosen.
        ghost var someN := Sets.Pick(todo);
        var n :| n in todo;
        todo := todo - {n};
        ReachesStep(g, root, t, n);
        if n !in visited' {
          forall r | r in recStack' ensures Reaches(g, r, n) {
            if r == t { ReachesRefl(g, t); }
            ReachesStep(g, r, t, n);
          }
          var sub: bool;
          sub, visited', recStack', order' := DetectCycle(n, visited', recStack', g, root, universe, order');
          if sub {
            found := true;
            return;
          }
        } else if n in recStack' {
          if n == t { ReachesRefl(g, t); }
          BackEdgeCycle(g, n, t);
          found := true;
          return;
        }
        done := done + {n};
      }
      recStack' := recStack' - {t};
      FinishOrderAppend(g, order', t);
      order' := order' + [t];
      found := false;
    }

    /**
     * Speculatively add `cur -> tgt`, search for a cycle from `cur`, then
     * discard the edge and drop `cur`'s entry when it is left empty.
     */
    method CheckDeadlock(cur: int, tgt: int) returns (cycle: bool)
      modifies this`waitGraph
      ensures cycle <==> CycleReachable(AddEdge(old(waitGraph), cur, tgt), cur)
      ensures forall x :: Succ(waitGraph, x) == if x == cur then Succ(old(waitGraph), cur) - {tgt} else Succ(old(waitGraph), x)
      ensures cur in waitGraph <==> Succ(waitGraph, cur) != {}
      ensures old(waitGraph).Keys - {cur} <= waitGraph.Keys
      ensures forall x :: x in waitGraph && x !in old(waitGraph) ==> waitGraph[x] == {}
    {
      waitGraph := waitGraph[cur := Succ(waitGraph, cur) + {tgt}];
      ghost var g := waitGraph;
      ghost var universe := Targets(g) + {cur};
      assert forall x :: Succ(g, x) <= universe by {
        forall x, y | y in Succ(g, x) ensures y in universe {
          assert x in g && y in g[x];
        }
      }
      ReachesRefl(g, cur);
      var visited, recStack;
      ghost var order;
      cycle, visited, recStack, order := DetectCycle(cur, {}, {}, g, cur, universe, []);
      if !cycle {
        FinishOrderAcyclic(g, order, cur);
      }
      assert Succ(waitGraph, cur) == Succ(g, cur) == Succ(old(waitGraph), cur) + {tgt};
      ghost var searched := waitGraph;
      waitGraph := waitGraph[cur := waitGraph[cur] - {tgt}];
      assert cur !in old(waitGraph) ==> waitGraph[cur] == {};
      if waitGraph[cur] == {} {
        waitGraph := waitGraph - {cur};
      }
      forall x | x in waitGraph && x !in old(waitGraph) ensures waitGraph[x] == {} {
        assert x != cur;
        assert Succ(searched, x) == Succ(g, x) == Succ(old(waitGraph), x);
      }
    }

    /**
     * `transfer(from, to, amount)` run by thread `me`, the lock outcomes
     * supplied by `sched`. The probe visits a snapshot of the graph's keys in
     * some order; Python raises RuntimeError when the graph's size changed
     * while it was being iterated.
     */
    method Transfer(from: int, to: int, amount: int, me: int, sched: Schedule) returns (outcome: Outcome)
      modifies this
      ensures !Admissible(old(accounts), from, to, amount) ==>
                outcome == Returned(false) && accounts == old(accounts) && waitGraph == old(waitGraph)
      ensures outcome == Returned(true) ==>
                Admissible(old(accounts), from, to, amount) && from != to &&
                accounts == Apply(old(accounts), from, to, amount) && accounts[from] >= 0
      ensures outcome != Returned(true) ==> accounts == old(accounts)
      ensures Total(accounts) == Total(old(accounts))
      ensures OnlyPruned(waitGraph, old(waitGraph), me)
      ensures outcome == DeadlockRaised ==>
                exists other, g :: other in old(waitGraph) && other != me &&
                  OnlyPruned(g, old(waitGraph), me) && CycleReachable(AddEdge(g, me, other), me)
      ensures old(waitGraph) == map[] ==>
                waitGraph == map[] && (outcome == Returned(false) || outcome == Returned(true))
      ensures outcome == Returned(true) ==> sched.fromAcquired && sched.toAcquired
      ensures Admissible(old(accounts), from, to, amount) && sched.fromAcquired && outcome.Returned? ==>
                (outcome.ok <==> from != to && sched.toAcquired)
      ensures outcome == DeadlockRaised || outcome == RuntimeErrorRaised ==>
                Admissible(old(accounts), from, to, amount) && sched.fromAcquired &&
                (from == to || sched.toLocked) && old(waitGraph) != map[]
      ensures Admissible(old(accounts), from, to, amount) && from != to && sched.fromAcquired && sched.toAcquired &&
              (!sched.toLocked || old(waitGraph) == map[]) ==>
                outcome == Returned(true)
    {
      if from !in accounts || to !in accounts {
        return Returned(false);
      }
      if amount <= 0 || accounts[from] < amount {
        return Returned(false);
      }
      if !sched.fromAcquired {
        return Returned(false);
      }
      // The caller itself holds `from`'s non-reentrant lock, so when `from == to`
      // the lock reads as held and the second acquire times out.
      if from == to || sched.toLocked {
        var size := |waitGraph|;
        var todo := waitGraph.Keys;
        while todo != {}
          invariant accounts == old(accounts)
          invariant todo <= old(waitGraph).Keys
          invariant OnlyPruned(waitGraph, old(waitGraph), me)
          invariant old(waitGraph) == map[] ==> todo == {} && waitGraph == map[]
          decreases todo
        {
          // `Pick` only supplies the witness the choice below needs; any key may be chosen.
          ghost var someOther := Sets.Pick(todo);
          var other :| other in todo;
          todo := todo - {other};
          if other != me {
            ghost var probed := waitGraph;
            var cycle := CheckDeadlock(me, other);
            if cycle {
              assert OnlyPruned(probed, old(waitGraph), me) && CycleReachable(AddEdge(probed, me, other), me);
              return DeadlockRaised;
            }
            if |waitGraph| != size {
              return RuntimeErrorRaised;
            }
          }
        }
      }
      if from == to || !sched.toAcquired {
        return Returned(false);
      }
      ApplyConserves(accounts, from, to, amount);
      accounts := Apply(accounts, from, to, amount);
      outcome := Returned(true);
    }

    /** `get_balance`: the account's balance; Python raises KeyError for an unknown id. */
    function GetBalance(account: int): (r: Wrappers.Option<int>)
      reads this
      ensures r.Some? <==> account in accounts
      ensures r.Some? ==> r.value == accounts[account]
    {
      if account in accounts then Wrappers.Some(accounts[account]) else Wrappers.None
    }
  }
}
