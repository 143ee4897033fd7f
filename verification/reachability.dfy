/**
  The three visited-list guarded depth-first walks of graph.py, modelled by one
  function:
  - `_recursively_add_node_ids` (lines 191-211): start list [root], nothing blocked;
  - `_recursively_fetch_routes` (lines 437-456): start list [], nothing blocked;
  - `_recursively_add_parallel_node_ids` (lines 344-366): start list [branch],
    the merge node blocked.
  Each walk appends a target the first time it is seen and then descends into
  it before continuing with the next edge, so the result is in depth-first
  discovery order. The lemmas here relate that order-sensitive list to plain
  path reachability.
 */
module Reachability {
  import opened Collections
  import opened GraphEntities

  /**
    Walk the edges of `from`, starting at edge index `i`, extending the visited
    list `acc`. A target in `stop` or already in the list is skipped; any other
    target is appended and walked before the next edge is looked at.
    Terminates because every descent adds a target not yet in the list.
   */
  function Walk(em: EdgeMapping, stop: set<NodeId>, from: NodeId, i: nat, acc: seq<NodeId>): (r: seq<NodeId>)
    requires i <= |Out(em, from)|
    ensures acc <= r
    ensures forall x :: x in r ==> x in acc || (x in TargetSet(em) && x !in stop)
    ensures NoDup(acc) ==> NoDup(r)
    decreases |TargetSet(em) - Elems(acc)|, |Out(em, from)| - i
  {
    if i == |Out(em, from)| then acc
    else
      var t := Out(em, from)[i].target;
      if t in stop || t in acc then Walk(em, stop, from, i + 1, acc)
      else
        DescentShrinks(em, from, i, acc);
        var acc' := Walk(em, stop, t, 0, acc + [t]);
        GrowthKeepsMeasure(em, acc + [t], acc');
        Walk(em, stop, from, i + 1, acc')
  }

  /** Descending into a new target strictly shrinks the set of unvisited targets. */
  lemma DescentShrinks(em: EdgeMapping, from: NodeId, i: nat, acc: seq<NodeId>)
    requires i < |Out(em, from)| && Out(em, from)[i].target !in acc
    ensures |TargetSet(em) - Elems(acc + [Out(em, from)[i].target])| < |TargetSet(em) - Elems(acc)|
  {
    var t := Out(em, from)[i].target;
    assert t in TargetSet(em);
    assert Elems(acc + [t]) == Elems(acc) + {t};
    ProperSubsetCard(TargetSet(em) - Elems(acc + [t]), TargetSet(em) - Elems(acc));
  }

  /** Extending the list with targets never grows the set of unvisited targets. */
  lemma GrowthKeepsMeasure(em: EdgeMapping, acc: seq<NodeId>, acc': seq<NodeId>)
    requires acc <= acc'
    ensures |TargetSet(em) - Elems(acc')| <= |TargetSet(em) - Elems(acc)|
  {
    SubsetCard(TargetSet(em) - Elems(acc'), TargetSet(em) - Elems(acc));
  }

  // ---------------------------------------------------------------------------
  // Reachability by paths

  /** Consecutive nodes of `p` are joined by edges. */
  ghost predicate IsPath(em: EdgeMapping, p: seq<NodeId>)
  {
    forall k :: 0 <= k < |p| - 1 ==> Succ(em, p[k], p[k + 1])
  }

  /** No node of `p` after the first is in `stop`. */
  ghost predicate Avoids(p: seq<NodeId>, stop: set<NodeId>)
  {
    forall k :: 1 <= k < |p| ==> p[k] !in stop
  }

  /** `b` is reachable from `a` in one or more steps without entering `stop`. */
  ghost predicate Reaches(em: EdgeMapping, a: NodeId, b: NodeId, stop: set<NodeId>)
  {
    exists p :: |p| >= 2 && p[0] == a && p[|p| - 1] == b && IsPath(em, p) && Avoids(p, stop)
  }

  lemma ReachesStep(em: EdgeMapping, a: NodeId, b: NodeId, stop: set<NodeId>)
    requires Succ(em, a, b) && b !in stop
    ensures Reaches(em, a, b, stop)
  {
    var p := [a, b];
    assert IsPath(em, p) && Avoids(p, stop);
  }

  lemma ReachesPrepend(em: EdgeMapping, a: NodeId, b: NodeId, c: NodeId, stop: set<NodeId>)
    requires Succ(em, a, b) && b !in stop && Reaches(em, b, c, stop)
    ensures Reaches(em, a, c, stop)
  {
    var p :| |p| >= 2 && p[0] == b && p[|p| - 1] == c && IsPath(em, p) && Avoids(p, stop);
    var q := [a] + p;
    assert forall k :: 1 <= k < |q| ==> q[k] == p[k - 1];
    assert IsPath(em, q) && Avoids(q, stop);
  }

  lemma ReachesAppend(em: EdgeMapping, a: NodeId, b: NodeId, c: NodeId, stop: set<NodeId>)
    requires Reaches(em, a, b, stop) && Succ(em, b, c) && c !in stop
    ensures Reaches(em, a, c, stop)
  {
    var p :| |p| >= 2 && p[0] == a && p[|p| - 1] == b && IsPath(em, p) && Avoids(p, stop);
    var q := p + [c];
    assert IsPath(em, q) && Avoids(q, stop);
  }

  lemma ReachesTrans(em: EdgeMapping, a: NodeId, b: NodeId, c: NodeId, stop: set<NodeId>)
    requires Reaches(em, a, b, stop) && Reaches(em, b, c, stop)
    ensures Reaches(em, a, c, stop)
  {
    var p :| |p| >= 2 && p[0] == a && p[|p| - 1] == b && IsPath(em, p) && Avoids(p, stop);
    var q :| |q| >= 2 && q[0] == b && q[|q| - 1] == c && IsPath(em, q) && Avoids(q, stop);
    var pq := p + q[1..];
    assert forall k :: |p| <= k < |pq| ==> pq[k] == q[k - |p| + 1];
    assert IsPath(em, pq) && Avoids(pq, stop);
  }

  // ---------------------------------------------------------------------------
  // What the walk computes

  /** Everything the walk adds is reachable from `from` without entering `stop`. */
  lemma {:induction false} WalkSound(em: EdgeMapping, stop: set<NodeId>, from: NodeId, i: nat, acc: seq<NodeId>)
    requires i <= |Out(em, from)|
    ensures forall x :: x in Walk(em, stop, from, i, acc) && x !in acc ==> Reaches(em, from, x, stop)
    decreases |TargetSet(em) - Elems(acc)|, |Out(em, from)| - i
  {
    if i == |Out(em, from)| {
    } else {
      var t := Out(em, from)[i].target;
      if t in stop || t in acc {
        WalkSound(em, stop, from, i + 1, acc);
      } else {
        DescentShrinks(em, from, i, acc);
        var acc' := Walk(em, stop, t, 0, acc + [t]);
        GrowthKeepsMeasure(em, acc + [t], acc');
        WalkSound(em, stop, t, 0, acc + [t]);
        WalkSound(em, stop, from, i + 1, acc');
        assert Succ(em, from, t) by { assert Targets(Out(em, from))[i] == t; }
        ReachesStep(em, from, t, stop);
        forall x | x in acc' && x !in acc + [t]
          ensures Reaches(em, from, x, stop)
        {
          ReachesPrepend(em, from, t, x, stop);
        }
      }
    }
  }

  /** Every edge still to be looked at ends in the result or in `stop`. */
  lemma {:induction false} WalkCoversEdges(em: EdgeMapping, stop: set<NodeId>, from: NodeId, i: nat, acc: seq<NodeId>)
    requires i <= |Out(em, from)|
    ensures forall k :: i <= k < |Out(em, from)| ==>
              Out(em, from)[k].target in Walk(em, stop, from, i, acc) || Out(em, from)[k].target in stop
    decreases |Out(em, from)| - i
  {
    if i < |Out(em, from)| {
      var t := Out(em, from)[i].target;
      var r := Walk(em, stop, from, i, acc);
      if t in stop || t in acc {
        WalkCoversEdges(em, stop, from, i + 1, acc);
      } else {
        var acc' := Walk(em, stop, t, 0, acc + [t]);
        WalkCoversEdges(em, stop, from, i + 1, acc');
        assert acc' <= r;
        assert acc + [t] <= acc';
        assert acc'[|acc|] == (acc + [t])[|acc|] == t;
      }
    }
  }

  /** Every edge out of a node the walk adds ends in the result or in `stop`. */
  lemma {:induction false} WalkClosed(em: EdgeMapping, stop: set<NodeId>, from: NodeId, i: nat, acc: seq<NodeId>)
    requires i <= |Out(em, from)|
    ensures forall x, y :: x in Walk(em, stop, from, i, acc) && x !in acc && Succ(em, x, y) ==>
              y in Walk(em, stop, from, i, acc) || y in stop
    decreases |TargetSet(em) - Elems(acc)|, |Out(em, from)| - i
  {
    if i < |Out(em, from)| {
      var t := Out(em, from)[i].target;
      var r := Walk(em, stop, from, i, acc);
      if t in stop || t in acc {
        WalkClosed(em, stop, from, i + 1, acc);
      } else {
        DescentShrinks(em, from, i, acc);
        var acc' := Walk(em, stop, t, 0, acc + [t]);
        GrowthKeepsMeasure(em, acc + [t], acc');
        WalkClosed(em, stop, t, 0, acc + [t]);
        WalkCoversEdges(em, stop, t, 0, acc + [t]);
        WalkClosed(em, stop, from, i + 1, acc');
        assert r == Walk(em, stop, from, i + 1, acc');
        assert forall x :: x in acc' ==> x in r;
        forall x, y | x in r && x !in acc && Succ(em, x, y)
          ensures y in r || y in stop
        {
          if x !in acc' {
          } else if x == t {
            var k :| 0 <= k < |Targets(Out(em, t))| && Targets(Out(em, t))[k] == y;
            assert Out(em, t)[k].target == y;
          } else {
            assert x !in acc + [t];
          }
        }
      }
    }
  }

  lemma {:induction false} PathStaysIn(em: EdgeMapping, s: set<NodeId>, stop: set<NodeId>, p: seq<NodeId>, k: nat)
    requires |p| >= 2 && IsPath(em, p) && Avoids(p, stop)
    requires 1 <= k < |p|
    requires forall y :: Succ(em, p[0], y) && y !in stop ==> y in s
    requires forall x, y :: x in s && Succ(em, x, y) && y !in stop ==> y in s
    ensures p[k] in s
  {
    assert Succ(em, p[k - 1], p[k]);
    if k > 1 {
      PathStaysIn(em, s, stop, p, k - 1);
    }
  }

  /** A set closed under the edges (outside `stop`) holds everything reachable from a node whose successors it holds. */
  lemma ClosedHoldsReachable(em: EdgeMapping, s: set<NodeId>, a: NodeId, stop: set<NodeId>)
    requires forall y :: Succ(em, a, y) && y !in stop ==> y in s
    requires forall x, y :: x in s && Succ(em, x, y) && y !in stop ==> y in s
    ensures forall b :: Reaches(em, a, b, stop) ==> b in s
  {
    forall b | Reaches(em, a, b, stop)
      ensures b in s
    {
      var p :| |p| >= 2 && p[0] == a && p[|p| - 1] == b && IsPath(em, p) && Avoids(p, stop);
      PathStaysIn(em, s, stop, p, |p| - 1);
    }
  }

  /** The whole walk from edge 0 of `from`, stated in terms of reachability. */
  lemma WalkReach(em: EdgeMapping, stop: set<NodeId>, from: NodeId, acc: seq<NodeId>)
    requires forall y :: y in acc ==> y == from
    ensures forall x :: x in Walk(em, stop, from, 0, acc) && x !in acc ==> Reaches(em, from, x, stop)
    ensures forall x :: Reaches(em, from, x, stop) ==> x in Walk(em, stop, from, 0, acc)
  {
    var r := Walk(em, stop, from, 0, acc);
    WalkSound(em, stop, from, 0, acc);
    WalkCoversEdges(em, stop, from, 0, acc);
    WalkClosed(em, stop, from, 0, acc);
    var s := Elems(r);
    forall y | Succ(em, from, y) && y !in stop
      ensures y in s
    {
      var k :| 0 <= k < |Targets(Out(em, from))| && Targets(Out(em, from))[k] == y;
      assert Out(em, from)[k].target == y;
    }
    forall x, y | x in s && Succ(em, x, y) && y !in stop
      ensures y in s
    {
      if x in acc {
        assert x == from;
      }
    }
    ClosedHoldsReachable(em, s, from, stop);
  }

  // ---------------------------------------------------------------------------
  // The three walks of the source

  /**
    `_recursively_fetch_routes` started with an empty list: the nodes reachable
    from `start`, each once, in depth-first discovery order.
   */
  function FetchRoutes(em: EdgeMapping, start: NodeId): (r: seq<NodeId>)
    ensures NoDup(r)
  {
    Walk(em, {}, start, 0, [])
  }

  /** The fetched route holds exactly the nodes reachable from `start` in one or more steps. */
  lemma FetchRoutesReach(em: EdgeMapping, start: NodeId)
    ensures forall x :: x in FetchRoutes(em, start) <==> Reaches(em, start, x, {})
  {
    WalkReach(em, {}, start, []);
  }

  /**
    `node_ids` after `_recursively_add_node_ids` from the root, seeded with the
    root: the root first and no duplicates.
   */
  function AddNodeIds(em: EdgeMapping, root: NodeId): (r: seq<NodeId>)
    ensures |r| >= 1 && r[0] == root
    ensures NoDup(r)
  {
    var r := Walk(em, {}, root, 0, [root]);
    assert [root] <= r;
    r
  }

  /**
    The node list holds exactly the root and the nodes reachable from it, and
    is closed under the edge mapping.
   */
  lemma AddNodeIdsReach(em: EdgeMapping, root: NodeId)
    ensures forall x :: x in AddNodeIds(em, root) <==> x == root || Reaches(em, root, x, {})
    ensures forall x, y :: x in AddNodeIds(em, root) && Succ(em, x, y) ==> y in AddNodeIds(em, root)
  {
    WalkReach(em, {}, root, [root]);
    WalkCoversEdges(em, {}, root, 0, [root]);
    WalkClosed(em, {}, root, 0, [root]);
    var r := AddNodeIds(em, root);
    forall x, y | x in r && Succ(em, x, y)
      ensures y in r
    {
      if x == root {
        var k :| 0 <= k < |Targets(Out(em, root))| && Targets(Out(em, root))[k] == y;
        assert Out(em, root)[k].target == y;
      }
    }
  }

  /**
    The branch list built by `_recursively_add_parallel_node_ids` from a branch
    root toward its merge node: the branch root first, no duplicates, and the
    merge node never added after it.
   */
  function AddParallelNodeIds(em: EdgeMapping, merge: NodeId, branch: NodeId): (r: seq<NodeId>)
    ensures |r| >= 1 && r[0] == branch
    ensures NoDup(r)
    ensures merge !in r[1..]
  {
    var r := Walk(em, {merge}, branch, 0, [branch]);
    assert [branch] <= r;
    assert forall x :: x in r[1..] ==> x !in [branch] && x in r by {
      forall x | x in r[1..]
        ensures x !in [branch] && x in r
      {
        var k :| 0 <= k < |r[1..]| && r[1..][k] == x;
        assert r[k + 1] == x;
      }
    }
    r
  }

  /** The branch list holds exactly the branch root and what it reaches without passing the merge node. */
  lemma AddParallelNodeIdsReach(em: EdgeMapping, merge: NodeId, branch: NodeId)
    ensures forall x :: x in AddParallelNodeIds(em, merge, branch) <==> x == branch || Reaches(em, branch, x, {merge})
  {
    WalkReach(em, {merge}, branch, [branch]);
  }

  // ---------------------------------------------------------------------------
  // Cycles

  /** The `k`-th edge of `a` leads to a successor of `a`. */
  lemma EdgeIsSucc(em: EdgeMapping, a: NodeId, k: int)
    requires 0 <= k < |Out(em, a)|
    ensures Succ(em, a, Out(em, a)[k].target)
  {
    assert Targets(Out(em, a))[k] == Out(em, a)[k].target;
  }

  /** A path of one or more steps leaves `a` along one of its edges. */
  lemma ReachesFirst(em: EdgeMapping, a: NodeId, b: NodeId, stop: set<NodeId>)
    requires Reaches(em, a, b, stop)
    ensures exists k :: 0 <= k < |Out(em, a)| && Out(em, a)[k].target !in stop
              && (Out(em, a)[k].target == b || Reaches(em, Out(em, a)[k].target, b, stop))
  {
    var p :| |p| >= 2 && p[0] == a && p[|p| - 1] == b && IsPath(em, p) && Avoids(p, stop);
    assert Succ(em, p[0], p[1]);
    var k :| 0 <= k < |Targets(Out(em, a))| && Targets(Out(em, a))[k] == p[1];
    assert Out(em, a)[k].target == p[1];
    if |p| > 2 {
      var q := p[1..];
      assert forall j :: 0 <= j < |q| ==> q[j] == p[j + 1];
      assert IsPath(em, q) && Avoids(q, stop);
    }
  }

  /**
    No cycle is reachable from `s`: neither `s` nor any node it reaches can
    reach itself. Without this, the unguarded recursion of
    `_recursively_add_parallels` never ends.
   */
  ghost predicate AcyclicFrom(em: EdgeMapping, s: NodeId)
  {
    forall x :: (x == s || Reaches(em, s, x, {})) ==> !Reaches(em, x, x, {})
  }

  /**
    Stepping along an edge from an acyclic start stays acyclic and strictly
    shrinks the set of reachable nodes (the successor no longer reaches itself).
   */
  lemma SuccShrinks(em: EdgeMapping, s: NodeId, t: NodeId)
    requires AcyclicFrom(em, s) && Succ(em, s, t)
    ensures AcyclicFrom(em, t)
    ensures Elems(FetchRoutes(em, t)) < Elems(FetchRoutes(em, s))
  {
    ReachesStep(em, s, t, {});
    forall x | x == t || Reaches(em, t, x, {})
      ensures !Reaches(em, x, x, {})
    {
      if x != t {
        ReachesTrans(em, s, t, x, {});
      }
    }
    FetchRoutesReach(em, s);
    FetchRoutesReach(em, t);
    forall x | x in Elems(FetchRoutes(em, t))
      ensures x in Elems(FetchRoutes(em, s))
    {
      ReachesTrans(em, s, t, x, {});
    }
    assert t in Elems(FetchRoutes(em, s));
    assert t !in Elems(FetchRoutes(em, t));
  }

  /** Every edge leads to a node of strictly smaller rank (a topological numbering). */
  ghost predicate Ranked(em: EdgeMapping, rank: NodeId -> nat)
  {
    forall a, b :: Succ(em, a, b) ==> rank(b) < rank(a)
  }

  lemma {:induction false} RankDrops(em: EdgeMapping, rank: NodeId -> nat, p: seq<NodeId>)
    requires Ranked(em, rank)
    requires |p| >= 1 && IsPath(em, p)
    ensures rank(p[|p| - 1]) + |p| - 1 <= rank(p[0])
  {
    if |p| > 1 {
      var q := p[..|p| - 1];
      assert forall j :: 0 <= j < |q| ==> q[j] == p[j];
      assert IsPath(em, q);
      RankDrops(em, rank, q);
      assert Succ(em, p[|p| - 2], p[|p| - 1]);
    }
  }

  /** A graph that admits a topological numbering has no cycle at all. */
  lemma RankedAcyclic(em: EdgeMapping, rank: NodeId -> nat, s: NodeId)
    requires Ranked(em, rank)
    ensures AcyclicFrom(em, s)
  {
    forall x | x == s || Reaches(em, s, x, {})
      ensures !Reaches(em, x, x, {})
    {
      if Reaches(em, x, x, {}) {
        var p :| |p| >= 2 && p[0] == x && p[|p| - 1] == x && IsPath(em, p) && Avoids(p, {});
        RankDrops(em, rank, p);
      }
    }
  }

  /**
    The cycle test the model runs before the unguarded descent: no node at or
    below `s` lies on its own route. Both walks always terminate, so this is
    computable.
   */
  predicate NoCycleFrom(em: EdgeMapping, s: NodeId)
  {
    forall x :: x in AddNodeIds(em, s) ==> x !in FetchRoutes(em, x)
  }

  /** The computable test decides acyclicity exactly. */
  lemma NoCycleFromIff(em: EdgeMapping, s: NodeId)
    ensures NoCycleFrom(em, s) <==> AcyclicFrom(em, s)
  {
    AddNodeIdsReach(em, s);
    forall x
      ensures x in FetchRoutes(em, x) <==> Reaches(em, x, x, {})
    {
      FetchRoutesReach(em, x);
    }
  }
}
