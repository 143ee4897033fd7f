/**
  `_recursively_add_parallels` (graph.py lines 298-341): a depth-first descent
  from the root that opens a parallel scope at every node with more than one
  outgoing edge of which at least one is conditioned, and records the scope
  of the branch roots in `node_parallel_mapping`.

  The descent keeps no visited set, so a fan-out node reached along two paths
  opens two scopes, and the later one overwrites the branch roots' entries.
  On a reachable cycle the source recurses until Python's recursion limit;
  the model only defines the descent on inputs where no cycle is reachable.
 */
module ParallelDetection {
  import opened Collections
  import opened GraphEntities
  import opened Reachability
  import opened MergeDetection

  /** `parallel_mapping`, `node_parallel_mapping`, and the next fresh parallel id. */
  datatype ParallelState = ParallelState(
    parallels: map<ParallelId, GraphParallel>,
    nodeParallel: map<NodeId, ParallelId>,
    nextId: nat)

  /** Targets of the conditioned edges, in edge order (lines 315-316). */
  function ConditionedTargets(es: seq<GraphEdge>): seq<NodeId>
  {
    if es == [] then []
    else (if es[0].condition.Some? then [es[0].target] else []) + ConditionedTargets(es[1..])
  }

  lemma {:induction false} ConditionedTargetsSpec(es: seq<GraphEdge>)
    ensures forall x :: x in ConditionedTargets(es) <==>
              exists k :: 0 <= k < |es| && es[k].condition.Some? && es[k].target == x
  {
    if es != [] {
      ConditionedTargetsSpec(es[1..]);
      forall x | x in ConditionedTargets(es[1..])
        ensures exists k :: 0 <= k < |es| && es[k].condition.Some? && es[k].target == x
      {
        var k :| 0 <= k < |es[1..]| && es[1..][k].condition.Some? && es[1..][k].target == x;
        assert es[k + 1] == es[1..][k];
      }
      forall x | exists k :: 0 <= k < |es| && es[k].condition.Some? && es[k].target == x
        ensures x in ConditionedTargets(es)
      {
        var k :| 0 <= k < |es| && es[k].condition.Some? && es[k].target == x;
        if k > 0 {
          assert es[1..][k - 1] == es[k];
        }
      }
    }
  }

  /** Node `a` opens a parallel scope: more than one edge, at least one of them conditioned (lines 313-319). */
  predicate Fires(em: EdgeMapping, a: NodeId)
  {
    |Out(em, a)| > 1 && ConditionedTargets(Out(em, a)) != []
  }

  /** Lines 321-323: the scope of the first branch root, when every branch root already has one. */
  function ParentOf(pids: seq<NodeId>, np: map<NodeId, ParallelId>): Option<ParallelId>
    requires pids != []
  {
    if forall x :: x in pids ==> x in np then Some(np[pids[0]]) else None
  }

  /** `dict.update` with every key of `ks` mapped to `id` (line 333). */
  function Scope(np: map<NodeId, ParallelId>, ks: seq<NodeId>, id: ParallelId): (r: map<NodeId, ParallelId>)
    ensures r.Keys == np.Keys + Elems(ks)
  {
    map x | x in np.Keys + Elems(ks) :: if x in ks then id else np[x]
  }

  /** Lines 312-333: what visiting `start` does before descending. */
  function Detect(em: EdgeMapping, start: NodeId, s: ParallelState): ParallelState
  {
    if !Fires(em, start) then s
    else
      var pids := ConditionedTargets(Out(em, start));
      var p := GraphParallel(s.nextId, ParentOf(pids, s.nodeParallel));
      var inBranch := FetchAllNodeIdsInParallels(em, pids);
      ParallelState(s.parallels[p.id := p], Scope(s.nodeParallel, Keys(inBranch), p.id), s.nextId + 1)
  }

  /** `_recursively_add_parallels` from `start`. */
  function AddParallels(em: EdgeMapping, start: NodeId, s: ParallelState): ParallelState
    requires AcyclicFrom(em, start)
    decreases Elems(FetchRoutes(em, start)), 1, 0
  {
    VisitEdges(em, start, 0, Detect(em, start, s))
  }

  /** Lines 335-341: descend into the targets of the edges of `start` from index `i` on. */
  function VisitEdges(em: EdgeMapping, start: NodeId, i: nat, s: ParallelState): ParallelState
    requires AcyclicFrom(em, start) && i <= |Out(em, start)|
    decreases Elems(FetchRoutes(em, start)), 0, |Out(em, start)| - i
  {
    if i == |Out(em, start)| then s
    else
      var t := Out(em, start)[i].target;
      EdgeIsSucc(em, start, i);
      SuccShrinks(em, start, t);
      VisitEdges(em, start, i + 1, AddParallels(em, t, s))
  }

  // ---------------------------------------------------------------------------
  // One visit

  /**
    A node that does not fan out with a condition changes nothing. One that
    does takes the next id for a new scope whose parent is the scope of the
    first branch root exactly when every branch root already has a scope; the
    other scopes stay.
   */
  lemma DetectNewScope(em: EdgeMapping, start: NodeId, s: ParallelState)
    ensures !Fires(em, start) ==> Detect(em, start, s) == s
    ensures Fires(em, start) ==>
      var pids := ConditionedTargets(Out(em, start));
      var r := Detect(em, start, s);
      && r.nextId == s.nextId + 1
      && r.parallels.Keys == s.parallels.Keys + {s.nextId}
      && (forall k :: k in s.parallels && k != s.nextId ==> r.parallels[k] == s.parallels[k])
      && r.parallels[s.nextId].id == s.nextId
      && (r.parallels[s.nextId].parent.Some? <==> forall x :: x in pids ==> x in s.nodeParallel)
      && (r.parallels[s.nextId].parent.Some? ==> r.parallels[s.nextId].parent.value == s.nodeParallel[pids[0]])
  { }

  /**
    Of the lists `_fetch_all_node_ids_in_parallels` returns only the keys — the
    branch roots themselves — are mapped to the new scope, and every other
    node mapping stays.
   */
  lemma DetectScopesRoots(em: EdgeMapping, start: NodeId, s: ParallelState)
    requires Fires(em, start)
    ensures var pids := ConditionedTargets(Out(em, start));
      var r := Detect(em, start, s);
      && r.nodeParallel.Keys == s.nodeParallel.Keys + Elems(pids)
      && (forall x :: x in pids ==> r.nodeParallel[x] == s.nextId)
      && (forall x :: x in s.nodeParallel && x !in pids ==> r.nodeParallel[x] == s.nodeParallel[x])
  {
    var pids := ConditionedTargets(Out(em, start));
    FetchAllSpec(em, pids);
    var ks := Keys(FetchAllNodeIdsInParallels(em, pids));
    assert Elems(ks) == Elems(pids);
    assert forall x :: x in ks <==> x in pids by {
      forall x
        ensures x in ks <==> x in pids
      {
        assert x in ks <==> x in Elems(ks);
        assert x in pids <==> x in Elems(pids);
      }
    }
  }

  /**
    Visiting a fan-out node a second time — as the descent does when two paths
    lead to it — opens a second scope, which takes over its branch roots and
    has the first scope as its parent.
   */
  lemma DetectTwice(em: EdgeMapping, a: NodeId, s: ParallelState)
    requires Fires(em, a)
    ensures var s2 := Detect(em, a, Detect(em, a, s));
      && s2.nextId == s.nextId + 2
      && s.nextId in s2.parallels && s.nextId + 1 in s2.parallels
      && s2.parallels[s.nextId + 1].parent == Some(s.nextId)
      && forall x :: x in ConditionedTargets(Out(em, a)) ==> s2.nodeParallel[x] == s.nextId + 1
  {
    var s1 := Detect(em, a, s);
    DetectNewScope(em, a, s);
    DetectScopesRoots(em, a, s);
    DetectNewScope(em, a, s1);
    DetectScopesRoots(em, a, s1);
    var pids := ConditionedTargets(Out(em, a));
    assert pids[0] in pids;
  }

  // ---------------------------------------------------------------------------
  // Well-formedness of the scope tables

  /**
    Every scope is keyed by its own id; a parent is a known scope with a
    smaller id (so following parents always ends); every mapped node is mapped
    to a known scope.
   */
  ghost predicate ScopesWellformed(pm: map<ParallelId, GraphParallel>, np: map<NodeId, ParallelId>)
  {
    && (forall k :: k in pm ==>
          && pm[k].id == k
          && (pm[k].parent.Some? ==> pm[k].parent.value in pm && pm[k].parent.value < k))
    && (forall n :: n in np ==> np[n] in pm)
  }

  /** The tables are well formed and every id in use is below the next fresh one. */
  ghost predicate Wellformed(s: ParallelState)
  {
    && ScopesWellformed(s.parallels, s.nodeParallel)
    && (forall k :: k in s.parallels ==> k < s.nextId)
  }

  /** `s'` only adds to `s`: ids move forward, scopes are kept, mapped nodes stay mapped. */
  ghost predicate Extends(s: ParallelState, s': ParallelState)
  {
    && s.nextId <= s'.nextId
    && (forall k :: k in s.parallels ==> k in s'.parallels && s'.parallels[k] == s.parallels[k])
    && s.nodeParallel.Keys <= s'.nodeParallel.Keys
  }

  lemma DetectWellformed(em: EdgeMapping, start: NodeId, s: ParallelState)
    requires Wellformed(s)
    ensures Wellformed(Detect(em, start, s)) && Extends(s, Detect(em, start, s))
  {
    DetectNewScope(em, start, s);
    if Fires(em, start) {
      DetectScopesRoots(em, start, s);
    }
    if Fires(em, start) {
      var pids := ConditionedTargets(Out(em, start));
      var r := Detect(em, start, s);
      assert s.nextId !in s.parallels;
      var p := r.parallels[s.nextId];
      if p.parent.Some? {
        assert pids[0] in pids;
        assert p.parent.value in s.parallels;
      }
    }
  }

  lemma {:induction false} AddParallelsWellformed(em: EdgeMapping, start: NodeId, s: ParallelState)
    requires AcyclicFrom(em, start) && Wellformed(s)
    ensures Wellformed(AddParallels(em, start, s)) && Extends(s, AddParallels(em, start, s))
    decreases Elems(FetchRoutes(em, start)), 1, 0
  {
    DetectWellformed(em, start, s);
    VisitEdgesWellformed(em, start, 0, Detect(em, start, s));
  }

  lemma {:induction false} VisitEdgesWellformed(em: EdgeMapping, start: NodeId, i: nat, s: ParallelState)
    requires AcyclicFrom(em, start) && i <= |Out(em, start)| && Wellformed(s)
    ensures Wellformed(VisitEdges(em, start, i, s)) && Extends(s, VisitEdges(em, start, i, s))
    decreases Elems(FetchRoutes(em, start)), 0, |Out(em, start)| - i
  {
    if i < |Out(em, start)| {
      var t := Out(em, start)[i].target;
      EdgeIsSucc(em, start, i);
      SuccShrinks(em, start, t);
      var s' := AddParallels(em, t, s);
      AddParallelsWellformed(em, t, s);
      VisitEdgesWellformed(em, start, i + 1, s');
    }
  }

  // ---------------------------------------------------------------------------
  // Which nodes get a scope

  /** `x` is a branch root of a fan-out node at or below `start`. */
  ghost predicate BranchRootBelow(em: EdgeMapping, start: NodeId, x: NodeId)
  {
    exists a :: (a == start || Reaches(em, start, a, {})) && Fires(em, a) && x in ConditionedTargets(Out(em, a))
  }

  /** `x` is a branch root at or below the target of an edge of `start` from index `i` on. */
  ghost predicate BranchRootBelowEdges(em: EdgeMapping, start: NodeId, i: int, x: NodeId)
  {
    exists k :: 0 <= i <= k < |Out(em, start)| && BranchRootBelow(em, Out(em, start)[k].target, x)
  }

  /** Being below `start` is being a branch root of `start` itself or below one of its edges. */
  lemma BranchRootBelowUnfold(em: EdgeMapping, start: NodeId, x: NodeId)
    ensures BranchRootBelow(em, start, x) <==>
              (Fires(em, start) && x in ConditionedTargets(Out(em, start))) || BranchRootBelowEdges(em, start, 0, x)
  {
    if BranchRootBelow(em, start, x) {
      var a :| (a == start || Reaches(em, start, a, {})) && Fires(em, a) && x in ConditionedTargets(Out(em, a));
      if a != start {
        ReachesFirst(em, start, a, {});
        var k :| 0 <= k < |Out(em, start)| && (Out(em, start)[k].target == a || Reaches(em, Out(em, start)[k].target, a, {}));
        assert BranchRootBelow(em, Out(em, start)[k].target, x);
      }
    }
    if BranchRootBelowEdges(em, start, 0, x) {
      var k :| 0 <= k < |Out(em, start)| && BranchRootBelow(em, Out(em, start)[k].target, x);
      var t := Out(em, start)[k].target;
      var a :| (a == t || Reaches(em, t, a, {})) && Fires(em, a) && x in ConditionedTargets(Out(em, a));
      EdgeIsSucc(em, start, k);
      if a == t {
        ReachesStep(em, start, t, {});
      } else {
        ReachesPrepend(em, start, t, a, {});
      }
    }
  }

  lemma {:induction false} AddParallelsScopes(em: EdgeMapping, start: NodeId, s: ParallelState)
    requires AcyclicFrom(em, start)
    ensures forall x :: x in AddParallels(em, start, s).nodeParallel <==>
              x in s.nodeParallel || BranchRootBelow(em, start, x)
    decreases Elems(FetchRoutes(em, start)), 1, 0
  {
    var d := Detect(em, start, s);
    DetectNewScope(em, start, s);
    if Fires(em, start) {
      DetectScopesRoots(em, start, s);
    }
    VisitEdgesScopes(em, start, 0, d);
    forall x
      ensures x in AddParallels(em, start, s).nodeParallel <==> x in s.nodeParallel || BranchRootBelow(em, start, x)
    {
      BranchRootBelowUnfold(em, start, x);
      assert x in d.nodeParallel <==> x in s.nodeParallel || (Fires(em, start) && x in ConditionedTargets(Out(em, start)));
    }
  }

  lemma BranchRootBelowEdgesUnfold(em: EdgeMapping, start: NodeId, i: nat, x: NodeId)
    requires i < |Out(em, start)|
    ensures BranchRootBelowEdges(em, start, i, x) <==>
              BranchRootBelow(em, Out(em, start)[i].target, x) || BranchRootBelowEdges(em, start, i + 1, x)
  {
    var es := Out(em, start);
    if BranchRootBelowEdges(em, start, i, x) {
      var k :| 0 <= i <= k < |es| && BranchRootBelow(em, es[k].target, x);
      if k != i {
        assert 0 <= i + 1 <= k < |es|;
      }
    }
    if BranchRootBelow(em, es[i].target, x) {
      assert 0 <= i <= i < |es|;
    }
    if BranchRootBelowEdges(em, start, i + 1, x) {
      var k :| 0 <= i + 1 <= k < |es| && BranchRootBelow(em, es[k].target, x);
      assert 0 <= i <= k < |es|;
    }
  }

  lemma {:induction false} VisitEdgesScopes(em: EdgeMapping, start: NodeId, i: nat, s: ParallelState)
    requires AcyclicFrom(em, start) && i <= |Out(em, start)|
    ensures forall x :: x in VisitEdges(em, start, i, s).nodeParallel <==>
              x in s.nodeParallel || BranchRootBelowEdges(em, start, i, x)
    decreases Elems(FetchRoutes(em, start)), 0, |Out(em, start)| - i
  {
    if i < |Out(em, start)| {
      var t := Out(em, start)[i].target;
      EdgeIsSucc(em, start, i);
      SuccShrinks(em, start, t);
      var s' := AddParallels(em, t, s);
      AddParallelsScopes(em, t, s);
      VisitEdgesScopes(em, start, i + 1, s');
      var r := VisitEdges(em, start, i, s);
      assert r == VisitEdges(em, start, i + 1, s');
      forall x
        ensures x in r.nodeParallel <==> x in s.nodeParallel || BranchRootBelowEdges(em, start, i, x)
      {
        BranchRootBelowEdgesUnfold(em, start, i, x);
      }
    }
  }
}
