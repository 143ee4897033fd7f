/**
  The queries and the one mutation a built graph offers (graph.py lines
  213-296): the next nodes to run, adding an extra edge, and the leaf nodes.
 */
module GraphQueries {
  import opened Collections
  import opened GraphEntities
  import opened ParallelDetection

  /** A dict lookup of a missing key (lines 222 and 249). */
  datatype QueryError = KeyError

  /**
    The condition handler's verdict for a conditioned edge, given the edge's
    condition, source and target. The handlers read the graph's run state,
    which a query does not change, so for one query this is a fixed function.
   */
  type Accept = (RunCondition, NodeId, NodeId) -> bool

  // ---------------------------------------------------------------------------
  // next_node_ids (lines 213-253)

  /** The edges whose target has not run yet (lines 227-229). */
  function Unvisited(es: seq<GraphEdge>, routes: map<NodeId, seq<GraphStateRoute>>): seq<GraphEdge>
  {
    if es == [] then []
    else (if es[0].target !in routes then [es[0]] else []) + Unvisited(es[1..], routes)
  }

  /** Lines 221-229: the unvisited out-edges of every route entry, in route order then edge order. */
  function FrontierEdges(em: EdgeMapping, routes: map<NodeId, seq<GraphStateRoute>>, rs: seq<GraphStateRoute>): seq<GraphEdge>
  {
    if rs == [] then []
    else Unvisited(Out(em, rs[0].nodeId), routes) + FrontierEdges(em, routes, rs[1..])
  }

  /** An edge passes lines 235-245: unconditioned, or its condition handler accepts it. */
  predicate Admitted(accept: Accept, e: GraphEdge)
  {
    e.condition.None? || accept(e.condition.value, e.source, e.target)
  }

  /** Lines 232-251 over the frontier edges `es`. */
  function NextNodes(g: Graph, accept: Accept, es: seq<GraphEdge>): Result<seq<NextGraphNode>, QueryError>
  {
    if es == [] then Success([])
    else
      var e := es[0];
      if !Admitted(accept, e) then NextNodes(g, accept, es[1..])
      else if e.target in g.nodeParallelMapping && g.nodeParallelMapping[e.target] !in g.parallelMapping then
        Failure(KeyError)
      else
        var p := if e.target in g.nodeParallelMapping then Some(g.parallelMapping[g.nodeParallelMapping[e.target]]) else None;
        match NextNodes(g, accept, es[1..])
        case Failure(err) => Failure(err)
        case Success(rest) => Success([NextGraphNode(e.target, p)] + rest)
  }

  /** `Graph.next_node_ids`. */
  function NextNodeIds(g: Graph, accept: Accept): Result<seq<NextGraphNode>, QueryError>
  {
    var routes := g.runState.routes;
    if routes == map[] then Success([NextGraphNode(g.rootNodeId, None)])
    else if g.rootNodeId !in routes then Failure(KeyError)
    else NextNodes(g, accept, FrontierEdges(g.edgeMapping, routes, routes[g.rootNodeId]))
  }

  /** Reference: the admitted edges of `es`, in order. */
  function AdmittedEdges(accept: Accept, es: seq<GraphEdge>): seq<GraphEdge>
  {
    if es == [] then []
    else (if Admitted(accept, es[0]) then [es[0]] else []) + AdmittedEdges(accept, es[1..])
  }

  /** The scope a node belongs to in `g`, if it has one whose entry exists. */
  ghost predicate ScopeOk(g: Graph, n: NextGraphNode)
  {
    && (n.parallel.Some? <==> n.nodeId in g.nodeParallelMapping)
    && (n.parallel.Some? ==>
          && g.nodeParallelMapping[n.nodeId] in g.parallelMapping
          && n.parallel.value == g.parallelMapping[g.nodeParallelMapping[n.nodeId]])
  }

  lemma {:induction false} UnvisitedSpec(es: seq<GraphEdge>, routes: map<NodeId, seq<GraphStateRoute>>)
    ensures forall e :: e in Unvisited(es, routes) <==> e in es && e.target !in routes
  {
    if es != [] {
      UnvisitedSpec(es[1..], routes);
      assert es == [es[0]] + es[1..];
    }
  }

  /** A frontier edge is an out-edge of some route entry's node whose target has not run yet. */
  lemma {:induction false} FrontierEdgesSpec(em: EdgeMapping, routes: map<NodeId, seq<GraphStateRoute>>, rs: seq<GraphStateRoute>)
    ensures forall e :: e in FrontierEdges(em, routes, rs) <==>
              (exists r :: r in rs && e in Out(em, r.nodeId)) && e.target !in routes
  {
    if rs != [] {
      FrontierEdgesSpec(em, routes, rs[1..]);
      UnvisitedSpec(Out(em, rs[0].nodeId), routes);
      assert rs == [rs[0]] + rs[1..];
      forall e | (exists r :: r in rs && e in Out(em, r.nodeId)) && e.target !in routes
        ensures e in FrontierEdges(em, routes, rs)
      {
        var r :| r in rs && e in Out(em, r.nodeId);
        if r != rs[0] {
          assert r in rs[1..];
        }
      }
    }
  }

  /** An admitted first edge that walks successfully heads the result. */
  lemma NextNodesHead(g: Graph, accept: Accept, es: seq<GraphEdge>)
    requires es != [] && Admitted(accept, es[0]) && NextNodes(g, accept, es).Success?
    ensures NextNodes(g, accept, es[1..]).Success?
    ensures var r := NextNodes(g, accept, es).value;
      && r == [r[0]] + NextNodes(g, accept, es[1..]).value
      && r[0].nodeId == es[0].target && ScopeOk(g, r[0])
    ensures AdmittedEdges(accept, es) == [es[0]] + AdmittedEdges(accept, es[1..])
  { }

  /**
    Walking the frontier fails exactly when an admitted edge leads to a node
    whose scope id has no scope entry; otherwise it lists, in order, one entry
    per admitted edge: the edge's target, with the target's scope when it has
    one.
   */
  lemma {:induction false} NextNodesSpec(g: Graph, accept: Accept, es: seq<GraphEdge>)
    ensures NextNodes(g, accept, es).Success? <==>
              forall e :: e in es && Admitted(accept, e) && e.target in g.nodeParallelMapping ==>
                g.nodeParallelMapping[e.target] in g.parallelMapping
    ensures NextNodes(g, accept, es).Success? ==>
              var r := NextNodes(g, accept, es).value;
              var adm := AdmittedEdges(accept, es);
              && |r| == |adm|
              && forall i :: 0 <= i < |r| ==> r[i].nodeId == adm[i].target && ScopeOk(g, r[i])
  {
    NextNodesSucceeds(g, accept, es);
    NextNodesEntries(g, accept, es);
  }

  lemma {:induction false} NextNodesSucceeds(g: Graph, accept: Accept, es: seq<GraphEdge>)
    ensures NextNodes(g, accept, es).Success? <==>
              forall e :: e in es && Admitted(accept, e) && e.target in g.nodeParallelMapping ==>
                g.nodeParallelMapping[e.target] in g.parallelMapping
  {
    if es != [] {
      NextNodesSucceeds(g, accept, es[1..]);
      assert es == [es[0]] + es[1..];
    }
  }

  /** `r` lists, entry by entry, the targets of `adm` tagged with their scopes. */
  ghost predicate Matches(g: Graph, r: seq<NextGraphNode>, adm: seq<GraphEdge>)
  {
    && |r| == |adm|
    && forall i :: 0 <= i < |r| ==> r[i].nodeId == adm[i].target && ScopeOk(g, r[i])
  }

  lemma MatchesCons(g: Graph, n: NextGraphNode, e: GraphEdge, r: seq<NextGraphNode>, adm: seq<GraphEdge>)
    requires Matches(g, r, adm) && n.nodeId == e.target && ScopeOk(g, n)
    ensures Matches(g, [n] + r, [e] + adm)
  {
    forall i | 1 <= i < |r| + 1
      ensures ([n] + r)[i].nodeId == ([e] + adm)[i].target && ScopeOk(g, ([n] + r)[i])
    {
      assert ([n] + r)[i] == r[i - 1] && ([e] + adm)[i] == adm[i - 1];
    }
  }

  lemma NextNodesSkip(g: Graph, accept: Accept, es: seq<GraphEdge>)
    requires es != [] && !Admitted(accept, es[0])
    ensures NextNodes(g, accept, es) == NextNodes(g, accept, es[1..])
    ensures AdmittedEdges(accept, es) == AdmittedEdges(accept, es[1..])
  {
    assert AdmittedEdges(accept, es) == [] + AdmittedEdges(accept, es[1..]);
  }

  lemma {:induction false} NextNodesEntries(g: Graph, accept: Accept, es: seq<GraphEdge>)
    ensures NextNodes(g, accept, es).Success? ==>
              Matches(g, NextNodes(g, accept, es).value, AdmittedEdges(accept, es))
  {
    if es != [] && NextNodes(g, accept, es).Success? {
      if Admitted(accept, es[0]) {
        NextNodesHead(g, accept, es);
        NextNodesEntries(g, accept, es[1..]);
        var r := NextNodes(g, accept, es).value;
        MatchesCons(g, r[0], es[0], NextNodes(g, accept, es[1..]).value, AdmittedEdges(accept, es[1..]));
      } else {
        NextNodesSkip(g, accept, es);
        NextNodesEntries(g, accept, es[1..]);
      }
    }
  }

  /**
    `next_node_ids`: before anything has run, just the root, outside any
    scope; once something has run, a missing root entry is a `KeyError`, and
    with well-formed scope tables that is the only failure. Otherwise each
    entry is the target of an admitted out-edge of a node on the root's route
    whose target has not run yet, and each such edge yields an entry, tagged
    with its target's scope exactly when the target has one.
   */
  lemma NextNodeIdsSpec(g: Graph, accept: Accept)
    ensures g.runState.routes == map[] ==> NextNodeIds(g, accept) == Success([NextGraphNode(g.rootNodeId, None)])
    ensures g.runState.routes != map[] && g.rootNodeId !in g.runState.routes ==> NextNodeIds(g, accept) == Failure(KeyError)
    ensures ScopesWellformed(g.parallelMapping, g.nodeParallelMapping) && g.rootNodeId in g.runState.routes ==>
              NextNodeIds(g, accept).Success?
    ensures g.runState.routes != map[] && NextNodeIds(g, accept).Success? ==>
              var routes := g.runState.routes;
              var r := NextNodeIds(g, accept).value;
              && (forall n :: n in r ==> ScopeOk(g, n))
              && (forall n :: n in r ==>
                    exists e :: e in FrontierEdges(g.edgeMapping, routes, routes[g.rootNodeId])
                                && Admitted(accept, e) && e.target == n.nodeId)
              && (forall e :: e in FrontierEdges(g.edgeMapping, routes, routes[g.rootNodeId]) && Admitted(accept, e) ==>
                    exists n :: n in r && n.nodeId == e.target)
  {
    var routes := g.runState.routes;
    if routes != map[] && g.rootNodeId in routes {
      var es := FrontierEdges(g.edgeMapping, routes, routes[g.rootNodeId]);
      NextNodesSpec(g, accept, es);
      if NextNodes(g, accept, es).Success? {
        var r := NextNodes(g, accept, es).value;
        var adm := AdmittedEdges(accept, es);
        AdmittedEdgesSpec(accept, es);
        forall n | n in r
          ensures exists e :: e in es && Admitted(accept, e) && e.target == n.nodeId
        {
          var i :| 0 <= i < |r| && r[i] == n;
          assert adm[i] in adm;
        }
        forall e | e in es && Admitted(accept, e)
          ensures exists n :: n in r && n.nodeId == e.target
        {
          var i :| 0 <= i < |adm| && adm[i] == e;
          assert r[i] in r;
        }
      }
    }
  }

  lemma {:induction false} AdmittedEdgesSpec(accept: Accept, es: seq<GraphEdge>)
    ensures forall e :: e in AdmittedEdges(accept, es) <==> e in es && Admitted(accept, e)
  {
    if es != [] {
      AdmittedEdgesSpec(accept, es[1..]);
      assert es == [es[0]] + es[1..];
    }
  }

  /** The frontier of a concatenation of route entries is the concatenation of their frontiers, in order. */
  lemma {:induction false} FrontierEdgesAppend(em: EdgeMapping, routes: map<NodeId, seq<GraphStateRoute>>,
                                               rs1: seq<GraphStateRoute>, rs2: seq<GraphStateRoute>)
    ensures FrontierEdges(em, routes, rs1 + rs2) == FrontierEdges(em, routes, rs1) + FrontierEdges(em, routes, rs2)
  {
    if rs1 == [] {
      assert rs1 + rs2 == rs2;
    } else {
      assert (rs1 + rs2)[0] == rs1[0];
      assert (rs1 + rs2)[1..] == rs1[1..] + rs2;
      FrontierEdgesAppend(em, routes, rs1[1..], rs2);
      var u := Unvisited(Out(em, rs1[0].nodeId), routes);
      assert (u + FrontierEdges(em, routes, rs1[1..])) + FrontierEdges(em, routes, rs2)
          == u + (FrontierEdges(em, routes, rs1[1..]) + FrontierEdges(em, routes, rs2));
    }
  }

  /** Two route entries for the same node contribute that node's unvisited out-edges twice. */
  lemma FrontierEdgesRepeat(em: EdgeMapping, routes: map<NodeId, seq<GraphStateRoute>>, r: GraphStateRoute, r': GraphStateRoute)
    requires r.nodeId == r'.nodeId
    ensures FrontierEdges(em, routes, [r, r']) == FrontierEdges(em, routes, [r]) + FrontierEdges(em, routes, [r])
  {
    FrontierEdgesAppend(em, routes, [r], [r']);
    assert [r] + [r'] == [r, r'];
    assert [r'][1..] == [] && [r][1..] == [];
  }

  /** Walking a concatenation of edge lists succeeds when both walks do, and lists their results in order. */
  lemma {:induction false} NextNodesAppend(g: Graph, accept: Accept, es1: seq<GraphEdge>, es2: seq<GraphEdge>)
    ensures NextNodes(g, accept, es1 + es2).Success? <==>
              NextNodes(g, accept, es1).Success? && NextNodes(g, accept, es2).Success?
    ensures NextNodes(g, accept, es1 + es2).Success? ==>
              NextNodes(g, accept, es1 + es2).value == NextNodes(g, accept, es1).value + NextNodes(g, accept, es2).value
  {
    if es1 == [] {
      assert es1 + es2 == es2;
    } else {
      assert (es1 + es2)[0] == es1[0];
      assert (es1 + es2)[1..] == es1[1..] + es2;
      NextNodesAppend(g, accept, es1[1..], es2);
      if NextNodes(g, accept, es1 + es2).Success? && Admitted(accept, es1[0]) {
        var e := es1[0];
        var p := if e.target in g.nodeParallelMapping then Some(g.parallelMapping[g.nodeParallelMapping[e.target]]) else None;
        var n := NextGraphNode(e.target, p);
        var a := NextNodes(g, accept, es1[1..]).value;
        var b := NextNodes(g, accept, es2).value;
        assert ([n] + a) + b == [n] + (a + b);
      }
    }
  }

  /**
    `next_node_ids` does not deduplicate: a route holding two entries for the
    same node lists that node's admitted unvisited successors twice, in order.
   */
  lemma RepeatedEntriesRepeatNextNodes(g: Graph, accept: Accept, r: GraphStateRoute, r': GraphStateRoute)
    requires r.nodeId == r'.nodeId
    ensures var routes := g.runState.routes;
      var once := NextNodes(g, accept, FrontierEdges(g.edgeMapping, routes, [r]));
      var twice := NextNodes(g, accept, FrontierEdges(g.edgeMapping, routes, [r, r']));
      && (twice.Success? <==> once.Success?)
      && (twice.Success? ==> twice.value == once.value + once.value)
  {
    var routes := g.runState.routes;
    var f := FrontierEdges(g.edgeMapping, routes, [r]);
    FrontierEdgesRepeat(g.edgeMapping, routes, r, r');
    NextNodesAppend(g, accept, f, f);
  }

  /**
    An instance of `RepeatedEntriesRepeatNextNodes`: two route entries for
    node `a` yield its successor `b` twice.
   */
  lemma RepeatedRouteEntriesRepeatTargets(vp: VariablePool, accept: Accept)
    ensures var em := map["r" := [GraphEdge("r", "a", None)], "a" := [GraphEdge("a", "b", None)]];
      var routes := map["r" := [GraphStateRoute("1", "a"), GraphStateRoute("2", "a")]];
      var g := Graph("r", ["r", "a", "b"], em, map[], map[], GraphState(routes, vp, map[]));
      NextNodeIds(g, accept) == Success([NextGraphNode("b", None), NextGraphNode("b", None)])
  {
    var em := map["r" := [GraphEdge("r", "a", None)], "a" := [GraphEdge("a", "b", None)]];
    var routes := map["r" := [GraphStateRoute("1", "a"), GraphStateRoute("2", "a")]];
    var g := Graph("r", ["r", "a", "b"], em, map[], map[], GraphState(routes, vp, map[]));
    var e := GraphEdge("a", "b", None);
    assert "b" != "r" by { assert "b"[0] != "r"[0]; }
    assert Out(em, "a") == [e];
    assert Unvisited([e], routes) == [e];
    var rs := routes["r"];
    assert rs[1..][1..] == [];
    assert FrontierEdges(em, routes, rs) == [e, e];
    assert [e, e][1..] == [e] && [e][1..] == [];
    assert Admitted(accept, e) && e.target !in g.nodeParallelMapping;
    NextNodesSpec(g, accept, [e, e]);
    assert AdmittedEdges(accept, [e]) == [e];
    assert AdmittedEdges(accept, [e, e]) == [e, e];
    var r := NextNodes(g, accept, [e, e]).value;
    assert r[0] == NextGraphNode("b", None) && r[1] == NextGraphNode("b", None);
    assert r == [NextGraphNode("b", None), NextGraphNode("b", None)];
    assert "r" in routes && routes != map[];
    assert NextNodeIds(g, accept) == NextNodes(g, accept, [e, e]);
  }

  // ---------------------------------------------------------------------------
  // add_extra_edge (lines 255-280)

  /** `Graph.add_extra_edge`. */
  function AddExtraEdge(g: Graph, src: NodeId, tgt: NodeId, cond: Option<RunCondition>): Graph
  {
    if src !in g.nodeIds || tgt !in g.nodeIds then g
    else
      var em := if src in g.edgeMapping then g.edgeMapping else g.edgeMapping[src := []];
      if tgt in Targets(em[src]) then g.(edgeMapping := em)
      else g.(edgeMapping := em[src := em[src] + [GraphEdge(src, tgt, cond)]])
  }

  /**
    Adding an extra edge changes only the edge mapping, and nothing at all
    unless both ends are nodes of the graph. Then `src` gets an entry, keeps
    its edges, and gains an edge to `tgt` exactly when it had none; every
    other node's edges stay as they were.
   */
  lemma AddExtraEdgeSpec(g: Graph, src: NodeId, tgt: NodeId, cond: Option<RunCondition>)
    ensures AddExtraEdge(g, src, tgt, cond).(edgeMapping := g.edgeMapping) == g
    ensures src !in g.nodeIds || tgt !in g.nodeIds ==> AddExtraEdge(g, src, tgt, cond) == g
    ensures src in g.nodeIds && tgt in g.nodeIds ==>
              var em' := AddExtraEdge(g, src, tgt, cond).edgeMapping;
              && src in em'
              && Succ(em', src, tgt)
              && Out(em', src) == Out(g.edgeMapping, src)
                                  + (if Succ(g.edgeMapping, src, tgt) then [] else [GraphEdge(src, tgt, cond)])
              && forall x :: x != src ==> (x in em' <==> x in g.edgeMapping) && Out(em', x) == Out(g.edgeMapping, x)
  {
    if src in g.nodeIds && tgt in g.nodeIds {
      var em' := AddExtraEdge(g, src, tgt, cond).edgeMapping;
      var es := Out(em', src);
      if !Succ(g.edgeMapping, src, tgt) {
        assert es[|es| - 1].target == tgt;
        assert Targets(es)[|es| - 1] == tgt;
      }
    }
  }

  /** Adding the same edge twice is adding it once, whatever condition the second call carries. */
  lemma AddExtraEdgeIdempotent(g: Graph, src: NodeId, tgt: NodeId, cond: Option<RunCondition>, cond': Option<RunCondition>)
    ensures AddExtraEdge(AddExtraEdge(g, src, tgt, cond), src, tgt, cond') == AddExtraEdge(g, src, tgt, cond)
  {
    AddExtraEdgeSpec(g, src, tgt, cond);
  }

  /** Adding an extra edge never gives `src` two edges to the same target. */
  lemma AddExtraEdgeNoDupTargets(g: Graph, src: NodeId, tgt: NodeId, cond: Option<RunCondition>)
    requires NoDup(Targets(Out(g.edgeMapping, src)))
    ensures NoDup(Targets(Out(AddExtraEdge(g, src, tgt, cond).edgeMapping, src)))
  {
    AddExtraEdgeSpec(g, src, tgt, cond);
    var before := Targets(Out(g.edgeMapping, src));
    var after := Targets(Out(AddExtraEdge(g, src, tgt, cond).edgeMapping, src));
    if src in g.nodeIds && tgt in g.nodeIds && !Succ(g.edgeMapping, src, tgt) {
      assert after == before + [tgt];
    }
  }

  // ---------------------------------------------------------------------------
  // get_leaf_node_ids (lines 282-296)

  /** Lines 290-294: no entry in the edge mapping, or a single edge and it leads back to the root. */
  predicate IsLeaf(em: EdgeMapping, root: NodeId, n: NodeId)
  {
    n !in em || (|em[n]| == 1 && em[n][0].target == root)
  }

  function LeavesOf(em: EdgeMapping, root: NodeId, ns: seq<NodeId>): seq<NodeId>
  {
    if ns == [] then []
    else (if IsLeaf(em, root, ns[0]) then [ns[0]] else []) + LeavesOf(em, root, ns[1..])
  }

  /** `Graph.get_leaf_node_ids`. */
  function GetLeafNodeIds(g: Graph): seq<NodeId>
  {
    LeavesOf(g.edgeMapping, g.rootNodeId, g.nodeIds)
  }

  lemma {:induction false} LeavesOfSpec(em: EdgeMapping, root: NodeId, ns: seq<NodeId>)
    ensures IsSubsequence(LeavesOf(em, root, ns), ns)
    ensures forall x :: x in LeavesOf(em, root, ns) <==> x in ns && IsLeaf(em, root, x)
  {
    if ns != [] {
      LeavesOfSpec(em, root, ns[1..]);
      assert ns == [ns[0]] + ns[1..];
      var rest := LeavesOf(em, root, ns[1..]);
      var r := LeavesOf(em, root, ns);
      if IsLeaf(em, root, ns[0]) {
        assert r == [ns[0]] + rest;
        assert r[0] == ns[0] && r[1..] == rest;
      } else {
        assert r == rest;
        if r != [] {
          assert IsSubsequence(r, ns[1..]);
        }
      }
    }
  }

  /**
    The leaves are the graph's nodes, in node order, that have no entry in
    the edge mapping or whose only successor is the root; in particular a
    node whose entry is an empty list is not a leaf.
   */
  lemma GetLeafNodeIdsSpec(g: Graph)
    ensures IsSubsequence(GetLeafNodeIds(g), g.nodeIds)
    ensures forall x :: x in GetLeafNodeIds(g) <==>
              x in g.nodeIds && (x !in g.edgeMapping || Targets(g.edgeMapping[x]) == [g.rootNodeId])
    ensures forall x :: x in g.edgeMapping && g.edgeMapping[x] == [] ==> x !in GetLeafNodeIds(g)
  {
    LeavesOfSpec(g.edgeMapping, g.rootNodeId, g.nodeIds);
    forall x | x in g.edgeMapping
      ensures IsLeaf(g.edgeMapping, g.rootNodeId, x) <==> Targets(g.edgeMapping[x]) == [g.rootNodeId]
    {
      var ts := Targets(g.edgeMapping[x]);
      if ts == [g.rootNodeId] {
        assert ts[0] == g.edgeMapping[x][0].target;
      }
    }
  }
}
