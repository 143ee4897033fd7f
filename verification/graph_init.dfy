/**
  `Graph.init` (graph.py lines 77-188): parse the edges, require at least one
  node, resolve the root among the nodes no edge points at, collect the node
  ids reachable from it and detect the parallel scopes.
 */
module GraphInit {
  import opened Collections
  import opened GraphEntities
  import opened Reachability
  import opened EdgeParsing
  import opened ParallelDetection

  /** One entry of `nodes`: its `id` and its `data.type` ("" when missing). */
  datatype NodeConfig = NodeConfig(id: string, kind: string)

  /** The configuration: `edges` (an absent list is empty) and `nodes`. */
  datatype GraphConfig = GraphConfig(edges: seq<EdgeConfig>, nodes: seq<NodeConfig>)

  /**
    The ways `init` ends without a graph: the `ValueError`s of lines 133 and
    156, and the `RecursionError` the descent of `_recursively_add_parallels`
    runs into when a cycle is reachable from the root.
   */
  datatype InitError = NoNodes | RootNotFound | RecursionError

  /** `NodeType.START.value`. */
  const StartKind: string := "start"

  /** Lines 138-145: the nodes with an id that no edge targets, in configuration order. */
  function RootCandidates(nodes: seq<NodeConfig>, targets: set<NodeId>): seq<NodeConfig>
  {
    if nodes == [] then []
    else (if nodes[0].id != "" && nodes[0].id !in targets then [nodes[0]] else []) + RootCandidates(nodes[1..], targets)
  }

  /** Line 147. */
  function CandidateIds(cs: seq<NodeConfig>): (ids: seq<NodeId>)
    ensures |ids| == |cs|
    ensures forall i :: 0 <= i < |cs| ==> ids[i] == cs[i].id
  {
    seq(|cs|, i requires 0 <= i < |cs| => cs[i].id)
  }

  /** The `next(...)` of lines 152-153: the first candidate of start type. */
  function FirstStart(cs: seq<NodeConfig>): Option<NodeConfig>
  {
    if cs == [] then None
    else if cs[0].kind == StartKind then Some(cs[0])
    else FirstStart(cs[1..])
  }

  /** What `root_node_id` holds when line 155 tests it: a string, a node configuration, or `None`. */
  datatype RootValue = RootId(id: string) | RootConfig(config: NodeConfig) | RootNone

  /** Lines 150-153 as written: without a root id, the start-type node's whole configuration is bound. */
  function ResolveRoot(given: NodeId, cs: seq<NodeConfig>): RootValue
  {
    if given != "" then RootId(given)
    else
      match FirstStart(cs)
      case Some(c) => RootConfig(c)
      case None => RootNone
  }

  /** Lines 150-153 as the comment of line 151 means them: the start-type node's id. */
  function ResolveRootIntended(given: NodeId, cs: seq<NodeConfig>): RootValue
  {
    if given != "" then RootId(given)
    else
      match FirstStart(cs)
      case Some(c) => RootId(c.id)
      case None => RootNone
  }

  /**
    Line 155: the value must be truthy and one of the candidate ids. A
    configuration dict never equals a string, and `None` is falsy.
   */
  predicate RootAccepted(v: RootValue, ids: seq<NodeId>)
  {
    v.RootId? && v.id != "" && v.id in ids
  }

  /** The empty parallel tables of lines 167-168. */
  const NoParallels: ParallelState := ParallelState(map[], map[], 0)

  /** Lines 158-188 once the root is settled. */
  function Build(em: EdgeMapping, vp: VariablePool, root: NodeId): Result<Graph, InitError>
  {
    if !NoCycleFrom(em, root) then Failure(RecursionError)
    else
      NoCycleFromIff(em, root);
      var ps := AddParallels(em, root, NoParallels);
      Success(Graph(root, AddNodeIds(em, root), em, ps.parallels, ps.nodeParallel, GraphState(map[], vp, map[])))
  }

  /** The candidate ids of a configuration. */
  function RootIds(cfg: GraphConfig): seq<NodeId>
  {
    CandidateIds(RootCandidates(cfg.nodes, ParseEdges(cfg.edges).targetEdgeIds))
  }

  /** `Graph.init` as written; `given` is `root_node_id`, with "" for `None`. */
  function Init(cfg: GraphConfig, vp: VariablePool, given: NodeId): Result<Graph, InitError>
  {
    var parsed := ParseEdges(cfg.edges);
    if cfg.nodes == [] then Failure(NoNodes)
    else
      var cs := RootCandidates(cfg.nodes, parsed.targetEdgeIds);
      var v := ResolveRoot(given, cs);
      if !RootAccepted(v, CandidateIds(cs)) then Failure(RootNotFound)
      else Build(parsed.edgeMapping, vp, v.id)
  }

  /** `Graph.init` with the root resolution of lines 150-153 corrected. */
  function InitIntended(cfg: GraphConfig, vp: VariablePool, given: NodeId): Result<Graph, InitError>
  {
    var parsed := ParseEdges(cfg.edges);
    if cfg.nodes == [] then Failure(NoNodes)
    else
      var cs := RootCandidates(cfg.nodes, parsed.targetEdgeIds);
      var v := ResolveRootIntended(given, cs);
      if !RootAccepted(v, CandidateIds(cs)) then Failure(RootNotFound)
      else Build(parsed.edgeMapping, vp, v.id)
  }

  // ---------------------------------------------------------------------------
  // Root candidates

  lemma {:induction false} RootCandidatesSpec(nodes: seq<NodeConfig>, targets: set<NodeId>)
    ensures forall c :: c in RootCandidates(nodes, targets) <==> c in nodes && c.id != "" && c.id !in targets
  {
    if nodes != [] {
      RootCandidatesSpec(nodes[1..], targets);
      assert nodes == [nodes[0]] + nodes[1..];
    }
  }

  lemma CandidateIdsSpec(cs: seq<NodeConfig>)
    ensures forall x :: x in CandidateIds(cs) <==> exists c :: c in cs && c.id == x
  {
    forall x | x in CandidateIds(cs)
      ensures exists c :: c in cs && c.id == x
    {
      var i :| 0 <= i < |cs| && CandidateIds(cs)[i] == x;
      assert cs[i] in cs;
    }
    forall x | exists c :: c in cs && c.id == x
      ensures x in CandidateIds(cs)
    {
      var c :| c in cs && c.id == x;
      var i :| 0 <= i < |cs| && cs[i] == c;
      assert CandidateIds(cs)[i] == x;
    }
  }

  /**
    The root candidates are exactly the non-empty ids of configured nodes that
    no parsed edge points at.
   */
  lemma RootIdsSpec(cfg: GraphConfig)
    ensures forall x :: x in RootIds(cfg) <==>
              x != "" && x !in TargetSet(ParseEdges(cfg.edges).edgeMapping) && exists c :: c in cfg.nodes && c.id == x
  {
    var targets := ParseEdges(cfg.edges).targetEdgeIds;
    TargetIdsAreEdgeTargets(cfg.edges);
    RootCandidatesSpec(cfg.nodes, targets);
    CandidateIdsSpec(RootCandidates(cfg.nodes, targets));
  }

  /** The first start-type candidate, if any: start type, and no earlier candidate is. */
  lemma {:induction false} FirstStartSpec(cs: seq<NodeConfig>)
    ensures FirstStart(cs).None? <==> forall c :: c in cs ==> c.kind != StartKind
    ensures FirstStart(cs).Some? ==>
              exists i :: 0 <= i < |cs| && cs[i] == FirstStart(cs).value && cs[i].kind == StartKind
                && forall j :: 0 <= j < i ==> cs[j].kind != StartKind
  {
    if cs != [] {
      FirstStartSpec(cs[1..]);
      assert cs == [cs[0]] + cs[1..];
      if cs[0].kind != StartKind && FirstStart(cs).Some? {
        var i :| 0 <= i < |cs[1..]| && cs[1..][i] == FirstStart(cs).value && cs[1..][i].kind == StartKind
                 && forall j :: 0 <= j < i ==> cs[1..][j].kind != StartKind;
        assert cs[i + 1] == cs[1..][i];
        assert forall j :: 1 <= j < i + 1 ==> cs[j] == cs[1..][j - 1];
      }
    }
  }

  // ---------------------------------------------------------------------------
  // Outcome of `init`

  /**
    `init` fails with `NoNodes` exactly when there are no nodes; otherwise it
    succeeds exactly when an explicit root id is given, is a root candidate and
    reaches no cycle — and with no explicit root id it never succeeds.
   */
  lemma InitOutcome(cfg: GraphConfig, vp: VariablePool, given: NodeId)
    ensures (Init(cfg, vp, given) == Failure(NoNodes)) <==> cfg.nodes == []
    ensures cfg.nodes != [] ==>
              (Init(cfg, vp, given) == Failure(RootNotFound) <==> !(given != "" && given in RootIds(cfg)))
    ensures Init(cfg, vp, given).Success? <==>
              cfg.nodes != [] && given != "" && given in RootIds(cfg) && AcyclicFrom(ParseEdges(cfg.edges).edgeMapping, given)
    ensures Init(cfg, vp, given).Success? ==>
              Init(cfg, vp, given) == Build(ParseEdges(cfg.edges).edgeMapping, vp, given)
  {
    NoCycleFromIff(ParseEdges(cfg.edges).edgeMapping, given);
  }

  /** Without an explicit root id, `init` as written always fails (the Findings entry). */
  lemma InitWithoutRootFails(cfg: GraphConfig, vp: VariablePool)
    ensures Init(cfg, vp, "").Failure?
  {
  }

  /**
    One start node, no edges, no explicit root id: `init` as written rejects
    the graph, the corrected `init` roots it at the start node.
   */
  lemma RootResolutionCounterexample(vp: VariablePool)
    ensures var cfg := GraphConfig([], [NodeConfig("s", StartKind)]);
      && Init(cfg, vp, "") == Failure(RootNotFound)
      && InitIntended(cfg, vp, "").Success?
      && InitIntended(cfg, vp, "").value.rootNodeId == "s"
  {
    var cfg := GraphConfig([], [NodeConfig("s", StartKind)]);
    var parsed := ParseEdges(cfg.edges);
    assert parsed == ParsedEdges(map[], {});
    assert cfg.nodes[1..] == [];
    assert |"s"| == 1;
    assert "s" !in parsed.targetEdgeIds;
    assert RootCandidates(cfg.nodes[1..], parsed.targetEdgeIds) == [];
    var cs := RootCandidates(cfg.nodes, parsed.targetEdgeIds);
    assert cs == [NodeConfig("s", StartKind)];
    assert cs[1..] == [];
    assert FirstStart(cs) == Some(NodeConfig("s", StartKind));
    assert CandidateIds(cs) == ["s"];
    assert AddNodeIds(map[], "s") == ["s"];
    assert FetchRoutes(map[], "s") == [];
    assert NoCycleFrom(map[], "s");
  }

  /**
    The corrected `init`: with an explicit root id it is `init`; without one,
    it roots the graph at the first start-type candidate when there is one and
    it reaches no cycle.
   */
  lemma InitIntendedSpec(cfg: GraphConfig, vp: VariablePool, given: NodeId)
    ensures given != "" ==> InitIntended(cfg, vp, given) == Init(cfg, vp, given)
    ensures given == "" && cfg.nodes != [] ==>
              var cs := RootCandidates(cfg.nodes, ParseEdges(cfg.edges).targetEdgeIds);
              (InitIntended(cfg, vp, given).Success? <==>
                 FirstStart(cs).Some? && AcyclicFrom(ParseEdges(cfg.edges).edgeMapping, FirstStart(cs).value.id))
              && (InitIntended(cfg, vp, given).Success? ==>
                   InitIntended(cfg, vp, given).value.rootNodeId == FirstStart(cs).value.id
                   && FirstStart(cs).value.kind == StartKind
                   && FirstStart(cs).value.id in RootIds(cfg))
  {
    if given == "" && cfg.nodes != [] {
      var cs := RootCandidates(cfg.nodes, ParseEdges(cfg.edges).targetEdgeIds);
      FirstStartSpec(cs);
      if FirstStart(cs).Some? {
        var c := FirstStart(cs).value;
        RootCandidatesSpec(cfg.nodes, ParseEdges(cfg.edges).targetEdgeIds);
        CandidateIdsSpec(cs);
        assert c in cs;
        assert c.id in CandidateIds(cs);
        NoCycleFromIff(ParseEdges(cfg.edges).edgeMapping, c.id);
      }
    }
  }

  // ---------------------------------------------------------------------------
  // The graph `init` builds

  /**
    A built graph keeps the root and the edge mapping, lists the root first
    and then each node reachable from it once, starts with an empty run state
    over the given variable pool, has well-formed scope tables, and gives a
    scope to exactly the branch roots of the fan-out nodes at or below the
    root — all of them among the graph's nodes.
   */
  lemma BuildSpec(em: EdgeMapping, vp: VariablePool, root: NodeId)
    ensures Build(em, vp, root).Success? <==> AcyclicFrom(em, root)
    ensures Build(em, vp, root).Success? ==>
      var g := Build(em, vp, root).value;
      && g.rootNodeId == root && g.edgeMapping == em
      && |g.nodeIds| >= 1 && g.nodeIds[0] == root && NoDup(g.nodeIds)
      && (forall x :: x in g.nodeIds <==> x == root || Reaches(em, root, x, {}))
      && g.runState == GraphState(map[], vp, map[])
      && ScopesWellformed(g.parallelMapping, g.nodeParallelMapping)
      && (forall x :: x in g.nodeParallelMapping <==> BranchRootBelow(em, root, x))
      && (forall x :: x in g.nodeParallelMapping ==> x in g.nodeIds)
  {
    NoCycleFromIff(em, root);
    if AcyclicFrom(em, root) {
      var g := Build(em, vp, root).value;
      AddNodeIdsReach(em, root);
      AddParallelsWellformed(em, root, NoParallels);
      AddParallelsScopes(em, root, NoParallels);
      forall x | x in g.nodeParallelMapping
        ensures x in g.nodeIds
      {
        BranchRootIsNode(em, root, x);
      }
    }
  }

  /** A branch root at or below `root` is reachable from it. */
  lemma BranchRootIsNode(em: EdgeMapping, root: NodeId, x: NodeId)
    requires BranchRootBelow(em, root, x)
    ensures Reaches(em, root, x, {})
  {
    var a :| (a == root || Reaches(em, root, a, {})) && Fires(em, a) && x in ConditionedTargets(Out(em, a));
    ConditionedTargetsSpec(Out(em, a));
    var k :| 0 <= k < |Out(em, a)| && Out(em, a)[k].condition.Some? && Out(em, a)[k].target == x;
    EdgeIsSucc(em, a, k);
    if a == root {
      ReachesStep(em, root, x, {});
    } else {
      ReachesAppend(em, root, a, x, {});
    }
  }
}
