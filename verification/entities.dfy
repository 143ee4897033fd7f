/**
  The value types of the workflow graph (api/core/workflow/graph_engine/entities/graph.py):
  edges with optional run conditions, parallel scopes, the run state recorded
  by the driving engine, frontier entries and the Graph aggregate itself.
 */
module GraphEntities {
  import opened Collections

  /** Node ids are strings; the source treats a missing id and "" alike (both falsy). */
  type NodeId = string

  /**
    Parallel ids. The source draws a random uuid4 per parallel; the model hands
    out consecutive numbers from a counter, which gives the same uniqueness.
   */
  type ParallelId = nat

  /** The run condition of an edge; the only kind this file creates is a branch selector. */
  datatype RunCondition = BranchIdentify(branch: string)

  datatype GraphEdge = GraphEdge(source: NodeId, target: NodeId, condition: Option<RunCondition>)

  datatype GraphParallel = GraphParallel(id: ParallelId, parent: Option<ParallelId>)

  datatype GraphStateRoute = GraphStateRoute(routeId: string, nodeId: NodeId)

  /** Opaque handles for the variable pool and node results, which this file never inspects. */
  datatype VariablePool = VariablePool(handle: nat)
  datatype NodeRunResult = NodeRunResult(handle: nat)

  datatype GraphState = GraphState(
    routes: map<NodeId, seq<GraphStateRoute>>,
    variablePool: VariablePool,
    nodeRouteResults: map<NodeId, NodeRunResult>)

  datatype NextGraphNode = NextGraphNode(nodeId: NodeId, parallel: Option<GraphParallel>)

  /** Source node id -> its outgoing edges, in configuration order. */
  type EdgeMapping = map<NodeId, seq<GraphEdge>>

  datatype Graph = Graph(
    rootNodeId: NodeId,
    nodeIds: seq<NodeId>,
    edgeMapping: EdgeMapping,
    parallelMapping: map<ParallelId, GraphParallel>,
    nodeParallelMapping: map<NodeId, ParallelId>,
    runState: GraphState)

  /** `edge_mapping.get(node, [])`. */
  function Out(em: EdgeMapping, n: NodeId): seq<GraphEdge>
  {
    if n in em then em[n] else []
  }

  /** Target ids of a list of edges, in order. */
  function Targets(es: seq<GraphEdge>): (ts: seq<NodeId>)
    ensures |ts| == |es|
    ensures forall i :: 0 <= i < |es| ==> ts[i] == es[i].target
  {
    seq(|es|, i requires 0 <= i < |es| => es[i].target)
  }

  /** Every node that is the target of some edge in the mapping. */
  function TargetSet(em: EdgeMapping): (ts: set<NodeId>)
    ensures forall x, j :: x in em && 0 <= j < |em[x]| ==> em[x][j].target in ts
  {
    set x, j | x in em && 0 <= j < |em[x]| :: em[x][j].target
  }

  /** There is an edge from `a` to `b`. */
  predicate Succ(em: EdgeMapping, a: NodeId, b: NodeId)
  {
    b in Targets(Out(em, a))
  }
}
