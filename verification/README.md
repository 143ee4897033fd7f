# Workflow graph topology: a Dafny model

This project models the graph entity of a workflow runner
(`api/core/workflow/graph_engine/entities/graph.py`). The model covers:

- how `Graph.init` turns a node/edge configuration into an edge mapping;
- how it resolves the root node;
- how it collects the node ids reachable from the root;
- how it detects parallel scopes: fan-out nodes with conditioned edges, their branch routes, merge candidates, the greedy merge-node choice and the branch node lists;
- the three operations a built graph offers: `next_node_ids`, `add_extra_edge` and `get_leaf_node_ids`.

Everything is modelled as pure functions over immutable values:

- Dicts that are only looked up are Dafny maps: `edge_mapping`, `parallel_mapping`, `node_parallel_mapping`, `run_state.routes` and `branches_merge_node_ids`.
- Dicts whose insertion order matters are association lists in insertion order: `routes_node_ids`, `merge_branch_node_ids` and `in_branch_node_ids`.
- A missing configuration key and an empty string are both falsy in the source, and both are modelled as `""`.
- Parallel ids come from a counter, so each id is fresh, where the source draws a uuid4.
- The condition handler is a function parameter.

Files, one module each:

- `collections.dfy`: `Option`, `Result`, duplicate freedom, order-preserving dedup and association lists.
- `entities.dfy`: the data classes, and successor and target sets of an edge mapping.
- `reachability.dfy`: one guarded depth-first walk. With different seeds and stop sets it models `_recursively_add_node_ids`, `_recursively_fetch_routes` and `_recursively_add_parallel_node_ids`. The file also has paths, reachability, acyclicity and the computable cycle test.
- `edge_parsing.dfy`: lines 90-128.
- `merge_detection.dfy`: `_fetch_all_node_ids_in_parallels`.
- `parallel_detection.dfy`: `_recursively_add_parallels`.
- `graph_init.dfy`: `Graph.init`, both as written and corrected.
- `graph_queries.dfy`: `next_node_ids`, `add_extra_edge` and `get_leaf_node_ids`.

Behaviours modelled as the code has them:

- **Only branch roots get a scope.** Line 333 iterates the keys of the dict that `_fetch_all_node_ids_in_parallels` returns. So only the branch roots are mapped to the new scope, and the branch node lists are computed and then dropped. The model follows the code: see `ParallelDetection.DetectScopesRoots`.
- **The parent comes from the first branch root.** It is taken when every branch root already has a scope. Nobody checks that the branch roots agree.
- **The descent keeps no visited set.** A fan-out node reached along two paths is visited twice. Each visit opens a scope; when the two visits are consecutive, the second scope has the first as its parent and takes over the branch roots (`ParallelDetection.DetectTwice`). With other visits in between, the parent is whatever scope the first branch root holds at that moment. On a reachable cycle the recursion never ends. That includes a loop back to the root: it can only be added after construction, with `add_extra_edge`. `init` on such a graph ends in Python's `RecursionError`, which the model returns as `RecursionError` (`GraphInit.BuildSpec`).
- **An edge with a source but no target leaves an empty list.** That node is then no leaf (`GraphQueries.GetLeafNodeIdsSpec`).
- **A merge candidate on `k` routes collects `k * (k - 1)` entries**, so the `<= 1` skip of line 409 never applies (`MergeDetection.MergeListLength`, `MergeDetection.MergeListsNeverSingle`). Ties in the sort keep insertion order, which is first-contribution order: branch by branch, and within a branch in route order (`MergeDetection.MergeCandidatesKeys`).
- **`next_node_ids` does not deduplicate.** Two route entries for the same node list its admitted successors twice (`GraphQueries.RepeatedEntriesRepeatNextNodes`, with the instance `GraphQueries.RepeatedRouteEntriesRepeatTargets`).

## Model

| member | source | states |
|---|---|---|
| EdgeParsing.ParseEdgesSpec | api/core/workflow/graph_engine/entities/graph.py:97-128 | Every entry naming a source gives that source a key, even when its target is missing. Under each key are exactly the edges of that source's entries with a target, in configuration order. The recorded targets are exactly the targets of entries with both ends. |
| EdgeParsing.ParsedEdgeShape | api/core/workflow/graph_engine/entities/graph.py:114-128 | Every parsed edge leaves its key and has a target. It carries a branch condition exactly when its entry had a handle, and the condition holds that handle. |
| EdgeParsing.TargetIdsAreEdgeTargets | api/core/workflow/graph_engine/entities/graph.py:108-112 | `target_edge_ids` is exactly the set of targets of the parsed edges. |
| Reachability.Walk | api/core/workflow/graph_engine/entities/graph.py:202-211 | The guarded walk only appends. Whatever it adds is an edge target outside the stop set, and a duplicate-free list stays duplicate-free. |
| Reachability.FetchRoutes | api/core/workflow/graph_engine/entities/graph.py:437-456 | The route list has no duplicates. |
| Reachability.FetchRoutesReach | api/core/workflow/graph_engine/entities/graph.py:437-456 | A node is on the route exactly when it is reachable from the start in one or more steps. |
| Reachability.AddNodeIds | api/core/workflow/graph_engine/entities/graph.py:159-164 | `node_ids` starts with the root and has no duplicates. |
| Reachability.AddNodeIdsReach | api/core/workflow/graph_engine/entities/graph.py:191-211 | `node_ids` holds exactly the root and the nodes reachable from it. Every target of an edge from a listed node is listed. |
| Reachability.AddParallelNodeIds | api/core/workflow/graph_engine/entities/graph.py:344-366 | A branch list starts with its root, has no duplicates and never adds the merge node after the root. |
| Reachability.AddParallelNodeIdsReach | api/core/workflow/graph_engine/entities/graph.py:344-366 | A branch list holds exactly the branch root and the nodes it reaches without passing through the merge node. |
| Reachability.SuccShrinks | api/core/workflow/graph_engine/entities/graph.py:335-341 | When no cycle is reachable, stepping to a successor stays acyclic and strictly shrinks the reachable set. This is the measure on which the unguarded descent terminates. |
| Reachability.RankedAcyclic | api/core/workflow/graph_engine/entities/graph.py:335-341 | A numbering that strictly decreases along every edge rules out every cycle. |
| Reachability.NoCycleFromIff | api/core/workflow/graph_engine/entities/graph.py:166-174 | The computable cycle test holds exactly when no cycle is reachable, i.e. exactly when the descent of `_recursively_add_parallels` ends. |
| MergeDetection.BranchRoutesSpec | api/core/workflow/graph_engine/entities/graph.py:375-384 | `routes_node_ids` has one entry per distinct branch root, in first-occurrence order, and each entry holds that root's route. |
| MergeDetection.MergeCandidatesSpec | api/core/workflow/graph_engine/entities/graph.py:388-402 | The candidate keys are distinct. The list of each node is, for each branch in order whose route holds it, the other branches whose route holds it. A node is a key exactly when that list is non-empty. |
| MergeDetection.MergeCandidatesKeys | api/core/workflow/graph_engine/entities/graph.py:388-402 | The candidate keys come in first-contribution order. Branches are taken in order, and each branch's route in order. A node becomes a key the first time another branch's route is found to hold it. The stable sort uses this order to break ties. |
| MergeDetection.MergeListsNeverSingle | api/core/workflow/graph_engine/entities/graph.py:397-410 | Every candidate list holds at least two entries, so the `<= 1` skip never applies. |
| MergeDetection.MergeListLength | api/core/workflow/graph_engine/entities/graph.py:397-402 | A node on `k` routes collects exactly `k * (k - 1)` entries. |
| MergeDetection.SortByCount | api/core/workflow/graph_engine/entities/graph.py:404-405 | The sort returns a permutation of the candidates, ordered by list length descending. It is stable: entries of equal length keep their input order. |
| MergeDetection.ClaimAll | api/core/workflow/graph_engine/entities/graph.py:412-416 | Branches already chosen keep their merge node. Every other branch of the list gets the current node, and no other branch is added. |
| MergeDetection.AssignFrom | api/core/workflow/graph_engine/entities/graph.py:407-416 | A branch is chosen exactly when some sorted entry claims it. Its merge node is the node of the first entry that claims it. Earlier choices stay. |
| MergeDetection.ChosenIsMerge | api/core/workflow/graph_engine/entities/graph.py:388-416 | A chosen merge node lies on the branch's own route and on the route of another branch root. |
| MergeDetection.ChosenIffShared | api/core/workflow/graph_engine/entities/graph.py:388-416 | A branch root gets a merge node exactly when its route shares a node with another branch root's route. |
| MergeDetection.FetchAllSpec | api/core/workflow/graph_engine/entities/graph.py:368-434 | The keys are the distinct branch roots in first-occurrence order, and every list starts with its root. A branch sharing no route node owns its root plus its whole route. Any other branch owns the bounded walk toward a merge node that lies on its own and another branch's route, and never that merge node. |
| ParallelDetection.ConditionedTargetsSpec | api/core/workflow/graph_engine/entities/graph.py:315-316 | The branch roots are exactly the targets of conditioned edges. |
| ParallelDetection.DetectNewScope | api/core/workflow/graph_engine/entities/graph.py:312-331 | A scope is created exactly at a node with more than one edge and at least one conditioned edge, under the next fresh id. Its parent is set exactly when every branch root already had a scope, and it is then the first branch root's scope. No other scope changes. |
| ParallelDetection.DetectScopesRoots | api/core/workflow/graph_engine/entities/graph.py:325-333 | Exactly the branch roots are remapped to the new scope. Every other node keeps its mapping. |
| ParallelDetection.DetectTwice | api/core/workflow/graph_engine/entities/graph.py:312-341 | Two consecutive visits of a fan-out node open two scopes. The second has the first as its parent and takes over the branch roots. |
| ParallelDetection.DetectWellformed | api/core/workflow/graph_engine/entities/graph.py:321-333 | One visit keeps the scope tables well formed and only adds to them. Well formed means: every scope is keyed by its id, every parent is a known scope with a smaller id, and every node maps to a known scope. |
| ParallelDetection.AddParallelsWellformed | api/core/workflow/graph_engine/entities/graph.py:298-341 | The whole descent keeps the scope tables well formed and only adds to them. |
| ParallelDetection.AddParallelsScopes | api/core/workflow/graph_engine/entities/graph.py:298-341 | After the descent, a node has a scope exactly when it had one before or is a branch root of a fan-out node at or below the start. |
| GraphInit.RootIdsSpec | api/core/workflow/graph_engine/entities/graph.py:137-147 | The root candidates are exactly the non-empty ids of configured nodes that no parsed edge points at. |
| GraphInit.FirstStartSpec | api/core/workflow/graph_engine/entities/graph.py:152-153 | The start lookup finds nothing exactly when no candidate has start type. Otherwise it finds the first candidate of start type. |
| GraphInit.InitOutcome | api/core/workflow/graph_engine/entities/graph.py:130-174 | `init` fails for lack of nodes exactly when there are none, and otherwise fails to find a root unless a non-empty candidate id is given. It succeeds exactly when there are nodes, the given id is a root candidate and no cycle is reachable from it. The graph it then returns is the one built from that root. |
| GraphInit.InitWithoutRootFails | api/core/workflow/graph_engine/entities/graph.py:149-156 | As written, `init` without a root id never succeeds. |
| GraphInit.RootResolutionCounterexample | api/core/workflow/graph_engine/entities/graph.py:149-156 | Take one start node, no edges and no root id. `init` as written fails to find a root, while the corrected version roots the graph at the start node. |
| GraphInit.InitIntendedSpec | api/core/workflow/graph_engine/entities/graph.py:149-156 | The corrected `init` equals `init` when a root id is given. Without one, it succeeds exactly when a start-type candidate exists and reaches no cycle, and then it roots the graph at the first such candidate. |
| GraphInit.BuildSpec | api/core/workflow/graph_engine/entities/graph.py:158-188 | A built graph keeps the root and the edge mapping. Its node ids are the root followed by its reachable nodes, without duplicates. The run state starts empty. The scope tables are well formed, and exactly the branch roots below the root have a scope, all of them graph nodes. |
| GraphQueries.FrontierEdgesSpec | api/core/workflow/graph_engine/entities/graph.py:221-229 | A frontier edge is exactly an out-edge of a node on the root's route whose target has no `routes` entry yet. |
| GraphQueries.NextNodesSpec | api/core/workflow/graph_engine/entities/graph.py:231-253 | The walk fails exactly when an admitted edge leads to a node whose scope id has no scope. Otherwise it returns one entry per admitted edge, in order, each tagged with its target's scope exactly when the target has one. |
| GraphQueries.NextNodeIdsSpec | api/core/workflow/graph_engine/entities/graph.py:213-253 | With no routes the result is exactly the root without a scope. With routes but no root entry it is a lookup error, and with well-formed scope tables that is the only error. Otherwise the results are exactly the targets of admitted frontier edges, each with its scope. |
| GraphQueries.FrontierEdgesAppend | api/core/workflow/graph_engine/entities/graph.py:221-229 | The frontier is built route entry by route entry: the frontier of two runs of entries is the first run's frontier followed by the second's, with nothing removed. |
| GraphQueries.NextNodesAppend | api/core/workflow/graph_engine/entities/graph.py:231-251 | Walking two edge lists one after the other succeeds exactly when both walks do. It then returns the first walk's entries followed by the second's. |
| GraphQueries.RepeatedEntriesRepeatNextNodes | api/core/workflow/graph_engine/entities/graph.py:221-251 | For any graph and any two route entries for the same node, that node's admitted unvisited successors are listed twice, in the same order. Nothing is deduplicated. |
| GraphQueries.RepeatedRouteEntriesRepeatTargets | api/core/workflow/graph_engine/entities/graph.py:221-251 | An example on a three-node graph: the route `r` holds two entries for node `a`, and `next_node_ids` returns `a`'s successor `b` twice. |
| GraphQueries.AddExtraEdgeSpec | api/core/workflow/graph_engine/entities/graph.py:255-280 | Only the edge mapping changes, and only when both ends are graph nodes. Then the source gets a key and keeps its edges, and gains an edge to the target exactly when it had none. No other node's edges change. |
| GraphQueries.AddExtraEdgeIdempotent | api/core/workflow/graph_engine/entities/graph.py:265-280 | Adding the same edge twice equals adding it once, whatever condition the second call carries. |
| GraphQueries.AddExtraEdgeNoDupTargets | api/core/workflow/graph_engine/entities/graph.py:271-280 | Adding an edge never gives a source two edges to the same target. |
| GraphQueries.GetLeafNodeIdsSpec | api/core/workflow/graph_engine/entities/graph.py:282-296 | The leaves are an order-preserving subsequence of the node ids. A node is a leaf exactly when it has no edge-mapping entry or its only successor is the root. A node whose entry is an empty list is not a leaf. |

## Left out

- `VariablePool` and `NodeRunResult` are opaque handles. Neither is ever inspected in this file.
- `NodeType` is reduced to the start tag, and `RunCondition` to the `branch_identify` kind that this file creates.
- The condition handlers (lines 236-242) are foreign code. They are a parameter `(condition, source, target) -> bool`, fixed for one query. Errors raised inside a handler are not modelled.
- Pydantic validation and malformed configurations are not modelled, e.g. an `edges` value that is not a list, or entries that are not dicts. An absent `edges` list is the empty list.
- The uuid4 parallel ids are consecutive numbers from a counter. The model keeps their one property used here, freshness, but not their format.
- The `leaf_node_ids` computation at lines 387-395 is dead: its result is never read.
- Python's recursion-depth limit on deep acyclic graphs is not modelled. The model has no depth bound, and a reachable cycle is the only recursion failure it reports.
- Writes to `run_state` by the driving engine are outside this file. `routes` is an input to `next_node_ids`.
- ParallelDetection.AddParallels: defined only when no cycle is reachable from the start, because the source's descent does not terminate otherwise. `Graph.init` tests this first and reports `RecursionError`.
- ParallelDetection.AddParallelsScopes: says which nodes end up with a scope, not which scope id they end up with. With no visited set, that id is whichever visit came last.
- MergeDetection.FetchAllSpec: says each shared branch is bounded by some merge node on its own and another branch's route. The particular node (the first in the stable sort that claims the branch) is stated by `MergeDetection.AssignFrom`.

## Findings

| source | as written | input that shows it | evidently intended | confidence | as-written member | corrected member |
|---|---|---|---|---|---|---|
| api/core/workflow/graph_engine/entities/graph.py:150-156 | Without a root id, line 152 binds the start node's whole configuration dict to `root_node_id`. A dict never equals a string id, so the check of line 155 always raises `ValueError`. | nodes `[{id: "s", data: {type: "start"}}]`, no edges, no root id | Bind the start node's `id`, as the comment of line 151 says. | high; not executed | GraphInit.Init (GraphInit.InitWithoutRootFails, GraphInit.RootResolutionCounterexample) | GraphInit.InitIntended (GraphInit.InitIntendedSpec) |
