/**
  Parsing the `edges` list of a graph configuration into the edge mapping and
  the set of edge targets (graph.py lines 90-128).
 */
module EdgeParsing {
  import opened Collections
  import opened GraphEntities

  /**
    One entry of the `edges` configuration list. A missing key and an empty
    string are both falsy in the source, so both are modelled as "".
   */
  datatype EdgeConfig = EdgeConfig(source: string, target: string, sourceHandle: string)

  /** The edge mapping and `target_edge_ids` built from the configuration. */
  datatype ParsedEdges = ParsedEdges(edgeMapping: EdgeMapping, targetEdgeIds: set<NodeId>)

  /** The edge an entry with both a source and a target becomes; a truthy handle makes it a branch edge. */
  function ToEdge(c: EdgeConfig): GraphEdge
  {
    GraphEdge(c.source, c.target, if c.sourceHandle != "" then Some(BranchIdentify(c.sourceHandle)) else None)
  }

  /** The loop of lines 100-128, from entry `i` on, over the mapping built so far. */
  function ParseFrom(cfgs: seq<EdgeConfig>, i: nat, acc: ParsedEdges): ParsedEdges
    requires i <= |cfgs|
    decreases |cfgs| - i
  {
    if i == |cfgs| then acc else ParseFrom(cfgs, i + 1, ParseStep(cfgs[i], acc))
  }

  function ParseEdges(cfgs: seq<EdgeConfig>): ParsedEdges
  {
    ParseFrom(cfgs, 0, ParsedEdges(map[], {}))
  }

  // ---------------------------------------------------------------------------
  // Reference definitions, stated per entry rather than as a fold

  /** The edges entries with source `k` and a target produce, in configuration order. */
  function EdgesFor(cfgs: seq<EdgeConfig>, k: NodeId): seq<GraphEdge>
  {
    if cfgs == [] then []
    else (if cfgs[0].source == k && cfgs[0].target != "" then [ToEdge(cfgs[0])] else []) + EdgesFor(cfgs[1..], k)
  }

  /** Entry `c` names a source. */
  predicate HasSource(c: EdgeConfig)
  {
    c.source != ""
  }

  /** Entry `c` names both a source and a target. */
  predicate IsComplete(c: EdgeConfig)
  {
    c.source != "" && c.target != ""
  }

  function SourceIds(cfgs: seq<EdgeConfig>): set<NodeId>
  {
    set c | c in cfgs && HasSource(c) :: c.source
  }

  function CompleteTargets(cfgs: seq<EdgeConfig>): set<NodeId>
  {
    set c | c in cfgs && IsComplete(c) :: c.target
  }

  /** The step of the loop at entry `i`: what entry `i` does to the mapping built so far. */
  function ParseStep(c: EdgeConfig, acc: ParsedEdges): ParsedEdges
  {
    if c.source == "" then acc
    else
      var em := if c.source in acc.edgeMapping then acc.edgeMapping else acc.edgeMapping[c.source := []];
      if c.target == "" then ParsedEdges(em, acc.targetEdgeIds)
      else ParsedEdges(em[c.source := em[c.source] + [ToEdge(c)]], acc.targetEdgeIds + {c.target})
  }

  lemma ParseFromUnfold(cfgs: seq<EdgeConfig>, i: nat, acc: ParsedEdges)
    requires i < |cfgs|
    ensures ParseFrom(cfgs, i, acc) == ParseFrom(cfgs, i + 1, ParseStep(cfgs[i], acc))
  {
  }

  lemma SuffixSplit(cfgs: seq<EdgeConfig>, i: nat)
    requires i < |cfgs|
    ensures cfgs[i..] == [cfgs[i]] + cfgs[i + 1..]
    ensures SourceIds(cfgs[i..]) == (if HasSource(cfgs[i]) then {cfgs[i].source} else {}) + SourceIds(cfgs[i + 1..])
    ensures CompleteTargets(cfgs[i..]) == (if IsComplete(cfgs[i]) then {cfgs[i].target} else {}) + CompleteTargets(cfgs[i + 1..])
  {
    assert cfgs[i..] == [cfgs[i]] + cfgs[i + 1..];
  }

  lemma EdgesForSuffix(cfgs: seq<EdgeConfig>, i: nat, k: NodeId)
    requires i < |cfgs|
    ensures EdgesFor(cfgs[i..], k)
         == (if cfgs[i].source == k && cfgs[i].target != "" then [ToEdge(cfgs[i])] else []) + EdgesFor(cfgs[i + 1..], k)
  {
    assert cfgs[i..][0] == cfgs[i];
    assert cfgs[i..][1..] == cfgs[i + 1..];
  }

  lemma {:induction false} ParseFromKeys(cfgs: seq<EdgeConfig>, i: nat, acc: ParsedEdges)
    requires i <= |cfgs|
    ensures ParseFrom(cfgs, i, acc).edgeMapping.Keys == acc.edgeMapping.Keys + SourceIds(cfgs[i..])
    ensures ParseFrom(cfgs, i, acc).targetEdgeIds == acc.targetEdgeIds + CompleteTargets(cfgs[i..])
    decreases |cfgs| - i
  {
    if i == |cfgs| {
      assert cfgs[i..] == [];
    } else {
      ParseFromUnfold(cfgs, i, acc);
      SuffixSplit(cfgs, i);
      ParseFromKeys(cfgs, i + 1, ParseStep(cfgs[i], acc));
    }
  }

  lemma StepList(c: EdgeConfig, acc: ParsedEdges, k: NodeId)
    requires k != ""
    ensures k in ParseStep(c, acc).edgeMapping <==> k in acc.edgeMapping || c.source == k
    ensures Out(ParseStep(c, acc).edgeMapping, k) == Out(acc.edgeMapping, k) + (if c.source == k && c.target != "" then [ToEdge(c)] else [])
  {
    if c.source == k && c.target == "" {
      assert Out(acc.edgeMapping, k) + [] == Out(acc.edgeMapping, k);
    }
  }

  /** One step of the loop, stated on the lists of key `k`. */
  lemma StepLists(cfgs: seq<EdgeConfig>, i: nat, acc: ParsedEdges, k: NodeId)
    requires i < |cfgs| && k != ""
    ensures Out(ParseStep(cfgs[i], acc).edgeMapping, k) + EdgesFor(cfgs[i + 1..], k) == Out(acc.edgeMapping, k) + EdgesFor(cfgs[i..], k)
  {
    var here := if cfgs[i].source == k && cfgs[i].target != "" then [ToEdge(cfgs[i])] else [];
    var rest := EdgesFor(cfgs[i + 1..], k);
    EdgesForSuffix(cfgs, i, k);
    StepList(cfgs[i], acc, k);
    assert (Out(acc.edgeMapping, k) + here) + rest == Out(acc.edgeMapping, k) + (here + rest);
  }

  lemma {:induction false} ParseFromLists(cfgs: seq<EdgeConfig>, i: nat, acc: ParsedEdges, k: NodeId)
    requires i <= |cfgs|
    requires k != ""
    requires k in ParseFrom(cfgs, i, acc).edgeMapping
    ensures ParseFrom(cfgs, i, acc).edgeMapping[k] == Out(acc.edgeMapping, k) + EdgesFor(cfgs[i..], k)
    decreases |cfgs| - i
  {
    if i == |cfgs| {
      assert cfgs[i..] == [];
    } else {
      var next := ParseStep(cfgs[i], acc);
      ParseFromUnfold(cfgs, i, acc);
      ParseFromLists(cfgs, i + 1, next, k);
      StepLists(cfgs, i, acc, k);
    }
  }

  /**
    What parsing yields: a key for every named source (even one whose entries
    all lack a target, which leaves an empty list), under each key exactly the
    edges of that source's complete entries in configuration order, and as
    targets exactly the targets of complete entries, which are the targets of
    the mapping's edges.
   */
  lemma ParseEdgesSpec(cfgs: seq<EdgeConfig>)
    ensures var p := ParseEdges(cfgs);
      && p.edgeMapping.Keys == SourceIds(cfgs)
      && (forall k :: k in p.edgeMapping ==> p.edgeMapping[k] == EdgesFor(cfgs, k))
      && p.targetEdgeIds == CompleteTargets(cfgs)
  {
    var p := ParseEdges(cfgs);
    assert cfgs[0..] == cfgs;
    ParseFromKeys(cfgs, 0, ParsedEdges(map[], {}));
    forall k | k in p.edgeMapping
      ensures p.edgeMapping[k] == EdgesFor(cfgs, k)
    {
      assert k in SourceIds(cfgs);
      ParseFromLists(cfgs, 0, ParsedEdges(map[], {}), k);
    }
  }

  lemma {:induction false} EdgesForShape(cfgs: seq<EdgeConfig>, k: NodeId)
    ensures forall e :: e in EdgesFor(cfgs, k) <==>
              exists c :: c in cfgs && c.source == k && c.target != "" && e == ToEdge(c)
  {
    if cfgs != [] {
      EdgesForShape(cfgs[1..], k);
      assert cfgs == [cfgs[0]] + cfgs[1..];
    }
  }

  /**
    Entry `c` gives edge `e`: same endpoints, and a branch condition exactly
    when the entry has a handle, holding that handle.
   */
  ghost predicate EntryGives(c: EdgeConfig, e: GraphEdge)
  {
    && c.source == e.source && c.target == e.target
    && (e.condition.Some? <==> c.sourceHandle != "")
    && (e.condition.Some? ==> e.condition.value == BranchIdentify(c.sourceHandle))
  }

  ghost predicate FromEntry(cfgs: seq<EdgeConfig>, e: GraphEdge)
  {
    exists c :: c in cfgs && EntryGives(c, e)
  }

  /**
    Every parsed edge leaves its key, has a target, and carries a branch
    condition exactly when its entry had a handle, holding that handle.
   */
  lemma ParsedEdgeShape(cfgs: seq<EdgeConfig>)
    ensures var em := ParseEdges(cfgs).edgeMapping;
      forall k, e :: k in em && e in em[k] ==> e.source == k && e.target != "" && FromEntry(cfgs, e)
  {
    ParseEdgesSpec(cfgs);
    var em := ParseEdges(cfgs).edgeMapping;
    forall k: NodeId, e: GraphEdge | k in em && e in em[k]
      ensures e.source == k && e.target != "" && FromEntry(cfgs, e)
    {
      EdgesForShape(cfgs, k);
      var c :| c in cfgs && c.source == k && c.target != "" && e == ToEdge(c);
      assert EntryGives(c, e);
    }
  }

  /** The recorded targets are exactly the targets of the parsed edges. */
  lemma TargetIdsAreEdgeTargets(cfgs: seq<EdgeConfig>)
    ensures ParseEdges(cfgs).targetEdgeIds == TargetSet(ParseEdges(cfgs).edgeMapping)
  {
    var p := ParseEdges(cfgs);
    var em := p.edgeMapping;
    ParseEdgesSpec(cfgs);
    forall t | t in p.targetEdgeIds
      ensures t in TargetSet(em)
    {
      var c :| c in cfgs && IsComplete(c) && c.target == t;
      assert c.source in SourceIds(cfgs);
      EdgesForShape(cfgs, c.source);
      assert ToEdge(c) in em[c.source];
      var j :| 0 <= j < |em[c.source]| && em[c.source][j] == ToEdge(c);
    }
    forall t | t in TargetSet(em)
      ensures t in p.targetEdgeIds
    {
      var x, j :| x in em && 0 <= j < |em[x]| && em[x][j].target == t;
      var e := em[x][j];
      assert e in EdgesFor(cfgs, x);
      EdgesForShape(cfgs, x);
      var c :| c in cfgs && c.source == x && c.target != "" && e == ToEdge(c);
      assert x in SourceIds(cfgs);
      assert IsComplete(c);
    }
  }
}
