/**
  `_fetch_all_node_ids_in_parallels` (graph.py lines 368-434): given the branch
  roots of one fan-out, compute each branch's route, the merge candidates
  (nodes on the routes of two or more branches), a stable sort of the
  candidates by how many branch entries they collected, a greedy choice of one
  merge node per branch, and finally each branch's node list.

  The dicts whose iteration order matters here (`routes_node_ids`,
  `merge_branch_node_ids`, `in_branch_node_ids`) are association lists in
  insertion order; `branches_merge_node_ids` is only looked up, so it is a map.
 */
module MergeDetection {
  import opened Collections
  import opened GraphEntities
  import opened Reachability

  /** Branch root -> route (`routes_node_ids`), or merge candidate -> branch roots (`merge_branch_node_ids`). */
  type NodeLists = seq<(NodeId, seq<NodeId>)>

  // ---------------------------------------------------------------------------
  // Routes (lines 375-384)

  function RoutesFrom(em: EdgeMapping, pids: seq<NodeId>, i: nat, acc: NodeLists): NodeLists
    requires i <= |pids|
    decreases |pids| - i
  {
    if i == |pids| then acc
    else RoutesFrom(em, pids, i + 1, Put(acc, pids[i], FetchRoutes(em, pids[i])))
  }

  /** `routes_node_ids`: one entry per distinct branch root, its route as the walk lists it. */
  function BranchRoutes(em: EdgeMapping, pids: seq<NodeId>): NodeLists
  {
    RoutesFrom(em, pids, 0, [])
  }

  /** Routes of a well-formed `routes_node_ids`: each value is the walk from its key. */
  ghost predicate RoutesOf(em: EdgeMapping, routes: NodeLists)
  {
    forall j :: 0 <= j < |routes| ==> routes[j].1 == FetchRoutes(em, routes[j].0)
  }

  lemma PutRoutes(em: EdgeMapping, acc: NodeLists, k: NodeId)
    requires RoutesOf(em, acc)
    ensures RoutesOf(em, Put(acc, k, FetchRoutes(em, k)))
  {
    var r := Put(acc, k, FetchRoutes(em, k));
    forall j | 0 <= j < |r|
      ensures r[j].1 == FetchRoutes(em, r[j].0)
    {
      if j < |acc| && (k !in Keys(acc) || j != IndexOf(acc, k)) {
        assert r[j] == acc[j];
      }
    }
  }

  /** Putting the next branch root keeps the keys the distinct roots seen so far. */
  lemma PutKeysDedup(acc: NodeLists, pids: seq<NodeId>, i: nat, v: seq<NodeId>)
    requires i < |pids| && Keys(acc) == Dedup(pids[..i])
    ensures Keys(Put(acc, pids[i], v)) == Dedup(pids[..i + 1])
  {
    PutKeys(acc, pids[i], v);
    assert pids[..i + 1] == pids[..i] + [pids[i]];
    DedupSnoc(pids[..i], pids[i]);
  }

  lemma {:induction false} RoutesFromSpec(em: EdgeMapping, pids: seq<NodeId>, i: nat, acc: NodeLists)
    requires i <= |pids|
    requires Keys(acc) == Dedup(pids[..i]) && RoutesOf(em, acc)
    ensures Keys(RoutesFrom(em, pids, i, acc)) == Dedup(pids) && RoutesOf(em, RoutesFrom(em, pids, i, acc))
    decreases |pids| - i
  {
    if i == |pids| {
      assert pids[..i] == pids;
    } else {
      var next := Put(acc, pids[i], FetchRoutes(em, pids[i]));
      PutKeysDedup(acc, pids, i, FetchRoutes(em, pids[i]));
      PutRoutes(em, acc, pids[i]);
      RoutesFromSpec(em, pids, i + 1, next);
    }
  }

  /** The branch entries are the distinct branch roots in first-occurrence order, each with its route. */
  lemma BranchRoutesSpec(em: EdgeMapping, pids: seq<NodeId>)
    ensures Keys(BranchRoutes(em, pids)) == Dedup(pids)
    ensures RoutesOf(em, BranchRoutes(em, pids))
  {
    assert pids[..0] == [];
    RoutesFromSpec(em, pids, 0, []);
  }

  // ---------------------------------------------------------------------------
  // Merge candidates (lines 388-402)

  /** Branch roots other than `b` whose route holds `n`, in branch order (the loop of lines 397-402). */
  function Others(rs: NodeLists, b: NodeId, n: NodeId): seq<NodeId>
  {
    if rs == [] then []
    else (if rs[0].0 != b && n in rs[0].1 then [rs[0].0] else []) + Others(rs[1..], b, n)
  }

  /** The branch roots recorded so far for candidate `n` (none when `n` is not a key). */
  function ListOf(m: NodeLists, n: NodeId): seq<NodeId>
  {
    GetOr(m, n, [])
  }

  /** Appending `adds` to the list of `n`, creating the entry on the first append. */
  function Record(m: NodeLists, n: NodeId, adds: seq<NodeId>): NodeLists
  {
    if adds == [] then m else Put(m, n, ListOf(m, n) + adds)
  }

  /** The nodes `ns` of the route of branch `b` (lines 390-402 for one branch). */
  function MergeNodes(routes: NodeLists, b: NodeId, ns: seq<NodeId>, m: NodeLists): NodeLists
  {
    if ns == [] then m
    else MergeNodes(routes, b, ns[1..], Record(m, ns[0], Others(routes, b, ns[0])))
  }

  /** The branches from index `j` on (the loop of lines 389-402). */
  function MergeBranches(routes: NodeLists, j: nat, m: NodeLists): NodeLists
    requires j <= |routes|
    decreases |routes| - j
  {
    if j == |routes| then m
    else MergeBranches(routes, j + 1, MergeNodes(routes, routes[j].0, routes[j].1, m))
  }

  /** `merge_branch_node_ids` before sorting. */
  function MergeCandidates(routes: NodeLists): NodeLists
  {
    MergeBranches(routes, 0, [])
  }

  /**
    Reference for a candidate's list: for every branch whose route holds `n`,
    in branch order, the other branches whose route holds `n`.
   */
  function Contributions(routes: NodeLists, j: nat, n: NodeId): seq<NodeId>
    requires j <= |routes|
    decreases |routes| - j
  {
    if j == |routes| then []
    else (if n in routes[j].1 then Others(routes, routes[j].0, n) else []) + Contributions(routes, j + 1, n)
  }

  /** Keys are distinct and exactly the candidates with a non-empty list. */
  ghost predicate WellKeyed(m: NodeLists)
  {
    && NoDup(Keys(m))
    && forall n :: n in Keys(m) <==> ListOf(m, n) != []
  }

  lemma RecordSpec(m: NodeLists, n: NodeId, adds: seq<NodeId>)
    requires WellKeyed(m)
    ensures WellKeyed(Record(m, n, adds))
    ensures forall k :: ListOf(Record(m, n, adds), k) == ListOf(m, k) + (if k == n then adds else [])
  {
    if adds != [] {
      var v := ListOf(m, n) + adds;
      PutNoDup(m, n, v);
      PutKeys(m, n, v);
      forall k
        ensures ListOf(Put(m, n, v), k) == ListOf(m, k) + (if k == n then adds else [])
      {
        PutGet(m, n, v, k, []);
      }
    }
  }

  lemma {:induction false} MergeNodesSpec(routes: NodeLists, b: NodeId, ns: seq<NodeId>, m: NodeLists)
    requires WellKeyed(m) && NoDup(ns)
    ensures WellKeyed(MergeNodes(routes, b, ns, m))
    ensures forall k :: ListOf(MergeNodes(routes, b, ns, m), k)
                     == ListOf(m, k) + (if k in ns then Others(routes, b, k) else [])
    decreases |ns|
  {
    if ns != [] {
      var adds := Others(routes, b, ns[0]);
      var m' := Record(m, ns[0], adds);
      RecordSpec(m, ns[0], adds);
      assert NoDup(ns[1..]);
      MergeNodesSpec(routes, b, ns[1..], m');
      var r := MergeNodes(routes, b, ns, m);
      assert r == MergeNodes(routes, b, ns[1..], m');
      forall k
        ensures ListOf(r, k) == ListOf(m, k) + (if k in ns then Others(routes, b, k) else [])
      {
        var later := if k in ns[1..] then Others(routes, b, k) else [];
        assert ListOf(r, k) == ListOf(m', k) + later;
        if k == ns[0] {
          assert k !in ns[1..];
          assert ListOf(m', k) == ListOf(m, k) + adds;
        } else {
          assert ListOf(m', k) == ListOf(m, k);
          assert k in ns <==> k in ns[1..];
        }
      }
    }
  }

  lemma {:induction false} MergeBranchesSpec(routes: NodeLists, j: nat, m: NodeLists)
    requires j <= |routes|
    requires WellKeyed(m)
    requires forall i :: 0 <= i < |routes| ==> NoDup(routes[i].1)
    ensures WellKeyed(MergeBranches(routes, j, m))
    ensures forall k :: ListOf(MergeBranches(routes, j, m), k) == ListOf(m, k) + Contributions(routes, j, k)
    decreases |routes| - j
  {
    if j < |routes| {
      var m' := MergeNodes(routes, routes[j].0, routes[j].1, m);
      MergeNodesSpec(routes, routes[j].0, routes[j].1, m);
      MergeBranchesSpec(routes, j + 1, m');
    }
  }

  /**
    The candidate lists as built, against the reference: keys distinct, and the
    list of each node is exactly its `Contributions`; a node is a key exactly
    when that list is non-empty.
   */
  lemma MergeCandidatesSpec(routes: NodeLists)
    requires forall i :: 0 <= i < |routes| ==> NoDup(routes[i].1)
    ensures WellKeyed(MergeCandidates(routes))
    ensures forall k :: ListOf(MergeCandidates(routes), k) == Contributions(routes, 0, k)
  {
    assert Keys<NodeId, seq<NodeId>>([]) == [];
    MergeBranchesSpec(routes, 0, []);
  }

  /** The nodes of branch `b`'s route `ns` that another branch's route also holds, in route order. */
  function SharedOf(routes: NodeLists, b: NodeId, ns: seq<NodeId>): seq<NodeId>
  {
    if ns == [] then []
    else (if Others(routes, b, ns[0]) != [] then [ns[0]] else []) + SharedOf(routes, b, ns[1..])
  }

  /** The shared nodes of branches `j..`, branch by branch and each in route order. */
  function SharedFrom(routes: NodeLists, j: nat): seq<NodeId>
    requires j <= |routes|
    decreases |routes| - j
  {
    if j == |routes| then [] else SharedOf(routes, routes[j].0, routes[j].1) + SharedFrom(routes, j + 1)
  }

  lemma {:induction false} RecordKeys(m: NodeLists, n: NodeId, adds: seq<NodeId>, xs: seq<NodeId>)
    requires Keys(m) == Dedup(xs)
    ensures Keys(Record(m, n, adds)) == Dedup(xs + (if adds != [] then [n] else []))
  {
    if adds == [] {
      assert xs + [] == xs;
    } else {
      PutKeys(m, n, ListOf(m, n) + adds);
      DedupSnoc(xs, n);
    }
  }

  lemma {:induction false} MergeNodesKeys(routes: NodeLists, b: NodeId, ns: seq<NodeId>, m: NodeLists, xs: seq<NodeId>)
    requires Keys(m) == Dedup(xs)
    ensures Keys(MergeNodes(routes, b, ns, m)) == Dedup(xs + SharedOf(routes, b, ns))
    decreases |ns|
  {
    if ns == [] {
      assert xs + [] == xs;
    } else {
      var here := if Others(routes, b, ns[0]) != [] then [ns[0]] else [];
      RecordKeys(m, ns[0], Others(routes, b, ns[0]), xs);
      MergeNodesKeys(routes, b, ns[1..], Record(m, ns[0], Others(routes, b, ns[0])), xs + here);
      AppendAssoc(xs, here, SharedOf(routes, b, ns[1..]));
    }
  }

  lemma {:induction false} MergeBranchesKeys(routes: NodeLists, j: nat, m: NodeLists, xs: seq<NodeId>)
    requires j <= |routes| && Keys(m) == Dedup(xs)
    ensures Keys(MergeBranches(routes, j, m)) == Dedup(xs + SharedFrom(routes, j))
    decreases |routes| - j
  {
    if j == |routes| {
      assert xs + [] == xs;
    } else {
      var here := SharedOf(routes, routes[j].0, routes[j].1);
      MergeNodesKeys(routes, routes[j].0, routes[j].1, m, xs);
      MergeBranchesKeys(routes, j + 1, MergeNodes(routes, routes[j].0, routes[j].1, m), xs + here);
      AppendAssoc(xs, here, SharedFrom(routes, j + 1));
    }
  }

  /**
    The candidates are keyed in first-contribution order: branch by branch,
    and within a branch in route order, a node becomes a key the first time
    another branch's route is found to hold it. The stable sort breaks ties in
    this order.
   */
  lemma MergeCandidatesKeys(routes: NodeLists)
    ensures Keys(MergeCandidates(routes)) == Dedup(SharedFrom(routes, 0))
  {
    assert Keys<NodeId, seq<NodeId>>([]) == [] == Dedup<NodeId>([]);
    MergeBranchesKeys(routes, 0, [], []);
    assert [] + SharedFrom(routes, 0) == SharedFrom(routes, 0);
  }

  lemma {:induction false} OthersMembers(rs: NodeLists, b: NodeId, n: NodeId)
    ensures forall x :: x in Others(rs, b, n) <==>
              exists j :: 0 <= j < |rs| && rs[j].0 == x && x != b && n in rs[j].1
  {
    if rs != [] {
      OthersMembers(rs[1..], b, n);
      forall x | x in Others(rs, b, n)
        ensures exists j :: 0 <= j < |rs| && rs[j].0 == x && x != b && n in rs[j].1
      {
        if x in Others(rs[1..], b, n) {
          var j :| 0 <= j < |rs[1..]| && rs[1..][j].0 == x && x != b && n in rs[1..][j].1;
          assert rs[j + 1] == rs[1..][j];
        }
      }
      forall x | exists j :: 0 <= j < |rs| && rs[j].0 == x && x != b && n in rs[j].1
        ensures x in Others(rs, b, n)
      {
        var j :| 0 <= j < |rs| && rs[j].0 == x && x != b && n in rs[j].1;
        if j > 0 {
          assert rs[1..][j - 1] == rs[j];
        }
      }
    }
  }

  lemma {:induction false} ContributionsMembers(routes: NodeLists, j: nat, n: NodeId)
    requires j <= |routes|
    ensures forall x :: x in Contributions(routes, j, n) <==>
              exists i :: j <= i < |routes| && n in routes[i].1 && x in Others(routes, routes[i].0, n)
    decreases |routes| - j
  {
    if j < |routes| {
      ContributionsMembers(routes, j + 1, n);
    }
  }

  /** `x` and `y` are distinct branch entries whose routes both hold `n`. */
  ghost predicate ShareAt(routes: NodeLists, n: NodeId, i: int, j: int)
  {
    0 <= i < |routes| && 0 <= j < |routes| && routes[i].0 != routes[j].0 && n in routes[i].1 && n in routes[j].1
  }

  /** Branch `x` is recorded under candidate `n` exactly when `n` is on `x`'s route and on another branch's route. */
  lemma ContributionsShare(routes: NodeLists, n: NodeId, x: NodeId)
    ensures x in Contributions(routes, 0, n) <==>
              exists i, j :: ShareAt(routes, n, i, j) && routes[j].0 == x
  {
    ContributionsMembers(routes, 0, n);
    if x in Contributions(routes, 0, n) {
      var i :| 0 <= i < |routes| && n in routes[i].1 && x in Others(routes, routes[i].0, n);
      OthersMembers(routes, routes[i].0, n);
      var j :| 0 <= j < |routes| && routes[j].0 == x && x != routes[i].0 && n in routes[j].1;
      assert ShareAt(routes, n, i, j);
    }
    if exists i, j :: ShareAt(routes, n, i, j) && routes[j].0 == x {
      var i, j :| ShareAt(routes, n, i, j) && routes[j].0 == x;
      OthersMembers(routes, routes[i].0, n);
      assert x in Others(routes, routes[i].0, n);
    }
  }

  /**
    Every candidate list holds at least two branch roots, so the `<= 1` skip of
    line 409 never applies: when `x` is recorded for `n` because branch `y`
    also reaches `n`, then `y` is recorded for `n` because `x` reaches it.
   */
  lemma MergeListsNeverSingle(routes: NodeLists)
    requires forall i :: 0 <= i < |routes| ==> NoDup(routes[i].1)
    ensures forall e :: e in MergeCandidates(routes) ==> |e.1| >= 2
  {
    var m := MergeCandidates(routes);
    MergeCandidatesSpec(routes);
    forall e | e in m
      ensures |e.1| >= 2
    {
      var k :| 0 <= k < |m| && m[k] == e;
      GetEntry(m, k, []);
      assert ListOf(m, e.0) == e.1 != [];
      var x := e.1[0];
      ContributionsShare(routes, e.0, x);
      var i, j :| ShareAt(routes, e.0, i, j) && routes[j].0 == x;
      assert ShareAt(routes, e.0, j, i);
      ContributionsShare(routes, e.0, routes[i].0);
      TwoDistinctMembers(e.1, x, routes[i].0);
    }
  }

  /** How many branch entries hold `n` on their route. */
  function Holding(rs: NodeLists, n: NodeId): nat
  {
    if rs == [] then 0 else (if n in rs[0].1 then 1 else 0) + Holding(rs[1..], n)
  }

  /** Some entry keyed `b` holds `n`. */
  predicate KeyHolds(rs: NodeLists, b: NodeId, n: NodeId)
  {
    exists i :: 0 <= i < |rs| && rs[i].0 == b && n in rs[i].1
  }

  lemma {:induction false} OthersLength(rs: NodeLists, b: NodeId, n: NodeId)
    requires NoDup(Keys(rs))
    ensures |Others(rs, b, n)| + (if KeyHolds(rs, b, n) then 1 else 0) == Holding(rs, n)
  {
    if rs != [] {
      var rest := rs[1..];
      assert Keys(rest) == Keys(rs)[1..];
      OthersLength(rest, b, n);
      assert KeyHolds(rest, b, n) ==> KeyHolds(rs, b, n) by {
        if KeyHolds(rest, b, n) {
          var i :| 0 <= i < |rest| && rest[i].0 == b && n in rest[i].1;
          assert rs[i + 1] == rest[i];
        }
      }
      if rs[0].0 == b {
        forall i | 0 <= i < |rest|
          ensures rest[i].0 != b
        {
          assert Keys(rs)[i + 1] == rest[i].0;
        }
      } else {
        assert KeyHolds(rs, b, n) ==> KeyHolds(rest, b, n) by {
          if KeyHolds(rs, b, n) {
            var i :| 0 <= i < |rs| && rs[i].0 == b && n in rs[i].1;
            assert rest[i - 1] == rs[i];
          }
        }
      }
    }
  }

  lemma HoldingSuffix(rs: NodeLists, j: nat, n: NodeId)
    requires j < |rs|
    ensures Holding(rs[j..], n) == (if n in rs[j].1 then 1 else 0) + Holding(rs[j + 1..], n)
  {
    assert rs[j..][1..] == rs[j + 1..];
  }

  lemma Distribute(c: int, rest: nat)
    ensures c + rest * c == (1 + rest) * c
  {
  }

  lemma {:induction false} ContributionsLength(routes: NodeLists, j: nat, n: NodeId)
    requires j <= |routes| && NoDup(Keys(routes))
    ensures |Contributions(routes, j, n)| == Holding(routes[j..], n) * (Holding(routes, n) - 1)
    decreases |routes| - j
  {
    if j == |routes| {
      assert routes[j..] == [];
    } else {
      var c := Holding(routes, n) - 1;
      var rest := Holding(routes[j + 1..], n);
      ContributionsLength(routes, j + 1, n);
      HoldingSuffix(routes, j, n);
      assert |Contributions(routes, j + 1, n)| == rest * c;
      if n in routes[j].1 {
        OthersLength(routes, routes[j].0, n);
        assert KeyHolds(routes, routes[j].0, n);
        assert |Others(routes, routes[j].0, n)| == c;
        assert |Contributions(routes, j, n)| == c + rest * c;
        Distribute(c, rest);
      }
    }
  }

  /**
    A node on the routes of `k` branches collects `k * (k - 1)` entries: each
    of the `k` branches records the other `k - 1`. Sorting by list length is
    therefore sorting by `k`.
   */
  lemma MergeListLength(routes: NodeLists, n: NodeId)
    requires RoutesNoDup(routes) && NoDup(Keys(routes))
    ensures |ListOf(MergeCandidates(routes), n)| == Holding(routes, n) * (Holding(routes, n) - 1)
  {
    MergeCandidatesSpec(routes);
    assert routes[0..] == routes;
    ContributionsLength(routes, 0, n);
  }

  // ---------------------------------------------------------------------------
  // Stable sort by list length, descending (line 405)

  function Count(e: (NodeId, seq<NodeId>)): nat
  {
    |e.1|
  }

  ghost predicate SortedDesc(xs: NodeLists)
  {
    forall i, j :: 0 <= i < j < |xs| ==> Count(xs[i]) >= Count(xs[j])
  }

  /** The entries whose list has length `c`, in order. */
  function WithCount(xs: NodeLists, c: nat): NodeLists
  {
    if xs == [] then []
    else (if Count(xs[0]) == c then [xs[0]] else []) + WithCount(xs[1..], c)
  }

  /** Insert `x` in front of the first entry whose count is not larger. */
  function Insert(x: (NodeId, seq<NodeId>), ys: NodeLists): (r: NodeLists)
    ensures multiset(r) == multiset(ys) + multiset{x}
    ensures |r| >= 1 && (r[0] == x || (ys != [] && r[0] == ys[0]))
  {
    if ys == [] || Count(x) >= Count(ys[0]) then
      [x] + ys
    else
      assert ys == [ys[0]] + ys[1..];
      [ys[0]] + Insert(x, ys[1..])
  }

  lemma {:induction false} InsertSorted(x: (NodeId, seq<NodeId>), ys: NodeLists)
    requires SortedDesc(ys)
    ensures SortedDesc(Insert(x, ys))
  {
    if ys == [] || Count(x) >= Count(ys[0]) {
    } else {
      var tail := Insert(x, ys[1..]);
      InsertSorted(x, ys[1..]);
      var r := [ys[0]] + tail;
      assert r == Insert(x, ys);
      forall i, j | 0 <= i < j < |r|
        ensures Count(r[i]) >= Count(r[j])
      {
        assert r[j] == tail[j - 1];
        if i > 0 {
          assert r[i] == tail[i - 1];
        } else {
          assert tail[j - 1] in multiset(ys[1..]) + multiset{x};
          if tail[j - 1] != x {
            assert tail[j - 1] in ys[1..];
            var k :| 0 <= k < |ys[1..]| && ys[1..][k] == tail[j - 1];
            assert ys[k + 1] == r[j];
          }
        }
      }
    }
  }

  lemma {:induction false} InsertWithCount(x: (NodeId, seq<NodeId>), ys: NodeLists, c: nat)
    ensures WithCount(Insert(x, ys), c) == (if Count(x) == c then [x] else []) + WithCount(ys, c)
  {
    if ys == [] || Count(x) >= Count(ys[0]) {
      assert ([x] + ys)[1..] == ys;
    } else {
      InsertWithCount(x, ys[1..], c);
      var r := [ys[0]] + Insert(x, ys[1..]);
      assert r[1..] == Insert(x, ys[1..]);
      assert ys == [ys[0]] + ys[1..];
    }
  }

  /**
    Python's `sorted(..., key=len, reverse=True)`: descending by count, a
    permutation of the input, and stable — for every count, the entries with
    that count keep their input order.
   */
  function SortByCount(xs: NodeLists): (r: NodeLists)
    ensures multiset(r) == multiset(xs)
    ensures SortedDesc(r)
    ensures forall c: nat :: WithCount(r, c) == WithCount(xs, c)
  {
    if xs == [] then []
    else
      assert xs == [xs[0]] + xs[1..];
      var rest := SortByCount(xs[1..]);
      InsertSorted(xs[0], rest);
      assert forall c: nat :: WithCount(Insert(xs[0], rest), c) == WithCount(xs, c) by {
        forall c: nat
          ensures WithCount(Insert(xs[0], rest), c) == WithCount(xs, c)
        {
          InsertWithCount(xs[0], rest, c);
        }
      }
      Insert(xs[0], rest)
  }

  // ---------------------------------------------------------------------------
  // Greedy merge-node choice (lines 407-416)

  /** Candidate entry `e` claims branch `b`: its list is longer than one and holds `b`. */
  predicate Claims(e: (NodeId, seq<NodeId>), b: NodeId)
  {
    |e.1| > 1 && b in e.1
  }

  /** Lines 412-416: every branch of `bs` not yet chosen gets merge node `n`. */
  function ClaimAll(n: NodeId, bs: seq<NodeId>, chosen: map<NodeId, NodeId>): (r: map<NodeId, NodeId>)
    ensures forall b :: b in r <==> b in chosen || b in bs
    ensures forall b :: b in chosen ==> r[b] == chosen[b]
    ensures forall b :: b in r && b !in chosen ==> r[b] == n
  {
    if bs == [] then chosen
    else ClaimAll(n, bs[1..], if bs[0] in chosen then chosen else chosen[bs[0] := n])
  }

  /** The loop of lines 408-416 over the sorted candidates from index `i` on. */
  function AssignFrom(sorted: NodeLists, i: nat, chosen: map<NodeId, NodeId>): (r: map<NodeId, NodeId>)
    requires i <= |sorted|
    ensures forall b :: b in r <==> b in chosen || exists k :: i <= k < |sorted| && Claims(sorted[k], b)
    ensures forall b :: b in chosen ==> r[b] == chosen[b]
    ensures forall b :: b in r && b !in chosen ==>
              exists k :: i <= k < |sorted| && Claims(sorted[k], b) && r[b] == sorted[k].0
                && forall k' :: i <= k' < k ==> !Claims(sorted[k'], b)
    decreases |sorted| - i
  {
    if i == |sorted| then chosen
    else if |sorted[i].1| <= 1 then AssignFrom(sorted, i + 1, chosen)
    else AssignFrom(sorted, i + 1, ClaimAll(sorted[i].0, sorted[i].1, chosen))
  }

  // ---------------------------------------------------------------------------
  // Branch node lists (lines 418-434)

  /** One branch's list: the root and its whole route, or the bounded walk toward its merge node. */
  function BranchNodes(em: EdgeMapping, b: NodeId, route: seq<NodeId>, chosen: map<NodeId, NodeId>): seq<NodeId>
  {
    if b !in chosen then [b] + route else AddParallelNodeIds(em, chosen[b], b)
  }

  function InBranch(em: EdgeMapping, routes: NodeLists, chosen: map<NodeId, NodeId>): (r: NodeLists)
    ensures |r| == |routes|
    ensures forall j :: 0 <= j < |r| ==> r[j] == (routes[j].0, BranchNodes(em, routes[j].0, routes[j].1, chosen))
  {
    seq(|routes|, j requires 0 <= j < |routes| => (routes[j].0, BranchNodes(em, routes[j].0, routes[j].1, chosen)))
  }

  /** The merge nodes chosen for the branch roots `pids`. */
  function MergeAssignment(em: EdgeMapping, pids: seq<NodeId>): map<NodeId, NodeId>
  {
    AssignFrom(SortByCount(MergeCandidates(BranchRoutes(em, pids))), 0, map[])
  }

  /** `_fetch_all_node_ids_in_parallels`: the branch node lists, keyed by branch root. */
  function FetchAllNodeIdsInParallels(em: EdgeMapping, pids: seq<NodeId>): NodeLists
  {
    InBranch(em, BranchRoutes(em, pids), MergeAssignment(em, pids))
  }

  // ---------------------------------------------------------------------------
  // What the candidate lists and the choice mean, over the routes alone

  /** Node `n` lies on the route of branch `b` and on the route of another branch entry. */
  ghost predicate MergeAt(routes: NodeLists, n: NodeId, b: NodeId)
  {
    exists i, j :: ShareAt(routes, n, i, j) && routes[j].0 == b
  }

  /** Some candidate entry of `m` claims branch `b`. */
  ghost predicate ClaimedIn(m: NodeLists, b: NodeId)
  {
    exists k :: 0 <= k < |m| && Claims(m[k], b)
  }

  /** Every route is free of duplicates, as every walk is. */
  ghost predicate RoutesNoDup(routes: NodeLists)
  {
    forall i :: 0 <= i < |routes| ==> NoDup(routes[i].1)
  }

  /** A candidate entry that claims `b` is a node on `b`'s route and another branch's route. */
  lemma ClaimedEntryMerges(routes: NodeLists, k: int, b: NodeId)
    requires RoutesNoDup(routes)
    requires 0 <= k < |MergeCandidates(routes)| && Claims(MergeCandidates(routes)[k], b)
    ensures MergeAt(routes, MergeCandidates(routes)[k].0, b)
  {
    var m := MergeCandidates(routes);
    MergeCandidatesSpec(routes);
    GetEntry(m, k, []);
    ContributionsShare(routes, m[k].0, b);
  }

  /** A node shared by `b`'s route and another branch's route becomes a candidate entry that claims `b`. */
  lemma MergeClaims(routes: NodeLists, n: NodeId, b: NodeId)
    requires RoutesNoDup(routes)
    requires MergeAt(routes, n, b)
    ensures ClaimedIn(MergeCandidates(routes), b)
  {
    var m := MergeCandidates(routes);
    MergeCandidatesSpec(routes);
    MergeListsNeverSingle(routes);
    ContributionsShare(routes, n, b);
    assert b in ListOf(m, n);
    assert n in Keys(m);
    var k := IndexOf(m, n);
    assert m[k] in m;
    assert Claims(m[k], b);
  }

  /** Sorting keeps the entries, so it keeps which branches are claimed. */
  lemma SortKeepsClaims(m: NodeLists, b: NodeId)
    ensures ClaimedIn(SortByCount(m), b) <==> ClaimedIn(m, b)
  {
    var sorted := SortByCount(m);
    if k :| 0 <= k < |sorted| && Claims(sorted[k], b) {
      assert sorted[k] in multiset(m);
      var k' :| 0 <= k' < |m| && m[k'] == sorted[k];
    }
    if k :| 0 <= k < |m| && Claims(m[k], b) {
      assert m[k] in multiset(sorted);
      var k' :| 0 <= k' < |sorted| && sorted[k'] == m[k];
    }
  }

  /** The sorted entry a chosen merge node comes from is a candidate entry claiming the branch. */
  lemma SortedEntryMerges(routes: NodeLists, k: int, b: NodeId)
    requires RoutesNoDup(routes)
    requires 0 <= k < |SortByCount(MergeCandidates(routes))|
    requires Claims(SortByCount(MergeCandidates(routes))[k], b)
    ensures MergeAt(routes, SortByCount(MergeCandidates(routes))[k].0, b)
  {
    var m := MergeCandidates(routes);
    var sorted := SortByCount(m);
    assert sorted[k] in multiset(m);
    var k' :| 0 <= k' < |m| && m[k'] == sorted[k];
    ClaimedEntryMerges(routes, k', b);
  }

  /** A branch chosen by the greedy loop gets the node of a sorted entry that claims it. */
  lemma ChosenEntry(sorted: NodeLists, b: NodeId)
    requires b in AssignFrom(sorted, 0, map[])
    ensures exists k :: 0 <= k < |sorted| && Claims(sorted[k], b) && AssignFrom(sorted, 0, map[])[b] == sorted[k].0
  {
  }

  /** The greedy loop chooses a merge node for exactly the claimed branches. */
  lemma ChosenIffClaimed(sorted: NodeLists, b: NodeId)
    ensures b in AssignFrom(sorted, 0, map[]) <==> ClaimedIn(sorted, b)
  {
  }

  // ---------------------------------------------------------------------------
  // What the branch lists are, in terms of reachability

  /** `m` lies on the route of `b` and on the route of another branch root of `pids`. */
  ghost predicate IsMergeFor(em: EdgeMapping, pids: seq<NodeId>, b: NodeId, m: NodeId)
  {
    m in FetchRoutes(em, b) && exists b' :: b' in pids && b' != b && m in FetchRoutes(em, b')
  }

  /** Branch root `b` shares a node of its route with another branch root of `pids`. */
  ghost predicate SharesRoute(em: EdgeMapping, pids: seq<NodeId>, b: NodeId)
  {
    exists n :: IsMergeFor(em, pids, b, n)
  }

  lemma RoutesNoDupOf(em: EdgeMapping, pids: seq<NodeId>)
    ensures RoutesNoDup(BranchRoutes(em, pids))
  {
    BranchRoutesSpec(em, pids);
  }

  /** On the branch entries, sharing a node of the routes is being a merge node for the branch root. */
  lemma MergeAtIsMerge(em: EdgeMapping, pids: seq<NodeId>, n: NodeId, b: NodeId)
    requires MergeAt(BranchRoutes(em, pids), n, b)
    ensures IsMergeFor(em, pids, b, n)
  {
    var routes := BranchRoutes(em, pids);
    BranchRoutesSpec(em, pids);
    var i, j :| ShareAt(routes, n, i, j) && routes[j].0 == b;
    assert Keys(routes)[i] == routes[i].0;
    assert routes[i].0 in Elems(Dedup(pids));
  }

  lemma MergeIsMergeAt(em: EdgeMapping, pids: seq<NodeId>, n: NodeId, b: NodeId)
    requires b in pids
    requires IsMergeFor(em, pids, b, n)
    ensures MergeAt(BranchRoutes(em, pids), n, b)
  {
    var routes := BranchRoutes(em, pids);
    BranchRoutesSpec(em, pids);
    var b' :| b' in pids && b' != b && n in FetchRoutes(em, b');
    assert b in Elems(Dedup(pids)) && b' in Elems(Dedup(pids));
    var j :| 0 <= j < |routes| && Keys(routes)[j] == b;
    var i :| 0 <= i < |routes| && Keys(routes)[i] == b';
    assert ShareAt(routes, n, i, j);
  }

  /** A merge node chosen for `b` lies on `b`'s route and on another branch's route. */
  lemma ChosenIsMerge(em: EdgeMapping, pids: seq<NodeId>, b: NodeId)
    requires b in MergeAssignment(em, pids)
    ensures IsMergeFor(em, pids, b, MergeAssignment(em, pids)[b])
  {
    var routes := BranchRoutes(em, pids);
    var sorted := SortByCount(MergeCandidates(routes));
    RoutesNoDupOf(em, pids);
    ChosenEntry(sorted, b);
    var k :| 0 <= k < |sorted| && Claims(sorted[k], b) && MergeAssignment(em, pids)[b] == sorted[k].0;
    SortedEntryMerges(routes, k, b);
    MergeAtIsMerge(em, pids, sorted[k].0, b);
  }

  /** A branch gets a merge node exactly when its route meets another branch's route. */
  lemma ChosenIffShared(em: EdgeMapping, pids: seq<NodeId>, b: NodeId)
    requires b in pids
    ensures b in MergeAssignment(em, pids) <==> SharesRoute(em, pids, b)
  {
    var routes := BranchRoutes(em, pids);
    var m := MergeCandidates(routes);
    RoutesNoDupOf(em, pids);
    ChosenIffClaimed(SortByCount(m), b);
    SortKeepsClaims(m, b);
    if b in MergeAssignment(em, pids) {
      ChosenIsMerge(em, pids, b);
    }
    if SharesRoute(em, pids, b) {
      var n :| IsMergeFor(em, pids, b, n);
      MergeIsMergeAt(em, pids, n, b);
      MergeClaims(routes, n, b);
    }
  }

  /** One branch's node list, as the source's comments promise it. */
  ghost predicate BranchListOk(em: EdgeMapping, pids: seq<NodeId>, b: NodeId, ns: seq<NodeId>)
  {
    && |ns| >= 1 && ns[0] == b
    && (!SharesRoute(em, pids, b) ==> ns == [b] + FetchRoutes(em, b))
    && (SharesRoute(em, pids, b) ==>
          exists mg :: IsMergeFor(em, pids, b, mg) && mg !in ns[1..] && ns == AddParallelNodeIds(em, mg, b))
  }

  lemma BranchEntryOk(em: EdgeMapping, pids: seq<NodeId>, j: int)
    requires 0 <= j < |BranchRoutes(em, pids)|
    ensures var e := FetchAllNodeIdsInParallels(em, pids)[j];
      BranchListOk(em, pids, e.0, e.1)
  {
    var routes := BranchRoutes(em, pids);
    var chosen := MergeAssignment(em, pids);
    BranchRoutesSpec(em, pids);
    var b := routes[j].0;
    assert Keys(routes)[j] == b;
    assert b in Elems(Dedup(pids));
    var e := FetchAllNodeIdsInParallels(em, pids)[j];
    assert e == (b, BranchNodes(em, b, routes[j].1, chosen));
    ChosenIffShared(em, pids, b);
    if b in chosen {
      ChosenIsMerge(em, pids, b);
      assert IsMergeFor(em, pids, b, chosen[b]);
    } else {
      assert routes[j].1 == FetchRoutes(em, b);
    }
  }

  /**
    The result of `_fetch_all_node_ids_in_parallels`: one entry per distinct
    branch root in first-occurrence order; a branch whose route meets no other
    branch's route owns itself and its whole route; any other branch owns the
    nodes before a merge node that lies on its route and another branch's
    route, and not that merge node.
   */
  lemma FetchAllSpec(em: EdgeMapping, pids: seq<NodeId>)
    ensures Keys(FetchAllNodeIdsInParallels(em, pids)) == Dedup(pids)
    ensures var r := FetchAllNodeIdsInParallels(em, pids);
      forall j :: 0 <= j < |r| ==> BranchListOk(em, pids, r[j].0, r[j].1)
  {
    var routes := BranchRoutes(em, pids);
    var r := FetchAllNodeIdsInParallels(em, pids);
    BranchRoutesSpec(em, pids);
    assert Keys(r) == Keys(routes);
    forall j | 0 <= j < |r|
      ensures BranchListOk(em, pids, r[j].0, r[j].1)
    {
      BranchEntryOk(em, pids, j);
    }
  }
}
