/** `topologicalSort` (workflow-editor/src/utils/executor.js): Kahn's
    algorithm with a FIFO queue seeded in node-declaration order. It does not
    report cycles: a node on a cycle, or downstream of one, never reaches
    in-degree zero and is simply missing from the result. */
module Scheduler {
  import opened WorkflowGraph

  // ---------------------------------------------------------------------
  // Specification vocabulary

  /** The number of entries of `s` that are not in `done`: for
      `s == Sources(edges, v)`, the in-degree of `v` once the nodes in `done`
      have been processed. */
  function Outside(s: seq<string>, done: set<string>): (r: nat)
    ensures r <= |s|
  {
    if |s| == 0 then 0
    else Outside(s[..|s| - 1], done) + (if s[|s| - 1] in done then 0 else 1)
  }

  lemma {:induction false} OutsideNone(s: seq<string>, done: set<string>)
    ensures Outside(s, done) == 0 <==> forall x :: x in s ==> x in done
  {
    if |s| > 0 {
      OutsideNone(s[..|s| - 1], done);
      assert s == s[..|s| - 1] + [s[|s| - 1]];
    }
  }

  lemma {:induction false} OutsideNothingDone(s: seq<string>)
    ensures Outside(s, {}) == |s|
  {
    if |s| > 0 {
      OutsideNothingDone(s[..|s| - 1]);
    }
  }

  /** Finishing `u` lowers the count by the number of times `u` occurs. */
  lemma {:induction false} OutsideAdd(s: seq<string>, done: set<string>, u: string)
    requires u !in done
    ensures Outside(s, done) == Outside(s, done + {u}) + multiset(s)[u]
  {
    if |s| > 0 {
      var s' := s[..|s| - 1];
      OutsideAdd(s', done, u);
      assert s == s' + [s[|s| - 1]];
    }
  }

  /** The ids of the nodes that no edge targets, in declaration order: the
      initial contents of the queue. */
  function Roots(nodes: seq<Node>, edges: seq<Edge>): (r: seq<string>)
    ensures forall v :: v in r <==> v in NodeIds(nodes) && Sources(edges, v) == []
  {
    if |nodes| == 0 then []
    else
      var n := nodes[|nodes| - 1];
      assert NodeIds(nodes) == NodeIds(nodes[..|nodes| - 1]) + {n.id} by {
        assert nodes == nodes[..|nodes| - 1] + [n];
      }
      Roots(nodes[..|nodes| - 1], edges) + (if Sources(edges, n.id) == [] then [n.id] else [])
  }

  lemma {:induction false} RootsDistinct(nodes: seq<Node>, edges: seq<Edge>)
    requires UniqueIds(nodes)
    ensures Distinct(Roots(nodes, edges))
  {
    if |nodes| > 0 {
      var n := nodes[|nodes| - 1];
      var prefix := nodes[..|nodes| - 1];
      RootsDistinct(prefix, edges);
      forall m | m in prefix ensures m.id != n.id {
        var i :| 0 <= i < |prefix| && prefix[i] == m;
        assert nodes[i] == m;
      }
      assert n.id !in NodeIds(prefix);
    }
  }

  /** Every node of `order` comes after all the sources of its incoming edges. */
  ghost predicate PredecessorsFirst(edges: seq<Edge>, order: seq<string>) {
    forall j, x :: 0 <= j < |order| && x in Sources(edges, order[j]) ==> x in order[..j]
  }

  /** In-degrees once the nodes in `done` have been processed and, of the
      node being processed, the first adjacency entries `prefix`: each count
      is the number of incoming edges from unprocessed nodes, less the
      entries of `prefix` that name it. */
  ghost predicate InDegrees(ids: set<string>, edges: seq<Edge>, done: set<string>,
                            prefix: seq<string>, inDegree: map<string, int>)
  {
    && inDegree.Keys == ids
    && forall v :: v in inDegree ==>
         inDegree[v] == Outside(Sources(edges, v), done) - multiset(prefix)[v]
  }

  /** The queue once the nodes `emitted` have been dequeued: nothing is queued
      or emitted twice, exactly the other nodes of in-degree zero are queued,
      the queue only grew at the back of `queue0`, and `roots` lead the
      emitted-then-queued sequence. */
  ghost predicate Queued(ids: set<string>, roots: seq<string>, emitted: seq<string>,
                         inDegree: map<string, int>, queue0: seq<string>, queue: seq<string>)
  {
    && inDegree.Keys == ids
    && Distinct(emitted + queue)
    && (forall x :: x in emitted + queue ==> x in ids)
    && (forall v :: v in ids ==> (v in queue <==> v !in Elems(emitted) && inDegree[v] == 0))
    && IsPrefix(queue0, queue)
    && IsPrefix(roots, emitted + queue)
  }

  /** The state the Kahn loop keeps between two dequeues: in-degrees count
      the incoming edges from unprocessed nodes, the queue holds exactly the
      unprocessed nodes whose count is zero, nothing is queued or emitted
      twice, the roots lead, and every emitted node follows its sources. */
  ghost predicate KahnState(ids: set<string>, roots: seq<string>, edges: seq<Edge>,
                            inDegree: map<string, int>, queue: seq<string>, order: seq<string>)
  {
    && InDegrees(ids, edges, Elems(order), [], inDegree)
    && Queued(ids, roots, order, inDegree, [], queue)
    && PredecessorsFirst(edges, order)
  }

  // ---------------------------------------------------------------------
  // What an order that puts predecessors first implies

  /** Every edge between two emitted nodes points forward. */
  lemma PredecessorsFirstOrders(edges: seq<Edge>, order: seq<string>)
    requires PredecessorsFirst(edges, order) && Distinct(order)
    ensures forall i, j :: 0 <= i < |order| && 0 <= j < |order| && Edge(order[i], order[j]) in edges ==> i < j
  {
    forall i, j | 0 <= i < |order| && 0 <= j < |order| && Edge(order[i], order[j]) in edges
      ensures i < j
    {
      assert order[i] in order[..j];
      var i' :| 0 <= i' < j && order[..j][i'] == order[i];
      assert order[i'] == order[i];
    }
  }

  /** Whatever leads to an emitted node was emitted no later than it. */
  lemma {:induction false} PathIntoOrder(edges: seq<Edge>, order: seq<string>, p: seq<string>, j: nat)
    requires PredecessorsFirst(edges, order) && j < |order|
    requires IsPath(edges, p) && p[|p| - 1] == order[j]
    ensures exists i :: 0 <= i <= j && order[i] == p[0]
    decreases |p|
  {
    if |p| > 1 {
      var x := p[|p| - 2];
      assert Edge(x, order[j]) in edges;
      assert x in order[..j];
      var j' :| 0 <= j' < j && order[..j][j'] == x;
      var q := p[..|p| - 1];
      assert forall k :: 0 <= k < |q| ==> q[k] == p[k];
      assert IsPath(edges, q);
      PathIntoOrder(edges, order, q, j');
    } else {
      assert order[j] == p[0];
    }
  }

  /** Whatever reaches the emitted node `order[j]` is itself emitted, no later. */
  lemma ReachesIntoOrder(edges: seq<Edge>, order: seq<string>, a: string, j: nat)
    requires PredecessorsFirst(edges, order) && j < |order|
    ensures Reaches(edges, a, order[j]) ==> a in order[..j + 1]
  {
    if Reaches(edges, a, order[j]) {
      var p :| IsPath(edges, p) && p[0] == a && p[|p| - 1] == order[j];
      PathIntoOrder(edges, order, p, j);
      var i :| 0 <= i <= j && order[i] == a;
      assert order[..j + 1][i] == a;
    }
  }

  /** No emitted node lies on a cycle or downstream of one. */
  lemma PredecessorsFirstExcludesCycles(edges: seq<Edge>, order: seq<string>, v: string)
    requires PredecessorsFirst(edges, order) && Distinct(order) && v in order
    ensures !ReachableFromCycle(edges, v)
  {
    PredecessorsFirstOrders(edges, order);
    var jv :| 0 <= jv < |order| && order[jv] == v;
    forall c | Reaches(edges, c, v) ensures !OnCycle(edges, c) {
      ReachesIntoOrder(edges, order, c, jv);
      var ic :| 0 <= ic <= jv && order[ic] == c;
      forall e | e in edges && e.source == c ensures !Reaches(edges, e.target, c) {
        ReachesIntoOrder(edges, order, e.target, ic);
        assert e == Edge(order[ic], e.target);
      }
    }
  }

  // ---------------------------------------------------------------------
  // What the nodes left behind imply

  /** Some edge into `w` comes from a node of `U`. */
  ghost predicate HasPredecessorIn(edges: seq<Edge>, U: set<string>, w: string) {
    exists x :: x in U && Edge(x, w) in edges
  }

  /** A walk through more distinct positions than `U` has elements repeats a node. */
  lemma {:induction false} Pigeonhole(p: seq<string>, U: set<string>) returns (i: nat, j: nat)
    requires forall k :: 0 <= k < |p| ==> p[k] in U
    requires |p| > |U|
    ensures i < j < |p| && p[i] == p[j]
    decreases |p|
  {
    if k :| 0 < k < |p| && p[k] == p[0] {
      i, j := 0, k;
    } else {
      var U' := U - {p[0]};
      assert p[0] in U;
      assert |U'| == |U| - 1;
      var i', j' := Pigeonhole(p[1..], U');
      i, j := i' + 1, j' + 1;
    }
  }

  /** In a set where every node has an incoming edge from the set, a walk of
      any length can be followed backwards from any node. */
  lemma {:induction false} WalkBack(edges: seq<Edge>, U: set<string>, v: string, n: nat) returns (p: seq<string>)
    requires v in U
    requires forall w :: w in U ==> HasPredecessorIn(edges, U, w)
    ensures |p| == n + 1 && IsPath(edges, p) && p[n] == v
    ensures forall k :: 0 <= k < |p| ==> p[k] in U
  {
    if n == 0 {
      p := [v];
    } else {
      var q := WalkBack(edges, U, v, n - 1);
      var x :| x in U && Edge(x, q[0]) in edges;
      p := [x] + q;
      assert forall k :: 0 <= k < |q| ==> p[k + 1] == q[k];
    }
  }

  /** Such a node lies on a cycle or downstream of one. */
  lemma StuckNodesReachableFromCycle(edges: seq<Edge>, U: set<string>, v: string)
    requires v in U
    requires forall w :: w in U ==> HasPredecessorIn(edges, U, w)
    ensures ReachableFromCycle(edges, v)
  {
    var p := WalkBack(edges, U, v, |U|);
    var i, j := Pigeonhole(p, U);
    var c := p[i];
    SubPath(edges, p, i, |p| - 1);
    assert Reaches(edges, c, v);
    SubPath(edges, p, i + 1, j);
    var e := Edge(c, p[i + 1]);
    assert e in edges;
    assert Reaches(edges, e.target, c);
    assert OnCycle(edges, c);
  }

  // ---------------------------------------------------------------------
  // The algorithm

  /** The in-degree of a successor of a node being processed is positive, and
      that successor is neither the node itself nor already emitted. */
  lemma SuccessorPending(edges: seq<Edge>, order: seq<string>, u: string, w: string)
    requires PredecessorsFirst(edges, order) && u !in Elems(order)
    requires forall x :: x in Sources(edges, u) ==> x in Elems(order)
    requires w in Targets(edges, u)
    ensures w != u && w !in Elems(order)
    ensures Outside(Sources(edges, w), Elems(order)) >= multiset(Targets(edges, u))[w]
  {
    SourcesTargetsCount(edges, u, w);
    OutsideAdd(Sources(edges, w), Elems(order), u);
    assert u in Sources(edges, w);
    forall j | 0 <= j < |order| ensures order[j] != w {
      assert u !in order[..j];
      assert u !in Sources(edges, order[j]);
    }
  }

  /** The state of the loop over the adjacency list of the dequeued node `u`
      after its first `k` entries. */
  ghost predicate ReleaseState(ids: set<string>, roots: seq<string>, edges: seq<Edge>, order: seq<string>,
                               u: string, k: nat, inDegree: map<string, int>,
                               queue0: seq<string>, queue: seq<string>)
  {
    && k <= |Targets(edges, u)|
    && InDegrees(ids, edges, Elems(order), Targets(edges, u)[..k], inDegree)
    && Queued(ids, roots, order + [u], inDegree, queue0, queue)
  }

  /** What holds of the node `u` at the head of the queue. */
  lemma HeadFacts(ids: set<string>, roots: seq<string>, edges: seq<Edge>, inDegree: map<string, int>,
                  u: string, queue0: seq<string>, order: seq<string>)
    requires InDegrees(ids, edges, Elems(order), [], inDegree)
    requires Queued(ids, roots, order, inDegree, [], [u] + queue0)
    ensures u in ids && u !in Elems(order) && u !in queue0
    ensures forall x :: x in Sources(edges, u) ==> x in Elems(order)
  {
    assert u in [u] + queue0;
    assert u in order + ([u] + queue0);
    assert inDegree[u] == Outside(Sources(edges, u), Elems(order));
    OutsideNone(Sources(edges, u), Elems(order));
    DistinctSplit(order, u, queue0);
  }

  /** In a sequence without repetitions, an element occurs on one side only. */
  lemma DistinctSplit<T>(a: seq<T>, u: T, b: seq<T>)
    requires Distinct(a + ([u] + b))
    ensures u !in b
  {
    var all := a + ([u] + b);
    forall k | 0 <= k < |b| ensures b[k] != u {
      assert all[|a| + 1 + k] == b[k];
      assert all[|a|] == u;
    }
  }

  /** Dequeuing `u` starts the loop over its adjacency list. */
  lemma HeadReady(ids: set<string>, roots: seq<string>, edges: seq<Edge>, inDegree: map<string, int>,
                  u: string, queue0: seq<string>, order: seq<string>)
    requires InDegrees(ids, edges, Elems(order), [], inDegree)
    requires Queued(ids, roots, order, inDegree, [], [u] + queue0)
    ensures u !in Elems(order)
    ensures forall x :: x in Sources(edges, u) ==> x in Elems(order)
    ensures ReleaseState(ids, roots, edges, order, u, 0, inDegree, queue0, queue0)
  {
    HeadFacts(ids, roots, edges, inDegree, u, queue0, order);
    assert order + [u] + queue0 == order + ([u] + queue0);
    assert Targets(edges, u)[..0] == [];
    ElemsSnoc(order, u);
    forall v | v in ids ensures v in queue0 <==> v !in Elems(order + [u]) && inDegree[v] == 0 {
      assert v in queue0 <==> v in [u] + queue0 && v != u;
    }
  }

  /** One entry `w` of the adjacency list lowers the in-degree of `w` by one. */
  lemma CountStep(ids: set<string>, edges: seq<Edge>, done: set<string>,
                  prefix: seq<string>, w: string, inDegree: map<string, int>,
                  prefix': seq<string>, inDegree': map<string, int>)
    requires InDegrees(ids, edges, done, prefix, inDegree)
    requires prefix' == prefix + [w]
    requires inDegree' == if w in inDegree then inDegree[w := inDegree[w] - 1] else inDegree
    ensures InDegrees(ids, edges, done, prefix', inDegree')
  {
    assert multiset(prefix + [w]) == multiset(prefix) + multiset{w};
  }

  /** A node whose in-degree drops to zero joins the back of the queue. */
  lemma QueueStep(ids: set<string>, roots: seq<string>, emitted: seq<string>,
                  inDegree: map<string, int>, queue0: seq<string>, queue: seq<string>, w: string,
                  inDegree': map<string, int>, queue': seq<string>)
    requires Queued(ids, roots, emitted, inDegree, queue0, queue)
    requires w in inDegree ==> w !in Elems(emitted) && inDegree[w] >= 1
    requires inDegree' == if w in inDegree then inDegree[w := inDegree[w] - 1] else inDegree
    requires queue' == if w in inDegree && inDegree[w] == 1 then queue + [w] else queue
    ensures Queued(ids, roots, emitted, inDegree', queue0, queue')
  {
    if w in inDegree && inDegree[w] == 1 {
      var before := emitted + queue;
      assert w !in before;
      assert emitted + (queue + [w]) == before + [w];
      assert (before + [w])[..|roots|] == before[..|roots|];
      assert (queue + [w])[..|queue0|] == queue[..|queue0|];
    }
  }

  /** The next entry `w` of the adjacency list of `u` names a node that is
      still pending and whose in-degree is positive. */
  lemma NextPending(ids: set<string>, edges: seq<Edge>, order: seq<string>, u: string,
                    k: nat, inDegree: map<string, int>)
    requires PredecessorsFirst(edges, order) && u !in Elems(order)
    requires forall x :: x in Sources(edges, u) ==> x in Elems(order)
    requires k < |Targets(edges, u)|
    requires InDegrees(ids, edges, Elems(order), Targets(edges, u)[..k], inDegree)
    ensures var w := Targets(edges, u)[k];
      w in inDegree ==> w !in Elems(order + [u]) && inDegree[w] >= 1
  {
    var successors := Targets(edges, u);
    var w := successors[k];
    ElemsSnoc(order, u);
    if w in inDegree {
      SuccessorPending(edges, order, u, w);
      TakeSnoc(successors, k);
      assert multiset(successors[..k + 1])[w] <= multiset(successors)[w] by {
        assert successors == successors[..k + 1] + successors[k + 1..];
      }
    }
  }

  /** One entry `w` of the adjacency list (executor.js:41-44): decrement its
      in-degree, and enqueue it when that reaches zero. */
  method ReleaseEntry(ghost ids: set<string>, ghost roots: seq<string>, ghost edges: seq<Edge>,
                      ghost order: seq<string>, ghost u: string, successors: seq<string>, k: nat,
                      inDegree0: map<string, int>, ghost queue0: seq<string>, queue1: seq<string>)
    returns (inDegree: map<string, int>, queue: seq<string>)
    requires PredecessorsFirst(edges, order) && u !in Elems(order)
    requires forall x :: x in Sources(edges, u) ==> x in Elems(order)
    requires successors == Targets(edges, u) && k < |successors|
    requires ReleaseState(ids, roots, edges, order, u, k, inDegree0, queue0, queue1)
    ensures ReleaseState(ids, roots, edges, order, u, k + 1, inDegree, queue0, queue)
  {
    var w := successors[k];
    NextPending(ids, edges, order, u, k, inDegree0);
    inDegree, queue := inDegree0, queue1;
    if w in inDegree {
      inDegree := inDegree[w := inDegree[w] - 1];
      if inDegree[w] == 0 {
        queue := queue + [w];
      }
    }
    TakeSnoc(successors, k);
    CountStep(ids, edges, Elems(order), successors[..k], w, inDegree0, successors[..k + 1], inDegree);
    QueueStep(ids, roots, order + [u], inDegree0, queue0, queue1, w, inDegree, queue);
  }

  /** Counting the whole adjacency list of `u` is the same as counting `u` as done. */
  lemma CountsDone(ids: set<string>, edges: seq<Edge>, order: seq<string>, u: string,
                   inDegree: map<string, int>)
    requires u !in Elems(order)
    requires InDegrees(ids, edges, Elems(order), Targets(edges, u)[..|Targets(edges, u)|], inDegree)
    ensures InDegrees(ids, edges, Elems(order + [u]), [], inDegree)
  {
    var done := Elems(order);
    ElemsSnoc(order, u);
    assert Targets(edges, u)[..|Targets(edges, u)|] == Targets(edges, u);
    forall v | v in inDegree
      ensures inDegree[v] == Outside(Sources(edges, v), done + {u})
    {
      SourcesTargetsCount(edges, u, v);
      OutsideAdd(Sources(edges, v), done, u);
    }
  }

  /** Emitting a node whose sources have all been emitted keeps predecessors first. */
  lemma PredecessorsFirstSnoc(edges: seq<Edge>, order: seq<string>, u: string)
    requires PredecessorsFirst(edges, order)
    requires forall x :: x in Sources(edges, u) ==> x in Elems(order)
    ensures PredecessorsFirst(edges, order + [u])
  {
    forall j, x | 0 <= j < |order + [u]| && x in Sources(edges, (order + [u])[j])
      ensures x in (order + [u])[..j]
    {
      if j < |order| {
        assert (order + [u])[..j] == order[..j];
      } else {
        assert (order + [u])[..j] == order;
      }
    }
  }

  /** Once the whole adjacency list is done, `u` counts as processed. */
  lemma ReleaseDone(ids: set<string>, roots: seq<string>, edges: seq<Edge>, order: seq<string>, u: string,
                    inDegree: map<string, int>, queue0: seq<string>, queue: seq<string>)
    requires PredecessorsFirst(edges, order) && u !in Elems(order)
    requires forall x :: x in Sources(edges, u) ==> x in Elems(order)
    requires ReleaseState(ids, roots, edges, order, u, |Targets(edges, u)|,
                          inDegree, queue0, queue)
    ensures KahnState(ids, roots, edges, inDegree, queue, order + [u])
  {
    CountsDone(ids, edges, order, u, inDegree);
    PredecessorsFirstSnoc(edges, order, u);
  }

  /** The end of one Kahn step (executor.js:37-46 after the `shift`): `u` has
      been dequeued and emitted; each entry of its adjacency list decrements
      that node's in-degree, and a node whose in-degree reaches zero joins
      the back of the queue. A target that is not a declared node has an
      in-degree of `NaN` in the source, which never equals zero, so it is
      skipped here. */
  method ReleaseSuccessors(ghost ids: set<string>, ghost roots: seq<string>, ghost edges: seq<Edge>,
                           u: string, successors: seq<string>,
                           inDegree0: map<string, int>, queue0: seq<string>, ghost order: seq<string>)
    returns (inDegree: map<string, int>, queue: seq<string>)
    requires KahnState(ids, roots, edges, inDegree0, [u] + queue0, order)
    requires successors == Targets(edges, u)
    ensures KahnState(ids, roots, edges, inDegree, queue, order + [u])
    ensures IsPrefix(queue0, queue)
  {
    HeadReady(ids, roots, edges, inDegree0, u, queue0, order);
    inDegree, queue := inDegree0, queue0;
    var k := 0;
    while k < |successors|
      invariant 0 <= k <= |successors|
      invariant ReleaseState(ids, roots, edges, order, u, k, inDegree, queue0, queue)
    {
      inDegree, queue := ReleaseEntry(ids, roots, edges, order, u, successors, k, inDegree, queue0, queue);
      k := k + 1;
    }
    ReleaseDone(ids, roots, edges, order, u, inDegree, queue0, queue);
  }

  /** The maps of executor.js:11 and :16-19: every node by id, with
      in-degree zero and an empty adjacency list. */
  method InitMaps(nodes: seq<Node>)
    returns (nodeMap: map<string, Node>, inDegree: map<string, int>, adjacency: map<string, seq<string>>)
    ensures nodeMap.Keys == NodeIds(nodes) && inDegree.Keys == NodeIds(nodes) && adjacency.Keys == NodeIds(nodes)
    ensures forall v :: v in nodeMap ==> nodeMap[v] in nodes && nodeMap[v].id == v
    ensures forall v :: v in inDegree ==> inDegree[v] == 0 && adjacency[v] == []
  {
    nodeMap, inDegree, adjacency := map[], map[], map[];
    var i := 0;
    while i < |nodes|
      invariant 0 <= i <= |nodes|
      invariant inDegree.Keys == NodeIds(nodes[..i]) && adjacency.Keys == NodeIds(nodes[..i])
      invariant nodeMap.Keys == NodeIds(nodes[..i])
      invariant forall v :: v in inDegree ==> inDegree[v] == 0 && adjacency[v] == []
      invariant forall v :: v in nodeMap ==> nodeMap[v] in nodes && nodeMap[v].id == v
    {
      var n := nodes[i];
      TakeSnoc(nodes, i);
      NodeIdsSnoc(nodes[..i], n);
      nodeMap := nodeMap[n.id := n];
      inDegree := inDegree[n.id := 0];
      adjacency := adjacency[n.id := []];
      i := i + 1;
    }
    assert nodes[..i] == nodes;
  }

  /** Counting one more edge `e` keeps the in-degrees and adjacency lists
      exact for the edges seen so far. */
  lemma EdgeCounted(seen: seq<Edge>, e: Edge,
                    inDegree0: map<string, int>, adjacency0: map<string, seq<string>>,
                    inDegree: map<string, int>, adjacency: map<string, seq<string>>)
    requires e.source in adjacency0 && inDegree0.Keys == adjacency0.Keys
    requires forall v :: v in inDegree0 ==>
      inDegree0[v] == |Sources(seen, v)| && adjacency0[v] == Targets(seen, v)
    requires adjacency == adjacency0[e.source := adjacency0[e.source] + [e.target]]
    requires inDegree == if e.target in inDegree0 then inDegree0[e.target := inDegree0[e.target] + 1] else inDegree0
    ensures inDegree.Keys == inDegree0.Keys && adjacency.Keys == adjacency0.Keys
    ensures forall v :: v in inDegree ==>
      inDegree[v] == |Sources(seen + [e], v)| && adjacency[v] == Targets(seen + [e], v)
  {
    forall v | v in inDegree
      ensures inDegree[v] == |Sources(seen + [e], v)| && adjacency[v] == Targets(seen + [e], v)
    {
      SourcesSnoc(seen, e, v);
      TargetsSnoc(seen, e, v);
    }
  }

  /** Building the graph (executor.js:22-25): every edge appends its target
      to the adjacency list of its source and counts towards the in-degree of
      its target. A target that is not a node gets no in-degree entry (in
      the source it becomes `NaN`, which never reaches zero). */
  method CountEdges(ghost ids: set<string>, edges: seq<Edge>,
                    inDegree0: map<string, int>, adjacency0: map<string, seq<string>>)
    returns (inDegree: map<string, int>, adjacency: map<string, seq<string>>)
    requires forall e :: e in edges ==> e.source in ids
    requires inDegree0.Keys == ids && adjacency0.Keys == ids
    requires forall v :: v in inDegree0 ==> inDegree0[v] == 0 && adjacency0[v] == []
    ensures inDegree.Keys == ids && adjacency.Keys == ids
    ensures forall v :: v in inDegree ==> inDegree[v] == |Sources(edges, v)| && adjacency[v] == Targets(edges, v)
  {
    inDegree, adjacency := inDegree0, adjacency0;
    var j := 0;
    while j < |edges|
      invariant 0 <= j <= |edges|
      invariant inDegree.Keys == ids && adjacency.Keys == ids
      invariant forall v :: v in inDegree ==>
        inDegree[v] == |Sources(edges[..j], v)| && adjacency[v] == Targets(edges[..j], v)
    {
      var e := edges[j];
      ghost var inDegree1, adjacency1 := inDegree, adjacency;
      adjacency := adjacency[e.source := adjacency[e.source] + [e.target]];
      if e.target in inDegree {
        inDegree := inDegree[e.target := inDegree[e.target] + 1];
      }
      EdgeCounted(edges[..j], e, inDegree1, adjacency1, inDegree, adjacency);
      TakeSnoc(edges, j);
      j := j + 1;
    }
    assert edges[..j] == edges;
  }

  /** Seeding the queue (executor.js:28-33): the nodes of in-degree zero, in
      declaration order. */
  method SeedQueue(nodes: seq<Node>, ghost edges: seq<Edge>, inDegree: map<string, int>)
    returns (queue: seq<string>)
    requires inDegree.Keys == NodeIds(nodes)
    requires forall v :: v in inDegree ==> inDegree[v] == |Sources(edges, v)|
    ensures queue == Roots(nodes, edges)
  {
    queue := [];
    var i := 0;
    while i < |nodes|
      invariant 0 <= i <= |nodes|
      invariant queue == Roots(nodes[..i], edges)
    {
      assert nodes[..i + 1][..i] == nodes[..i];
      assert nodes[i].id in NodeIds(nodes);
      if inDegree[nodes[i].id] == 0 {
        queue := queue + [nodes[i].id];
      }
      i := i + 1;
    }
    assert nodes[..i] == nodes;
  }

  /** Before anything is dequeued the Kahn state holds. */
  lemma InitialState(nodes: seq<Node>, edges: seq<Edge>, inDegree: map<string, int>)
    requires UniqueIds(nodes)
    requires inDegree.Keys == NodeIds(nodes)
    requires forall v :: v in inDegree ==> inDegree[v] == |Sources(edges, v)|
    ensures KahnState(NodeIds(nodes), Roots(nodes, edges), edges, inDegree, Roots(nodes, edges), [])
  {
    var queue := Roots(nodes, edges);
    assert Elems<string>([]) == {};
    forall v | v in inDegree ensures inDegree[v] == Outside(Sources(edges, v), {}) {
      OutsideNothingDone(Sources(edges, v));
    }
    RootsDistinct(nodes, edges);
    assert [] + queue == queue;
  }

  /** The main loop (executor.js:35-47): dequeue from the front, emit, and
      release the successors. */
  method Drain(ghost ids: set<string>, ghost roots: seq<string>, ghost nodes: seq<Node>, ghost edges: seq<Edge>,
               nodeMap: map<string, Node>,
               adjacency: map<string, seq<string>>, inDegree0: map<string, int>, queue0: seq<string>)
    returns (sorted: seq<Node>, ghost order: seq<string>, ghost inDegree: map<string, int>)
    requires KahnState(ids, roots, edges, inDegree0, queue0, [])
    requires adjacency.Keys == ids
    requires forall v :: v in adjacency ==> adjacency[v] == Targets(edges, v)
    requires nodeMap.Keys == ids
    requires forall v :: v in nodeMap ==> nodeMap[v] in nodes && nodeMap[v].id == v
    ensures KahnState(ids, roots, edges, inDegree, [], order)
    ensures Ids(sorted) == order
    ensures forall n :: n in sorted ==> n in nodes
  {
    sorted, order := [], [];
    var degrees, queue := inDegree0, queue0;
    while |queue| > 0
      invariant KahnState(ids, roots, edges, degrees, queue, order)
      invariant Ids(sorted) == order
      invariant forall n :: n in sorted ==> n in nodes
      decreases ids - Elems(order)
    {
      var u := queue[0];
      assert [u] + queue[1..] == queue;
      HeadFacts(ids, roots, edges, degrees, u, queue[1..], order);
      IdsSnoc(sorted, nodeMap[u]);
      sorted := sorted + [nodeMap[u]];
      degrees, queue := ReleaseSuccessors(ids, roots, edges, u, adjacency[u], degrees, queue[1..], order);
      ElemsSnoc(order, u);
      order := order + [u];
    }
    inDegree := degrees;
  }

  /** What the emitted order is, once the queue is empty: exactly the nodes
      not reachable from a cycle, each after its sources. */
  lemma FinalState(ids: set<string>, roots: seq<string>, edges: seq<Edge>, inDegree: map<string, int>,
                    order: seq<string>)
    requires forall e :: e in edges ==> e.source in ids
    requires KahnState(ids, roots, edges, inDegree, [], order)
    ensures Distinct(order) && PredecessorsFirst(edges, order)
    ensures forall v :: v in ids ==> (v in order <==> !ReachableFromCycle(edges, v))
    ensures IsPrefix(roots, order)
  {
    assert order + [] == order;
    forall v | v in ids
      ensures v in order <==> !ReachableFromCycle(edges, v)
    {
      if v in order {
        PredecessorsFirstExcludesCycles(edges, order, v);
      } else {
        var U := ids - Elems(order);
        forall w | w in U ensures HasPredecessorIn(edges, U, w) {
          OutsideNone(Sources(edges, w), Elems(order));
          var x :| x in Sources(edges, w) && x !in Elems(order);
          assert Edge(x, w) in edges;
        }
        StuckNodesReachableFromCycle(edges, U, v);
      }
    }
  }

  /** Without a cycle, every declared node is emitted. */
  lemma AcyclicAllSorted(nodes: seq<Node>, edges: seq<Edge>, sorted: seq<Node>)
    requires UniqueIds(nodes) && Acyclic(edges)
    requires forall n :: n in sorted ==> n in nodes
    requires forall v :: v in NodeIds(nodes) ==> (v in Ids(sorted) <==> !ReachableFromCycle(edges, v))
    ensures forall n :: n in nodes ==> n in sorted
  {
    forall n | n in nodes ensures n in sorted {
      AcyclicNoCycleNodes(edges, n.id);
      assert n.id in Ids(sorted);
      var k :| 0 <= k < |sorted| && Ids(sorted)[k] == n.id;
      SameIdSameNode(nodes, sorted[k], n);
    }
  }

  /** `topologicalSort(nodes, edges)` (executor.js:10-50). The source needs
      every edge's source to be a declared node (otherwise
      `adjacencyList.get(edge.source)` is undefined and it throws) and the
      node ids to be unique (the maps are keyed by id). */
  method TopologicalSort(nodes: seq<Node>, edges: seq<Edge>) returns (sorted: seq<Node>)
    requires UniqueIds(nodes)
    requires forall e :: e in edges ==> e.source in NodeIds(nodes)
    ensures forall n :: n in sorted ==> n in nodes
    ensures Distinct(Ids(sorted))
    ensures PredecessorsFirst(edges, Ids(sorted))
    ensures forall i, j :: 0 <= i < |sorted| && 0 <= j < |sorted| && Edge(sorted[i].id, sorted[j].id) in edges ==> i < j
    ensures forall v :: v in NodeIds(nodes) ==> (v in Ids(sorted) <==> !ReachableFromCycle(edges, v))
    ensures Acyclic(edges) ==> forall n :: n in nodes ==> n in sorted
    ensures IsPrefix(Roots(nodes, edges), Ids(sorted))
  {
    var nodeMap, inDegree, adjacency := InitMaps(nodes);
    inDegree, adjacency := CountEdges(NodeIds(nodes), edges, inDegree, adjacency);
    var queue := SeedQueue(nodes, edges, inDegree);
    InitialState(nodes, edges, inDegree);
    ghost var order, finalDegrees;
    sorted, order, finalDegrees := Drain(NodeIds(nodes), Roots(nodes, edges), nodes, edges,
                                         nodeMap, adjacency, inDegree, queue);
    FinalState(NodeIds(nodes), Roots(nodes, edges), edges, finalDegrees, order);
    PredecessorsFirstOrders(edges, order);
    if Acyclic(edges) {
      AcyclicAllSorted(nodes, edges, sorted);
    }
  }
}
