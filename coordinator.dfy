/** The workflow run: nodes are executed one at a time in topological order,
    each on the results of its upstream nodes, and every node ends up either
    with a result or with an error message, a failure never stopping the run. */
module Coordinator {
  import opened Wrappers
  import opened JsValues
  import opened WorkflowGraph
  import opened Scheduler
  import opened NodeExecutors

  /** The edge map of the run: for each node with incoming edges, the
      sources of those edges in edge order (one entry per edge). */
  method BuildEdgeMap(edges: seq<Edge>) returns (edgeMap: map<string, seq<string>>)
    ensures forall v :: v in edgeMap <==> Sources(edges, v) != []
    ensures forall v :: v in edgeMap ==> edgeMap[v] == Sources(edges, v)
  {
    edgeMap := map[];
    var i := 0;
    while i < |edges|
      invariant 0 <= i <= |edges|
      invariant forall v :: v in edgeMap <==> Sources(edges[..i], v) != []
      invariant forall v :: v in edgeMap ==> edgeMap[v] == Sources(edges[..i], v)
    {
      var e := edges[i];
      ghost var before := edgeMap;
      if e.target !in edgeMap {
        edgeMap := edgeMap[e.target := []];
      }
      edgeMap := edgeMap[e.target := edgeMap[e.target] + [e.source]];
      TakeSnoc(edges, i);
      forall v ensures (v in edgeMap <==> Sources(edges[..i + 1], v) != [])
        && (v in edgeMap ==> edgeMap[v] == Sources(edges[..i + 1], v))
      {
        SourcesSnoc(edges[..i], e, v);
        if v == e.target && v !in before {
          assert Sources(edges[..i], v) == [];
        }
      }
      i := i + 1;
    }
    assert edges[..|edges|] == edges;
  }

  /** `results.get(id)`: `undefined` for a node without a result. */
  function Lookup(results: map<string, Value>, id: string): (r: Value)
    ensures id in results ==> r == results[id]
    ensures id !in results ==> r == Undefined
  {
    if id in results then results[id] else Undefined
  }

  /** The inputs of a node: the result of each source, in source order. */
  function Inputs(results: map<string, Value>, sourceIds: seq<string>): (r: seq<Value>)
    ensures |r| == |sourceIds|
    ensures forall i :: 0 <= i < |sourceIds| ==> r[i] == Lookup(results, sourceIds[i])
  {
    seq(|sourceIds|, i requires 0 <= i < |sourceIds| => Lookup(results, sourceIds[i]))
  }

  /** A result stored for a node that is not a source leaves the inputs alone. */
  lemma InputsUnchanged(results: map<string, Value>, sourceIds: seq<string>, id: string, v: Value)
    requires id !in sourceIds
    ensures Inputs(results[id := v], sourceIds) == Inputs(results, sourceIds)
  {
    assert forall i :: 0 <= i < |sourceIds| ==> sourceIds[i] != id;
  }

  /** Inputs read only the results of the sources. */
  lemma InputsAgree(results: map<string, Value>, results': map<string, Value>, sourceIds: seq<string>)
    requires forall x :: x in sourceIds ==> Lookup(results', x) == Lookup(results, x)
    ensures Inputs(results', sourceIds) == Inputs(results, sourceIds)
  {
  }

  /** In a transform node run by the coordinator, `$id` is bound to the
      result of source `id` whenever that result is not `undefined`. */
  lemma TransformSeesSources(results: map<string, Value>, sourceIds: seq<string>, i: nat)
    requires i < |sourceIds| && sourceIds[i] in results && results[sourceIds[i]] != Undefined
    ensures "$" + sourceIds[i] in TransformContext(Inputs(results, sourceIds), sourceIds)
    ensures TransformContext(Inputs(results, sourceIds), sourceIds)["$" + sourceIds[i]] == results[sourceIds[i]]
  {
    TransformContextConsistent(Inputs(results, sourceIds), sourceIds, i);
  }

  /** Running a node on its inputs and source ids, as `executeNode` does. */
  function Run(host: Host): (Node, seq<Value>, seq<string>) -> Result<Value> {
    (n: Node, inputs: seq<Value>, sourceIds: seq<string>) => NodeOutcome(host, n, inputs, sourceIds)
  }

  /** The outcome of `n` has been stored: its result in `results` or its
      error message in `errors`, and nothing in the other map. The outcome
      is that of running `n` on the results of its sources. */
  ghost predicate Recorded(run: (Node, seq<Value>, seq<string>) -> Result<Value>, edges: seq<Edge>, n: Node,
                           results: map<string, Value>, errors: map<string, string>) {
    var outcome := run(n, Inputs(results, Sources(edges, n.id)), Sources(edges, n.id));
    match outcome
    case Ok(v) => n.id in results && results[n.id] == v && n.id !in errors
    case Err(m) => n.id in errors && errors[n.id] == m && n.id !in results
  }

  /** Storing the outcome of the node at position `i` of the order keeps the
      outcomes of the earlier nodes, which cannot depend on it. */
  lemma StoreKeeps(run: (Node, seq<Value>, seq<string>) -> Result<Value>, edges: seq<Edge>, sorted: seq<Node>, i: nat,
                   results: map<string, Value>, errors: map<string, string>,
                   results': map<string, Value>, errors': map<string, string>)
    requires i < |sorted| && Distinct(Ids(sorted)) && PredecessorsFirst(edges, Ids(sorted))
    requires forall k :: 0 <= k < i ==> Recorded(run, edges, sorted[k], results, errors)
    requires forall x :: x != sorted[i].id ==> (x in results' <==> x in results) && (x in errors' <==> x in errors)
    requires forall x :: x != sorted[i].id && x in results ==> results'[x] == results[x]
    requires forall x :: x != sorted[i].id && x in errors ==> errors'[x] == errors[x]
    ensures forall k :: 0 <= k < i ==> Recorded(run, edges, sorted[k], results', errors')
  {
    var id := sorted[i].id;
    forall k | 0 <= k < i ensures Recorded(run, edges, sorted[k], results', errors') {
      var n := sorted[k];
      assert Ids(sorted)[k] == n.id && Ids(sorted)[i] == id;
      assert n.id != id;
      assert id !in Sources(edges, n.id) by {
        forall j | 0 <= j < k ensures Ids(sorted)[..k][j] != id {
          assert Ids(sorted)[j] != Ids(sorted)[i];
        }
      }
      InputsAgree(results, results', Sources(edges, n.id));
    }
  }

  /** The node at position `i` has no source at position `i` or later. */
  lemma NotOwnSource(edges: seq<Edge>, sorted: seq<Node>, i: nat)
    requires i < |sorted| && Distinct(Ids(sorted)) && PredecessorsFirst(edges, Ids(sorted))
    ensures sorted[i].id !in Sources(edges, sorted[i].id)
  {
    assert Ids(sorted)[i] == sorted[i].id;
    forall j | 0 <= j < i ensures Ids(sorted)[..i][j] != sorted[i].id {
      assert Ids(sorted)[j] != Ids(sorted)[i];
    }
  }

  /** Storing the outcome of the node at position `i`, run on the results
      so far, records every node up to and including it. */
  lemma StoreStep(run: (Node, seq<Value>, seq<string>) -> Result<Value>, edges: seq<Edge>, sorted: seq<Node>, i: nat,
                  results0: map<string, Value>, errors0: map<string, string>,
                  results: map<string, Value>, errors: map<string, string>)
    requires i < |sorted| && Distinct(Ids(sorted)) && PredecessorsFirst(edges, Ids(sorted))
    requires results0.Keys !! errors0.Keys
    requires forall v :: v in results0 || v in errors0 <==> v in Ids(sorted)[..i]
    requires forall k :: 0 <= k < i ==> Recorded(run, edges, sorted[k], results0, errors0)
    requires var id := sorted[i].id;
      match run(sorted[i], Inputs(results0, Sources(edges, id)), Sources(edges, id))
      case Ok(v) => results == results0[id := v] && errors == errors0
      case Err(m) => results == results0 && errors == errors0[id := m]
    ensures results.Keys !! errors.Keys
    ensures forall v :: v in results || v in errors <==> v in Ids(sorted)[..i + 1]
    ensures forall k :: 0 <= k < i + 1 ==> Recorded(run, edges, sorted[k], results, errors)
  {
    var node := sorted[i];
    var sourceIds := Sources(edges, node.id);
    assert Ids(sorted)[i] == node.id;
    assert node.id !in results0 && node.id !in errors0 by {
      forall j | 0 <= j < i ensures Ids(sorted)[..i][j] != node.id {
        assert Ids(sorted)[j] != Ids(sorted)[i];
      }
    }
    StoreKeeps(run, edges, sorted, i, results0, errors0, results, errors);
    NotOwnSource(edges, sorted, i);
    var outcome := run(node, Inputs(results0, sourceIds), sourceIds);
    if outcome.Ok? {
      InputsUnchanged(results0, sourceIds, node.id, outcome.value);
    }
    TakeSnoc(Ids(sorted), i);
  }

  /** The loop of `execute`: runs the nodes of `sorted` one after another,
      each on the results stored so far, and stores each outcome. */
  method RunInOrder(host: Host, edges: seq<Edge>, sorted: seq<Node>, edgeMap: map<string, seq<string>>)
      returns (results: map<string, Value>, errors: map<string, string>)
    requires Distinct(Ids(sorted)) && PredecessorsFirst(edges, Ids(sorted))
    requires forall v :: v in edgeMap <==> Sources(edges, v) != []
    requires forall v :: v in edgeMap ==> edgeMap[v] == Sources(edges, v)
    ensures results.Keys !! errors.Keys
    ensures forall v :: v in results || v in errors <==> v in Ids(sorted)
    ensures forall k :: 0 <= k < |sorted| ==> Recorded(Run(host), edges, sorted[k], results, errors)
  {
    results, errors := map[], map[];
    var i := 0;
    while i < |sorted|
      invariant 0 <= i <= |sorted|
      invariant results.Keys !! errors.Keys
      invariant forall v :: v in results || v in errors <==> v in Ids(sorted)[..i]
      invariant forall k :: 0 <= k < i ==> Recorded(Run(host), edges, sorted[k], results, errors)
    {
      var node := sorted[i];
      var sourceIds := if node.id in edgeMap then edgeMap[node.id] else [];
      assert sourceIds == Sources(edges, node.id);
      var outcome := ExecuteNode(host, node, Inputs(results, sourceIds), sourceIds);
      assert outcome == Run(host)(node, Inputs(results, sourceIds), sourceIds);
      ghost var results0, errors0 := results, errors;
      match outcome {
        case Ok(v) => results := results[node.id := v];
        case Err(m) => errors := errors[node.id := m];
      }
      StoreStep(Run(host), edges, sorted, i, results0, errors0, results, errors);
      i := i + 1;
    }
    assert Ids(sorted)[..|sorted|] == Ids(sorted);
  }

  /** `execute(nodes, edges)`: every node the scheduler emits (those not on
      or downstream of a cycle) is run once, in order, on the results of its
      sources (`undefined` for a source without a result); its result or its
      error message is stored and the run goes on. An acyclic workflow has
      every node run. */
  method Execute(host: Host, nodes: seq<Node>, edges: seq<Edge>)
      returns (results: map<string, Value>, errors: map<string, string>)
    requires UniqueIds(nodes)
    requires forall e :: e in edges ==> e.source in NodeIds(nodes)
    ensures results.Keys !! errors.Keys
    ensures forall v :: v in results || v in errors <==> v in NodeIds(nodes) && !ReachableFromCycle(edges, v)
    ensures forall n :: n in nodes && !ReachableFromCycle(edges, n.id) ==> Recorded(Run(host), edges, n, results, errors)
    ensures Acyclic(edges) ==> forall n :: n in nodes ==> Recorded(Run(host), edges, n, results, errors)
  {
    var sorted := TopologicalSort(nodes, edges);
    var edgeMap := BuildEdgeMap(edges);
    results, errors := RunInOrder(host, edges, sorted, edgeMap);
    RunCovers(Run(host), nodes, edges, sorted, results, errors);
  }

  /** The nodes `RunInOrder` records, in terms of the graph: exactly those
      not on or downstream of a cycle, which is every node of an acyclic
      graph. */
  lemma RunCovers(run: (Node, seq<Value>, seq<string>) -> Result<Value>, nodes: seq<Node>, edges: seq<Edge>, sorted: seq<Node>,
                  results: map<string, Value>, errors: map<string, string>)
    requires UniqueIds(nodes)
    requires forall n :: n in sorted ==> n in nodes
    requires forall v :: v in NodeIds(nodes) ==> (v in Ids(sorted) <==> !ReachableFromCycle(edges, v))
    requires forall v :: v in results || v in errors <==> v in Ids(sorted)
    requires forall k :: 0 <= k < |sorted| ==> Recorded(run, edges, sorted[k], results, errors)
    ensures forall v :: v in results || v in errors <==> v in NodeIds(nodes) && !ReachableFromCycle(edges, v)
    ensures forall n :: n in nodes && !ReachableFromCycle(edges, n.id) ==> Recorded(run, edges, n, results, errors)
    ensures Acyclic(edges) ==> forall n :: n in nodes ==> Recorded(run, edges, n, results, errors)
  {
    forall v | v in Ids(sorted) ensures v in NodeIds(nodes) {
      var k :| 0 <= k < |sorted| && Ids(sorted)[k] == v;
      assert sorted[k] in nodes;
    }
    forall n | n in nodes && !ReachableFromCycle(edges, n.id) ensures Recorded(run, edges, n, results, errors) {
      assert n.id in NodeIds(nodes);
      var k :| 0 <= k < |sorted| && Ids(sorted)[k] == n.id;
      SameIdSameNode(nodes, n, sorted[k]);
    }
    if Acyclic(edges) {
      forall n | n in nodes ensures !ReachableFromCycle(edges, n.id) {
        AcyclicNoCycleNodes(edges, n.id);
      }
    }
  }
}
