/** The editor's guard that keeps the workflow graph acyclic: a new
    connection `source -> target` is refused when `source` can already be
    reached from `target`, which a depth-first search over the current
    edges decides. */
module CycleGuard {
  import opened WorkflowGraph

  /** The adjacency lists the search walks: for each node with outgoing
      edges, its targets in edge order. */
  method BuildAdjacency(edges: seq<Edge>) returns (adjacency: map<string, seq<string>>)
    ensures forall u :: u in adjacency <==> Targets(edges, u) != []
    ensures forall u :: u in adjacency ==> adjacency[u] == Targets(edges, u)
  {
    adjacency := map[];
    var i := 0;
    while i < |edges|
      invariant 0 <= i <= |edges|
      invariant forall u :: u in adjacency <==> Targets(edges[..i], u) != []
      invariant forall u :: u in adjacency ==> adjacency[u] == Targets(edges[..i], u)
    {
      var e := edges[i];
      ghost var before := adjacency;
      if e.source !in adjacency {
        adjacency := adjacency[e.source := []];
      }
      adjacency := adjacency[e.source := adjacency[e.source] + [e.target]];
      TakeSnoc(edges, i);
      forall u ensures (u in adjacency <==> Targets(edges[..i + 1], u) != [])
        && (u in adjacency ==> adjacency[u] == Targets(edges[..i + 1], u))
      {
        TargetsSnoc(edges[..i], e, u);
        if u == e.source && u !in before {
          assert Targets(edges[..i], u) == [];
        }
      }
      i := i + 1;
    }
    assert edges[..|edges|] == edges;
  }

  /** The nodes the search can meet: its start and every edge target. */
  ghost function Vertices(edges: seq<Edge>, start: string): set<string> {
    {start} + set e | e in edges :: e.target
  }

  /** A walk that starts in a set closed under the edges stays in it. */
  lemma {:induction false} ClosedUnderEdges(edges: seq<Edge>, closed: set<string>, p: seq<string>)
    requires IsPath(edges, p) && p[0] in closed
    requires forall x, y :: x in closed && Edge(x, y) in edges ==> y in closed
    ensures p[|p| - 1] in closed
  {
    if |p| > 1 {
      var q := p[..|p| - 1];
      assert forall k :: 0 <= k < |q| ==> q[k] == p[k];
      assert IsPath(edges, q);
      ClosedUnderEdges(edges, closed, q);
      assert Edge(p[|p| - 2], p[|p| - 1]) in edges;
    }
  }

  /** The state of the search from `start` for `source`: every visited or
      stacked node is reachable from `start`, `source` has not been visited,
      `start` is visited or stacked, and every edge out of a visited node
      leads to a visited or stacked node. */
  ghost predicate Search(edges: seq<Edge>, start: string, source: string, visited: set<string>, stack: seq<string>) {
    && visited <= Vertices(edges, start)
    && (forall y :: y in stack ==> y in Vertices(edges, start) && Reaches(edges, start, y))
    && (forall x :: x in visited ==> Reaches(edges, start, x))
    && source !in visited
    && (start in visited || start in stack)
    && (forall x, y :: x in visited && Edge(x, y) in edges ==> y in visited || y in stack)
  }

  /** A popped node is reachable from the start and one the search can meet. */
  lemma SearchPopped(edges: seq<Edge>, start: string, source: string, visited: set<string>, stack: seq<string>, current: string)
    requires Search(edges, start, source, visited, stack + [current])
    ensures current in Vertices(edges, start) && Reaches(edges, start, current)
  {
    assert current in stack + [current];
  }

  /** Popping a node already visited. */
  lemma SearchSkip(edges: seq<Edge>, start: string, source: string, visited: set<string>, stack: seq<string>, current: string)
    requires Search(edges, start, source, visited, stack + [current]) && current in visited
    ensures Search(edges, start, source, visited, stack)
  {
    forall x, y | x in visited && Edge(x, y) in edges ensures y in visited || y in stack {
      assert y in visited || y in stack + [current];
    }
    assert start in visited || start in stack + [current];
  }

  /** Visiting a popped node other than `source` and pushing its targets. */
  lemma SearchExpand(edges: seq<Edge>, start: string, source: string, visited: set<string>, stack: seq<string>,
                     current: string, next: seq<string>)
    requires Search(edges, start, source, visited, stack + [current])
    requires current != source && next == Targets(edges, current)
    ensures Search(edges, start, source, visited + {current}, stack + next)
  {
    SearchPopped(edges, start, source, visited, stack, current);
    forall y | y in stack + next ensures y in Vertices(edges, start) && Reaches(edges, start, y) {
      if y in next {
        assert Edge(current, y) in edges;
        ReachesStep(edges, start, current, y);
      } else {
        assert y in stack + [current];
      }
    }
    forall x, y | x in visited + {current} && Edge(x, y) in edges
      ensures y in visited + {current} || y in stack + next
    {
      if x == current {
        assert y in next;
      } else {
        assert y in visited || y in stack + [current];
      }
    }
    assert start in visited || start in stack + [current];
  }

  /** A search with nothing left to pop has visited everything reachable
      from the start, so `source` is not reachable. */
  lemma SearchDone(edges: seq<Edge>, start: string, source: string, visited: set<string>)
    requires Search(edges, start, source, visited, [])
    ensures !Reaches(edges, start, source)
  {
    forall p | IsPath(edges, p) && p[0] == start ensures p[|p| - 1] != source {
      ClosedUnderEdges(edges, visited, p);
    }
  }

  /** `wouldCreateCycle(source, target, edges)`: a depth-first search from
      `target` that pops the most recently pushed node, skips visited ones
      and pushes a node's targets in edge order. It answers true exactly when
      `source` is reachable from `target`, that is, when the edge
      `source -> target` would close a cycle (a self-loop included). The
      search ends on every edge list, cyclic ones included: each node is
      expanded at most once, so `expansions` never exceeds the number of
      nodes it can meet. */
  method WouldCreateCycle(source: string, target: string, edges: seq<Edge>) returns (r: bool, ghost expansions: nat)
    ensures r <==> Reaches(edges, target, source)
    ensures expansions <= |Vertices(edges, target)|
  {
    var adjacency := BuildAdjacency(edges);
    ghost var all := Vertices(edges, target);
    var visited: set<string> := {};
    var stack := [target];
    expansions := 0;
    ReachesRefl(edges, target);
    while |stack| > 0
      invariant Search(edges, target, source, visited, stack)
      invariant expansions == |visited| <= |all|
      decreases |all - visited|, |stack|
    {
      var current := stack[|stack| - 1];
      ghost var stack0 := stack;
      stack := stack[..|stack| - 1];
      TakeSnoc(stack0, |stack0| - 1);
      assert stack0[..|stack0|] == stack0;
      SearchPopped(edges, target, source, visited, stack, current);
      if current == source {
        return true, expansions;
      }
      if current in visited {
        SearchSkip(edges, target, source, visited, stack, current);
        continue;
      }
      var next := if current in adjacency then adjacency[current] else [];
      assert next == Targets(edges, current);
      SearchExpand(edges, target, source, visited, stack, current, next);
      ghost var visited0 := visited;
      visited := visited + {current};
      expansions := expansions + 1;
      assert all - visited == (all - visited0) - {current};
      stack := stack + next;
    }
    SearchDone(edges, target, source, visited);
    return false, expansions;
  }

  // ---------------------------------------------------------------------
  // Accepting a connection

  /** React Flow's `addEdge`: the edge is appended unless it already exists. */
  function AddEdge(edges: seq<Edge>, e: Edge): (r: seq<Edge>)
    ensures e in r
    ensures forall x :: x in r <==> x in edges || x == e
  {
    if e in edges then edges else edges + [e]
  }

  /** Two reachabilities chain. */
  lemma {:induction false} ReachesTrans(edges: seq<Edge>, a: string, b: string, c: string)
    requires Reaches(edges, a, b) && Reaches(edges, b, c)
    ensures Reaches(edges, a, c)
  {
    var p :| IsPath(edges, p) && p[0] == a && p[|p| - 1] == b;
    var q :| IsPath(edges, q) && q[0] == b && q[|q| - 1] == c;
    var w := p + q[1..];
    assert forall k :: 0 <= k < |p| ==> w[k] == p[k];
    assert forall k :: |p| <= k < |w| ==> w[k] == q[k - |p| + 1];
    forall k | 0 <= k < |w| - 1 ensures Edge(w[k], w[k + 1]) in edges {
      if k < |p| - 1 {
        assert Edge(p[k], p[k + 1]) in edges;
      } else {
        var j := k - (|p| - 1);
        assert w[k] == q[j] && w[k + 1] == q[j + 1];
      }
    }
    assert IsPath(edges, w);
  }

  /** A walk in a larger edge list is a walk there too. */
  lemma ReachesMono(edges: seq<Edge>, more: seq<Edge>, a: string, b: string)
    requires forall e :: e in edges ==> e in more
    requires Reaches(edges, a, b)
    ensures Reaches(more, a, b)
  {
    var p :| IsPath(edges, p) && p[0] == a && p[|p| - 1] == b;
    assert IsPath(more, p);
  }

  /** A walk along `edges` plus the edge `s -> t` either avoids that edge
      or reaches `s` first and, after its last use, continues from `t`. */
  lemma {:induction false} SplitAtNewEdge(edges: seq<Edge>, s: string, t: string, p: seq<string>)
    requires IsPath(AddEdge(edges, Edge(s, t)), p)
    ensures Reaches(edges, p[0], p[|p| - 1])
      || (Reaches(edges, p[0], s) && Reaches(edges, t, p[|p| - 1]))
  {
    if |p| == 1 {
      ReachesRefl(edges, p[0]);
    } else {
      var n := |p| - 1;
      var q := p[..n];
      assert forall k :: 0 <= k < |q| ==> q[k] == p[k];
      assert IsPath(AddEdge(edges, Edge(s, t)), q);
      SplitAtNewEdge(edges, s, t, q);
      assert Edge(p[n - 1], p[n]) in AddEdge(edges, Edge(s, t));
      if Edge(p[n - 1], p[n]) in edges {
        if Reaches(edges, p[0], p[n - 1]) {
          ReachesStep(edges, p[0], p[n - 1], p[n]);
        } else {
          ReachesStep(edges, t, p[n - 1], p[n]);
        }
      } else {
        assert p[n - 1] == s && p[n] == t;
        ReachesRefl(edges, t);
      }
    }
  }

  /** Reachability once `s -> t` is added, in terms of the old edges. */
  lemma ReachesAfterAdd(edges: seq<Edge>, s: string, t: string, a: string, b: string)
    ensures Reaches(AddEdge(edges, Edge(s, t)), a, b) ==>
      Reaches(edges, a, b) || (Reaches(edges, a, s) && Reaches(edges, t, b))
  {
    if Reaches(AddEdge(edges, Edge(s, t)), a, b) {
      var p :| IsPath(AddEdge(edges, Edge(s, t)), p) && p[0] == a && p[|p| - 1] == b;
      SplitAtNewEdge(edges, s, t, p);
    }
  }

  /** A walk through an old edge `e` from `t` to `s`. */
  lemma ChainThrough(edges: seq<Edge>, e: Edge, s: string, t: string)
    requires e in edges
    ensures Reaches(edges, t, e.source) && Reaches(edges, e.target, s) ==> Reaches(edges, t, s)
  {
    if Reaches(edges, t, e.source) && Reaches(edges, e.target, s) {
      ReachesPrepend(edges, e.source, e.target, s);
      ReachesTrans(edges, t, e.source, s);
    }
  }

  /** An accepted connection keeps an acyclic graph acyclic. */
  lemma AcceptKeepsAcyclic(edges: seq<Edge>, s: string, t: string)
    requires Acyclic(edges) && !Reaches(edges, t, s)
    ensures Acyclic(AddEdge(edges, Edge(s, t)))
  {
    var more := AddEdge(edges, Edge(s, t));
    forall e | e in more ensures !Reaches(more, e.target, e.source) {
      ReachesAfterAdd(edges, s, t, e.target, e.source);
      if e != Edge(s, t) {
        ChainThrough(edges, e, s, t);
      }
    }
  }

  /** On an acyclic graph the guard refuses exactly the connections whose
      edge would make the graph cyclic. */
  lemma GuardExact(edges: seq<Edge>, s: string, t: string)
    requires Acyclic(edges)
    ensures Reaches(edges, t, s) <==> !Acyclic(AddEdge(edges, Edge(s, t)))
  {
    var more := AddEdge(edges, Edge(s, t));
    if Reaches(edges, t, s) {
      assert Edge(s, t) !in edges;
      ReachesMono(edges, more, t, s);
      assert Edge(s, t) in more;
    } else {
      AcceptKeepsAcyclic(edges, s, t);
    }
  }

  /** `handleConnect` in the editor together with the application's
      handler: a connection that would close a cycle leaves the edges as
      they are; any other is added with `addEdge`. The edge list therefore
      stays acyclic. */
  method HandleConnect(source: string, target: string, edges: seq<Edge>) returns (updated: seq<Edge>)
    ensures Reaches(edges, target, source) ==> updated == edges
    ensures !Reaches(edges, target, source) ==> updated == AddEdge(edges, Edge(source, target))
    ensures Acyclic(edges) ==> Acyclic(updated)
  {
    var cycle, _ := WouldCreateCycle(source, target, edges);
    if cycle {
      return edges;
    }
    if Acyclic(edges) {
      AcceptKeepsAcyclic(edges, source, target);
    }
    updated := AddEdge(edges, Edge(source, target));
  }
}
