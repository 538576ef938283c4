/** The workflow graph: nodes, directed edges between node ids, and the
    notions of path, reachability and cycle that the scheduler and the
    editor's cycle guard are stated in. */
module WorkflowGraph {
  import opened JsValues

  /** A workflow node: its id, its `type` (`httpNode`, `transformNode`,
      `filterNode`, ...) and its configuration object `data`. */
  datatype Node = Node(id: string, kind: string, data: map<string, Value>)

  /** A dependency edge: the output of `source` feeds an input of `target`. */
  datatype Edge = Edge(source: string, target: string)

  /** The ids of `nodes`, in declaration order. */
  function Ids(nodes: seq<Node>): (r: seq<string>)
    ensures |r| == |nodes|
    ensures forall i :: 0 <= i < |nodes| ==> r[i] == nodes[i].id
  {
    seq(|nodes|, i requires 0 <= i < |nodes| => nodes[i].id)
  }

  lemma IdsSnoc(nodes: seq<Node>, n: Node)
    ensures Ids(nodes + [n]) == Ids(nodes) + [n.id]
  {
  }

  /** The set of declared node ids. */
  ghost function NodeIds(nodes: seq<Node>): set<string> {
    set n | n in nodes :: n.id
  }

  lemma NodeIdsSnoc(nodes: seq<Node>, n: Node)
    ensures NodeIds(nodes + [n]) == NodeIds(nodes) + {n.id}
  {
    forall v | v in NodeIds(nodes + [n]) ensures v in NodeIds(nodes) + {n.id} {
      var m :| m in nodes + [n] && m.id == v;
      if m != n {
        assert m in nodes;
      }
    }
  }

  /** No two declared nodes share an id. */
  ghost predicate UniqueIds(nodes: seq<Node>) {
    forall i, j :: 0 <= i < j < |nodes| ==> nodes[i].id != nodes[j].id
  }

  /** No element occurs twice. */
  ghost predicate Distinct<T>(s: seq<T>) {
    forall i, j :: 0 <= i < j < |s| ==> s[i] != s[j]
  }

  /** The elements of a sequence, as a set. */
  ghost function Elems<T>(s: seq<T>): set<T> {
    set x | x in s
  }

  lemma ElemsSnoc<T>(s: seq<T>, x: T)
    ensures Elems(s + [x]) == Elems(s) + {x}
  {
  }

  /** Taking one more element of a sequence appends that element. */
  lemma TakeSnoc<T>(s: seq<T>, k: nat)
    requires k < |s|
    ensures s[..k + 1] == s[..k] + [s[k]]
  {
  }

  /** `b` starts with `a`. */
  ghost predicate IsPrefix<T>(a: seq<T>, b: seq<T>) {
    |a| <= |b| && b[..|a|] == a
  }

  /** With unique ids, a node is determined by its id. */
  lemma SameIdSameNode(nodes: seq<Node>, a: Node, b: Node)
    requires UniqueIds(nodes) && a in nodes && b in nodes && a.id == b.id
    ensures a == b
  {
    var i :| 0 <= i < |nodes| && nodes[i] == a;
    var j :| 0 <= j < |nodes| && nodes[j] == b;
    assert !(i < j) && !(j < i);
  }

  // ---------------------------------------------------------------------
  // Incoming and outgoing edges, in edge-enumeration order

  /** The sources of the edges that target `v`, one entry per edge (parallel
      edges included), in edge order. */
  function Sources(edges: seq<Edge>, v: string): (r: seq<string>)
    ensures forall x {:trigger x in r} :: x in r <==> Edge(x, v) in edges
  {
    if |edges| == 0 then []
    else
      var e := edges[|edges| - 1];
      assert edges == edges[..|edges| - 1] + [e];
      Sources(edges[..|edges| - 1], v) + (if e.target == v then [e.source] else [])
  }

  /** The targets of the edges that leave `u`, one entry per edge (parallel
      edges included), in edge order. */
  function Targets(edges: seq<Edge>, u: string): (r: seq<string>)
    ensures forall y {:trigger y in r} :: y in r <==> Edge(u, y) in edges
  {
    if |edges| == 0 then []
    else
      var e := edges[|edges| - 1];
      assert edges == edges[..|edges| - 1] + [e];
      Targets(edges[..|edges| - 1], u) + (if e.source == u then [e.target] else [])
  }

  lemma SourcesSnoc(edges: seq<Edge>, e: Edge, v: string)
    ensures Sources(edges + [e], v) == Sources(edges, v) + (if e.target == v then [e.source] else [])
  {
    assert (edges + [e])[..|edges|] == edges;
  }

  lemma TargetsSnoc(edges: seq<Edge>, e: Edge, u: string)
    ensures Targets(edges + [e], u) == Targets(edges, u) + (if e.source == u then [e.target] else [])
  {
    assert (edges + [e])[..|edges|] == edges;
  }

  /** Both lists count the edges `u -> w`: `w` occurs among the targets of `u`
      exactly as often as `u` occurs among the sources of `w`. */
  lemma {:induction false} SourcesTargetsCount(edges: seq<Edge>, u: string, w: string)
    ensures multiset(Sources(edges, w))[u] == multiset(Targets(edges, u))[w]
  {
    if |edges| > 0 {
      SourcesTargetsCount(edges[..|edges| - 1], u, w);
    }
  }

  // ---------------------------------------------------------------------
  // Paths, reachability and cycles

  /** `p` is a walk of at least one node along `edges`. */
  ghost predicate IsPath(edges: seq<Edge>, p: seq<string>) {
    |p| >= 1 && forall k :: 0 <= k < |p| - 1 ==> Edge(p[k], p[k + 1]) in edges
  }

  /** `b` can be reached from `a` along zero or more edges. */
  ghost predicate Reaches(edges: seq<Edge>, a: string, b: string) {
    exists p :: IsPath(edges, p) && p[0] == a && p[|p| - 1] == b
  }

  /** No edge `s -> t` can be followed back from `t` to `s`: the graph has no cycle. */
  ghost predicate Acyclic(edges: seq<Edge>) {
    forall e :: e in edges ==> !Reaches(edges, e.target, e.source)
  }

  /** `c` lies on a cycle: it has an edge to a node that leads back to it. */
  ghost predicate OnCycle(edges: seq<Edge>, c: string) {
    exists e :: e in edges && e.source == c && Reaches(edges, e.target, c)
  }

  /** `v` lies on a cycle or downstream of one. */
  ghost predicate ReachableFromCycle(edges: seq<Edge>, v: string) {
    exists c :: OnCycle(edges, c) && Reaches(edges, c, v)
  }

  lemma ReachesRefl(edges: seq<Edge>, a: string)
    ensures Reaches(edges, a, a)
  {
    assert IsPath(edges, [a]);
  }

  /** Extending a path by one edge at its end. */
  lemma ReachesStep(edges: seq<Edge>, a: string, b: string, c: string)
    requires Reaches(edges, a, b) && Edge(b, c) in edges
    ensures Reaches(edges, a, c)
  {
    var p :| IsPath(edges, p) && p[0] == a && p[|p| - 1] == b;
    var q := p + [c];
    assert forall k :: 0 <= k < |p| ==> q[k] == p[k];
    assert IsPath(edges, q);
  }

  /** Extending a path by one edge at its start. */
  lemma ReachesPrepend(edges: seq<Edge>, a: string, b: string, c: string)
    requires Edge(a, b) in edges && Reaches(edges, b, c)
    ensures Reaches(edges, a, c)
  {
    var p :| IsPath(edges, p) && p[0] == b && p[|p| - 1] == c;
    var q := [a] + p;
    assert forall k :: 0 <= k < |p| ==> q[k + 1] == p[k];
    assert IsPath(edges, q);
  }

  /** A sub-walk of a walk is a walk. */
  lemma SubPath(edges: seq<Edge>, p: seq<string>, i: nat, j: nat)
    requires IsPath(edges, p) && i <= j < |p|
    ensures IsPath(edges, p[i..j + 1]) && Reaches(edges, p[i], p[j])
  {
    var q := p[i..j + 1];
    assert forall k :: 0 <= k < |q| ==> q[k] == p[i + k];
    assert IsPath(edges, q) && q[0] == p[i] && q[|q| - 1] == p[j];
  }

  /** An acyclic graph has no node on a cycle, and so none downstream of one. */
  lemma AcyclicNoCycleNodes(edges: seq<Edge>, v: string)
    requires Acyclic(edges)
    ensures !OnCycle(edges, v) && !ReachableFromCycle(edges, v)
  {
  }
}
