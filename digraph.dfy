/**
 * The directed graph the translators keep their states and transitions in
 * (a `networkx.DiGraph`): nodes are named and carry one payload each, edges
 * are keyed by the ordered pair (origin, destination) and carry one payload
 * each, nodes and successors are kept in insertion order.
 */
module DiGraph {

  type Name = string

  datatype Graph<N, E> = Graph(
    nodes: seq<Name>,                 // insertion order
    data: map<Name, N>,               // node payloads
    succ: map<Name, seq<Name>>,       // successors of each node, in insertion order
    edges: map<(Name, Name), E>)      // edge payloads
  {
    /** The representation invariant of a graph built by AddNode and SetEdge. */
    ghost predicate Valid() {
      && Distinct(nodes)
      && (forall n :: n in data <==> n in nodes)
      && (forall n :: n in succ <==> n in nodes)
      && (forall n | n in succ :: Distinct(succ[n]))
      && (forall n, m | n in succ && m in succ[n] :: m in data)
      && (forall a, b :: (a, b) in edges <==> a in succ && b in succ[a])
    }

    predicate HasNode(n: Name) { n in data }

    predicate HasEdge(a: Name, b: Name) { (a, b) in edges }

    /** Successors of n in insertion order (`graph.neighbors(n)`). */
    function Neighbors(n: Name): seq<Name>
      requires n in succ
    {
      succ[n]
    }

    function OutDegree(n: Name): nat
      requires n in succ
    {
      |succ[n]|
    }

    /** Number of nodes m with an edge m -> n. */
    function InDegree(n: Name): nat
    {
      CountPredecessors(nodes, n)
    }

    function CountPredecessors(ms: seq<Name>, n: Name): (k: nat)
      ensures k <= |ms|
    {
      if ms == [] then 0
      else CountPredecessors(ms[..|ms| - 1], n) + (if (ms[|ms| - 1], n) in edges then 1 else 0)
    }

    /** `graph.add_node(n, data=payload)` guarded by `has_node`: nothing happens when n exists. */
    function AddNode(n: Name, payload: N): (g: Graph<N, E>)
      ensures n in g.data && g.data.Keys == data.Keys + {n} && g.edges == edges
      ensures forall m | m in data :: g.data[m] == data[m]
      ensures n in data ==> g == this
      ensures n !in data ==> g.nodes == nodes + [n] && g.data == data[n := payload]
                             && g.succ == succ[n := []] && g.edges == edges
    {
      if n in data then this
      else Graph(nodes + [n], data[n := payload], succ[n := []], edges)
    }

    /** `graph.add_edge(a, b, data=e)`: one edge per ordered pair, the last payload wins,
        a new successor goes last and an existing one keeps its place. */
    function SetEdge(a: Name, b: Name, e: E): (g: Graph<N, E>)
      ensures g.nodes == nodes && g.data == data && g.edges == edges[(a, b) := e]
      ensures (a, b) in edges ==> g.succ == succ
      ensures (a, b) !in edges ==> a in g.succ && g.succ[a] == (if a in succ then succ[a] else []) + [b]
      ensures forall n | n in succ && n != a :: n in g.succ && g.succ[n] == succ[n]
    {
      if (a, b) in edges then this.(edges := edges[(a, b) := e])
      else this.(succ := succ[a := (if a in succ then succ[a] else []) + [b]], edges := edges[(a, b) := e])
    }

    /** Replace the payload of an existing node. */
    function SetNodeData(n: Name, payload: N): (g: Graph<N, E>)
      requires n in data
    {
      this.(data := data[n := payload])
    }

    /** Replace the payload of an existing edge. */
    function SetEdgeData(a: Name, b: Name, e: E): (g: Graph<N, E>)
      requires (a, b) in edges
    {
      this.(edges := edges[(a, b) := e])
    }

    /** `list(graph.edges)`: node order, then successor order. */
    function EdgeList(): seq<(Name, Name)>
      requires forall n | n in nodes :: n in succ
    {
      EdgesOf(nodes)
    }

    function EdgesOf(ns: seq<Name>): seq<(Name, Name)>
      requires forall n | n in ns :: n in succ
    {
      if ns == [] then [] else OutEdges(ns[0], succ[ns[0]]) + EdgesOf(ns[1..])
    }

    /** Every consecutive pair of p is an edge. */
    ghost predicate IsWalk(p: seq<Name>) {
      forall i | 0 <= i < |p| - 1 :: (p[i], p[i + 1]) in edges
    }

    /** An elementary cycle as `networkx.simple_cycles` reports it: distinct nodes,
        each followed by an edge to the next, the last one back to the first. */
    ghost predicate IsElementaryCycle(c: seq<Name>) {
      && |c| >= 1
      && Distinct(c)
      && IsWalk(c)
      && (c[|c| - 1], c[0]) in edges
    }
  }

  /** A walk through the first k nodes of p extends by the edge to the next one. */
  lemma WalkExtend<N, E>(g: Graph<N, E>, p: seq<Name>, k: nat)
    requires 1 <= k < |p| && g.IsWalk(p[..k]) && (p[k - 1], p[k]) in g.edges
    ensures g.IsWalk(p[..k + 1])
  {
    var q := p[..k + 1];
    forall i | 0 <= i < |q| - 1 ensures (q[i], q[i + 1]) in g.edges {
      if i < k - 1 {
        assert q[i] == p[..k][i] && q[i + 1] == p[..k][i + 1];
      }
    }
  }

  /** A walk entered by an edge into its first node is still a walk. */
  lemma WalkCons<N, E>(g: Graph<N, E>, a: Name, p: seq<Name>)
    requires p != [] && g.IsWalk(p) && (a, p[0]) in g.edges
    ensures g.IsWalk([a] + p)
  {
    var q := [a] + p;
    forall j | 0 <= j < |q| - 1 ensures (q[j], q[j + 1]) in g.edges {
      if j > 0 {
        assert q[j] == p[j - 1] && q[j + 1] == p[j];
      }
    }
  }

  predicate Distinct<T(==)>(s: seq<T>) {
    forall i, j | 0 <= i < j < |s| :: s[i] != s[j]
  }

  function OutEdges(a: Name, bs: seq<Name>): (r: seq<(Name, Name)>)
    ensures |r| == |bs|
    ensures forall i | 0 <= i < |r| :: r[i] == (a, bs[i])
  {
    if bs == [] then [] else [(a, bs[0])] + OutEdges(a, bs[1..])
  }

  /** The empty graph (`nx.DiGraph()`). */
  function Empty<N, E>(): (g: Graph<N, E>)
    ensures g.Valid()
  {
    Graph([], map[], map[], map[])
  }

  /** add_state is idempotent and keeps the graph well formed. */
  lemma AddNodeValid<N, E>(g: Graph<N, E>, n: Name, payload: N)
    requires g.Valid()
    ensures g.AddNode(n, payload).Valid()
    ensures g.AddNode(n, payload).AddNode(n, payload) == g.AddNode(n, payload)
  {
    if n !in g.data {
      var h := Graph(g.nodes + [n], g.data[n := payload], g.succ[n := []], g.edges);
      assert h == g.AddNode(n, payload);
      AppendDistinct(g.nodes, n);
      assert forall m :: m in h.data <==> m in h.nodes;
      assert forall m :: m in h.succ <==> m in h.nodes;
      assert forall m | m in h.succ :: Distinct(h.succ[m]);
      forall m, k | m in h.succ && k in h.succ[m] ensures k in h.data {
        assert m != n && h.succ[m] == g.succ[m];
      }
      forall a, b ensures (a, b) in h.edges <==> a in h.succ && b in h.succ[a] {
        if a == n {
          assert a !in g.succ;
        } else if a in g.succ {
          assert h.succ[a] == g.succ[a];
        }
      }
    }
  }

  lemma AppendDistinct(ns: seq<Name>, n: Name)
    requires Distinct(ns) && n !in ns
    ensures Distinct(ns + [n])
  {
    var xs := ns + [n];
    forall i, j | 0 <= i < j < |xs| ensures xs[i] != xs[j] {
      if j == |xs| - 1 {
        assert xs[i] in ns;
      }
    }
  }

  /** add_transition keeps the graph well formed, stores exactly one edge for the pair,
      and changes neither the nodes nor any other edge; a new successor of a goes
      last and an existing one keeps its place. */
  lemma SetEdgeValid<N, E>(g: Graph<N, E>, a: Name, b: Name, e: E)
    requires g.Valid() && a in g.data && b in g.data
    ensures g.SetEdge(a, b, e).Valid()
    ensures g.SetEdge(a, b, e).edges == g.edges[(a, b) := e]
    ensures g.SetEdge(a, b, e).nodes == g.nodes && g.SetEdge(a, b, e).data == g.data
    ensures forall n | n in g.succ && n != a :: g.SetEdge(a, b, e).succ[n] == g.succ[n]
    ensures g.SetEdge(a, b, e).succ[a] == if b in g.succ[a] then g.succ[a] else g.succ[a] + [b]
  {
    var h := g.SetEdge(a, b, e);
    if (a, b) !in g.edges {
      assert a in g.succ && b !in g.succ[a];
      forall i, j | 0 <= i < j < |h.succ[a]| ensures h.succ[a][i] != h.succ[a][j] {
        if j == |h.succ[a]| - 1 {
          assert h.succ[a][i] in g.succ[a];
        }
      }
    }
  }

  /** Replacing a node's payload keeps the graph well formed. */
  lemma SetNodeDataValid<N, E>(g: Graph<N, E>, n: Name, payload: N)
    requires g.Valid() && n in g.data
    ensures g.SetNodeData(n, payload).Valid()
  {
    var h := g.SetNodeData(n, payload);
    assert forall m :: m in h.data <==> m in g.data;
  }

  /** Every edge of a well-formed graph is listed by EdgeList, and nothing else is. */
  lemma {:induction false} EdgesOfMembership<N, E>(g: Graph<N, E>, ns: seq<Name>, a: Name, b: Name)
    requires g.Valid()
    requires forall n | n in ns :: n in g.succ
    ensures (a, b) in g.EdgesOf(ns) <==> a in ns && (a, b) in g.edges
  {
    if ns != [] {
      EdgesOfMembership(g, ns[1..], a, b);
      var head := OutEdges(ns[0], g.succ[ns[0]]);
      assert (a, b) in head <==> a == ns[0] && b in g.succ[ns[0]] by {
        if (a, b) in head {
          var i :| 0 <= i < |head| && head[i] == (a, b);
          assert g.succ[ns[0]][i] == b;
        }
        if a == ns[0] && b in g.succ[ns[0]] {
          var i :| 0 <= i < |g.succ[ns[0]]| && g.succ[ns[0]][i] == b;
          assert head[i] == (a, b);
        }
      }
      assert a in ns <==> a == ns[0] || a in ns[1..];
    }
  }

  lemma EdgeListMembership<N, E>(g: Graph<N, E>, a: Name, b: Name)
    requires g.Valid()
    ensures (a, b) in g.EdgeList() <==> (a, b) in g.edges
  {
    EdgesOfMembership(g, g.nodes, a, b);
  }
}
