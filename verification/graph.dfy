/** The undirected collaboration graph shared by the builder, the edge-list
    store and the path query: every author name maps to the set of its
    co-authors. A networkx `Graph` always keeps both directions of an edge and
    has a node for every endpoint; `Wf` states exactly that. */
module Graphs {

  type Graph = map<string, set<string>>

  /** `v` is a neighbour of `u` in `g`. */
  predicate Adjacent(g: Graph, u: string, v: string)
  {
    u in g && v in g[u]
  }

  /** Every neighbour is itself a node. */
  ghost predicate Closed(g: Graph)
  {
    forall u, v :: u in g && v in g[u] ==> v in g
  }

  /** Adjacency goes both ways. */
  ghost predicate Symmetric(g: Graph)
  {
    forall u, v :: Adjacent(g, u, v) ==> Adjacent(g, v, u)
  }

  /** The shape every networkx undirected graph has. */
  ghost predicate Wf(g: Graph)
  {
    Closed(g) && Symmetric(g)
  }

  /** No author is its own co-author. */
  ghost predicate Loopless(g: Graph)
  {
    forall u :: u in g ==> u !in g[u]
  }

  /** `G.add_node(u)`: a no-op when `u` is already a node. */
  function AddNode(g: Graph, u: string): (r: Graph)
    ensures r.Keys == g.Keys + {u}
    ensures forall x, y :: Adjacent(r, x, y) <==> Adjacent(g, x, y)
    ensures Wf(g) ==> Wf(r)
    ensures Loopless(g) ==> Loopless(r)
  {
    if u in g then g else g[u := {}]
  }

  /** `G.add_edge(u, v)`: creates missing endpoints and records both
      directions; `u == v` gives a self-loop, exactly as networkx does. */
  function AddEdge(g: Graph, u: string, v: string): (r: Graph)
    ensures r.Keys == g.Keys + {u, v}
    ensures forall x, y :: Adjacent(r, x, y) <==>
              Adjacent(g, x, y) || (x == u && y == v) || (x == v && y == u)
    ensures Wf(g) ==> Wf(r)
    ensures Loopless(g) && u != v ==> Loopless(r)
  {
    var g1 := g[u := (if u in g then g[u] else {}) + {v}];
    g1[v := (if v in g1 then g1[v] else {}) + {u}]
  }

  /** Adding an edge that is already there leaves the graph unchanged. */
  lemma AddEdgeExisting(g: Graph, u: string, v: string)
    requires Wf(g)
    requires Adjacent(g, u, v)
    ensures AddEdge(g, u, v) == g
  {
    SameGraph(AddEdge(g, u, v), g);
  }

  /** Two graphs with the same nodes and the same adjacency are equal. */
  lemma SameGraph(g1: Graph, g2: Graph)
    requires g1.Keys == g2.Keys
    requires forall x, y :: Adjacent(g1, x, y) <==> Adjacent(g2, x, y)
    ensures g1 == g2
  {
    forall x | x in g1
      ensures g1[x] == g2[x]
    {
      assert forall y :: y in g1[x] <==> Adjacent(g1, x, y);
    }
  }

  /** Every endpoint of a set of pairs. */
  ghost function Ends(pairs: set<(string, string)>): set<string>
  {
    (set p | p in pairs :: p.0) + (set p | p in pairs :: p.1)
  }

  /** The undirected graph spanned by a set of author pairs: a reference
      definition independent of the order edges were added in. */
  ghost function GraphOf(pairs: set<(string, string)>): (g: Graph)
    ensures g.Keys == Ends(pairs)
    ensures forall x, y :: Adjacent(g, x, y) <==> (x, y) in pairs || (y, x) in pairs
    ensures Wf(g)
  {
    map u | u in Ends(pairs) ::
      (set p | p in pairs && p.0 == u :: p.1) + (set p | p in pairs && p.1 == u :: p.0)
  }

  /** The graph with its isolated nodes removed: what an edge list keeps. */
  ghost function DropIsolated(g: Graph): (r: Graph)
    ensures r.Keys == set u | u in g && g[u] != {}
    ensures forall x, y :: Adjacent(r, x, y) <==> Adjacent(g, x, y)
  {
    map u | u in g && g[u] != {} :: g[u]
  }
}
