/**
 * The adjacency table of one shard as a value, and the effect of each graph
 * operation on it.  The class GraphStore.Graph performs these operations in
 * place; every one of its methods is specified by one of the functions here.
 */
module GraphSpec {
  import opened Types

  /** Each vertex key maps to the set of its out-neighbours. */
  type Adjacency = map<Vertex, set<Vertex>>

  /** u has an outgoing edge to v (false when u is not a key). */
  predicate HasEdge(g: Adjacency, u: Vertex, v: Vertex) {
    u in g && v in g[u]
  }

  /** No dangling references: every neighbour is itself a key. */
  ghost predicate Closed(g: Adjacency) {
    forall u, v :: HasEdge(g, u, v) ==> v in g
  }

  /** Every consecutive pair of `vs` is an edge of `g`. */
  ghost predicate Chained(g: Adjacency, vs: seq<Vertex>) {
    forall i :: 0 <= i < |vs| - 1 ==> HasEdge(g, vs[i], vs[i + 1])
  }

  /** `add_vertex`: a new key with no neighbours; a present key is left alone. */
  function WithVertex(g: Adjacency, v: Vertex): (r: Adjacency)
    ensures r.Keys == g.Keys + {v}
    ensures v !in g ==> r[v] == {}
    ensures forall u :: u in g ==> r[u] == g[u]
    ensures forall a, b :: HasEdge(r, a, b) <==> HasEdge(g, a, b)
    ensures Closed(g) ==> Closed(r)
  {
    if v in g then g else g[v := {}]
  }

  /** `add_edge`: the strict insert, which adds u -> v only when both are keys. */
  function WithEdge(g: Adjacency, u: Vertex, v: Vertex): (r: Adjacency)
    ensures r.Keys == g.Keys
    ensures forall a, b :: HasEdge(r, a, b) <==> HasEdge(g, a, b) || (a == u && b == v && u in g && v in g)
    ensures Closed(g) ==> Closed(r)
  {
    if u in g && v in g then g[u := g[u] + {v}] else g
  }

  /** `remove_vertex`: drop the key and scrub it out of every remaining neighbour set. */
  function WithoutVertex(g: Adjacency, v: Vertex): (r: Adjacency)
    ensures r.Keys == g.Keys - {v}
    ensures v !in g ==> r == g
    ensures forall u :: u in r ==> r[u] == g[u] - {v} || v !in g
    ensures forall a, b :: HasEdge(r, a, b) <==> HasEdge(g, a, b) && (v !in g || (a != v && b != v))
    ensures Closed(g) ==> Closed(r)
  {
    if v in g then map u | u in g && u != v :: g[u] - {v} else g
  }

  /** `remove_edge`: when both are keys, discard v from u's set and then u from v's set. */
  function WithoutEdge(g: Adjacency, u: Vertex, v: Vertex): (r: Adjacency)
    ensures r.Keys == g.Keys
    ensures forall a, b :: HasEdge(r, a, b) <==>
      HasEdge(g, a, b) && !(u in g && v in g && ((a == u && b == v) || (a == v && b == u)))
    ensures Closed(g) ==> Closed(r)
  {
    if u in g && v in g then
      var g1 := g[u := g[u] - {v}];
      g1[v := g1[v] - {u}]
    else
      g
  }

  /** Every edge of the table as a pair. */
  ghost function EdgeSet(g: Adjacency): (es: set<Edge>)
    ensures forall u, v :: (u, v) in es <==> HasEdge(g, u, v)
  {
    set u, v | u in g && v in g[u] :: (u, v)
  }

  /**
   * Two tables with the same keys and the same edges are the same table
   * (the structural equality the tests intend).
   */
  lemma SameEdgesSameGraph(g1: Adjacency, g2: Adjacency)
    requires g1.Keys == g2.Keys
    requires forall a, b :: HasEdge(g1, a, b) <==> HasEdge(g2, a, b)
    ensures g1 == g2
  {
    forall a | a in g1
      ensures g1[a] == g2[a]
    {
      forall b ensures b in g1[a] <==> b in g2[a] {
        assert HasEdge(g1, a, b) <==> HasEdge(g2, a, b);
      }
    }
  }

  /** The table with vertex set V and edge set E (edges leaving V are ignored). */
  function Built(V: set<Vertex>, E: set<Edge>): (r: Adjacency)
    ensures r.Keys == V
    ensures forall a, b :: HasEdge(r, a, b) <==> a in V && (a, b) in E
  {
    map u | u in V :: set e | e in E && e.0 == u :: e.1
  }

  /** Add every vertex of `vs` in turn. */
  function AddAllVertices(g: Adjacency, vs: seq<Vertex>): Adjacency
    decreases |vs|
  {
    if vs == [] then g else AddAllVertices(WithVertex(g, vs[0]), vs[1..])
  }

  /** Add every edge of `es` in turn with the strict insert. */
  function AddAllEdges(g: Adjacency, es: seq<Edge>): Adjacency
    decreases |es|
  {
    if es == [] then g else AddAllEdges(WithEdge(g, es[0].0, es[0].1), es[1..])
  }

  /** Collecting the first element, then the rest of a sequence collects all of it. */
  lemma ElementsCons<T>(A: set<T>, s: seq<T>)
    requires |s| > 0
    ensures (A + {s[0]}) + (set x | x in s[1..]) == A + set x | x in s
  {
    assert s == [s[0]] + s[1..];
  }

  lemma {:induction false} AddAllVerticesBuilt(V: set<Vertex>, vs: seq<Vertex>)
    ensures AddAllVertices(Built(V, {}), vs) == Built(V + set v | v in vs, {})
    decreases |vs|
  {
    if vs != [] {
      SameEdgesSameGraph(WithVertex(Built(V, {}), vs[0]), Built(V + {vs[0]}, {}));
      AddAllVerticesBuilt(V + {vs[0]}, vs[1..]);
      ElementsCons(V, vs);
    } else {
      assert V + (set v | v in vs) == V;
    }
  }

  lemma {:induction false} AddAllEdgesBuilt(V: set<Vertex>, E: set<Edge>, es: seq<Edge>)
    requires forall i :: 0 <= i < |es| ==> es[i].0 in V && es[i].1 in V
    ensures AddAllEdges(Built(V, E), es) == Built(V, E + set e | e in es)
    decreases |es|
  {
    if es != [] {
      var (u, v) := es[0];
      assert es[0] == (u, v);
      SameEdgesSameGraph(WithEdge(Built(V, E), u, v), Built(V, E + {(u, v)}));
      AddAllEdgesBuilt(V, E + {es[0]}, es[1..]);
      assert AddAllEdges(Built(V, E), es) == AddAllEdges(Built(V, E + {es[0]}), es[1..]);
      ElementsCons(E, es);
    } else {
      assert E + (set e | e in es) == E;
    }
  }

  /**
   * Adding the vertices one by one to an empty graph and then the edges one by
   * one, as the tests do, yields exactly the table with those vertices and edges.
   */
  lemma BuildingStepByStep(vs: seq<Vertex>, es: seq<Edge>)
    requires forall i :: 0 <= i < |es| ==> es[i].0 in vs && es[i].1 in vs
    ensures AddAllEdges(AddAllVertices(map[], vs), es) == Built(set v | v in vs, set e | e in es)
  {
    assert Built({}, {}) == map[];
    AddAllVerticesBuilt({}, vs);
    assert {} + (set v | v in vs) == set v | v in vs;
    AddAllEdgesBuilt(set v | v in vs, {}, es);
    assert {} + (set e | e in es) == set e | e in es;
  }

  /** Removing edge u -> v from a built table leaves the table built without u -> v and v -> u. */
  lemma RemoveEdgeFromBuilt(V: set<Vertex>, E: set<Edge>, u: Vertex, v: Vertex)
    requires u in V && v in V
    ensures WithoutEdge(Built(V, E), u, v) == Built(V, E - {(u, v), (v, u)})
  {
    SameEdgesSameGraph(WithoutEdge(Built(V, E), u, v), Built(V, E - {(u, v), (v, u)}));
  }

  /** Removing vertex x from a built table leaves the table built without x and its edges. */
  lemma RemoveVertexFromBuilt(V: set<Vertex>, E: set<Edge>, x: Vertex)
    requires x in V
    ensures WithoutVertex(Built(V, E), x) == Built(V - {x}, set e | e in E && e.0 != x && e.1 != x)
  {
    SameEdgesSameGraph(WithoutVertex(Built(V, E), x), Built(V - {x}, set e | e in E && e.0 != x && e.1 != x));
  }
}
