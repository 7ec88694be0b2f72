/**
 * The per-shard graph store: a dictionary from vertex to the set of its
 * neighbours, updated in place.  The lock that guards it is not modelled; the
 * operations are taken to run one at a time.
 */
module GraphStore {
  import opened Types
  import opened GraphSpec

  class Graph {
    /** The `_vertices` dictionary. */
    var adj: Adjacency

    /** `Graph()`: an empty table. */
    constructor ()
      ensures adj == map[]
    {
      adj := map[];
    }

    /** `Graph(shared_dict)`: a table that starts from the given contents. */
    constructor FromShared(shared: Adjacency)
      ensures adj == shared
    {
      adj := shared;
    }

    /** True iff v was absent; afterwards v is a key and no other entry has changed. */
    method AddVertex(v: Vertex) returns (added: bool)
      modifies this
      ensures added == (v !in old(adj))
      ensures adj == WithVertex(old(adj), v)
    {
      if v !in adj {
        adj := adj[v := {}];
        return true;
      }
      return false;
    }

    /** True iff both endpoints are keys; never creates a vertex. */
    method AddEdge(v1: Vertex, v2: Vertex) returns (added: bool)
      modifies this
      ensures added == (v1 in old(adj) && v2 in old(adj))
      ensures adj == WithEdge(old(adj), v1, v2)
    {
      if v1 in adj && v2 in adj {
        adj := adj[v1 := adj[v1] + {v2}];
        return true;
      }
      return false;
    }

    /** Deletes v's entry, then scrubs v out of every remaining neighbour set, one key at a time. */
    method RemoveVertex(v: Vertex) returns (removed: bool)
      modifies this
      ensures removed == (v in old(adj))
      ensures adj == WithoutVertex(old(adj), v)
    {
      if v !in adj {
        return false;
      }
      ghost var before := adj;
      adj := adj - {v};
      var pending := adj.Keys;
      while pending != {}
        invariant adj.Keys == before.Keys - {v}
        invariant pending <= adj.Keys
        invariant forall u :: u in adj ==> adj[u] == if u in pending then before[u] else before[u] - {v}
        decreases pending
      {
        var u :| u in pending;
        adj := adj[u := adj[u] - {v}];
        pending := pending - {u};
      }
      assert adj == WithoutVertex(before, v);
      return true;
    }

    /** When both are keys, discards v2 from v1's set and v1 from v2's set. */
    method RemoveEdge(v1: Vertex, v2: Vertex) returns (removed: bool)
      modifies this
      ensures removed == (v1 in old(adj) && v2 in old(adj))
      ensures adj == WithoutEdge(old(adj), v1, v2)
    {
      if v1 in adj && v2 in adj {
        adj := adj[v1 := adj[v1] - {v2}];
        adj := adj[v2 := adj[v2] - {v1}];
        return true;
      }
      return false;
    }

    method HasVertex(v: Vertex) returns (present: bool)
      ensures present <==> v in adj
    {
      return v in adj;
    }

    /** False whenever v1 is not a key, and otherwise whether v2 is among v1's neighbours. */
    method HasEdge(v1: Vertex, v2: Vertex) returns (present: bool)
      ensures present <==> GraphSpec.HasEdge(adj, v1, v2)
      ensures v1 !in adj ==> !present
    {
      return v1 in adj && v2 in adj[v1];
    }

    /** `None` exactly for an unknown vertex; otherwise its neighbour set. */
    method GetNeighbors(v: Vertex) returns (neighbors: Option<set<Vertex>>)
      ensures neighbors.None? <==> v !in adj
      ensures neighbors.Some? ==> forall w :: w in neighbors.value <==> GraphSpec.HasEdge(adj, v, w)
      ensures neighbors.Some? ==> neighbors.value == adj[v]
    {
      if v in adj {
        return Some(adj[v]);
      }
      return None;
    }

    method GetAllVertices() returns (vertices: set<Vertex>)
      ensures vertices == adj.Keys
    {
      return adj.Keys;
    }
  }
}
