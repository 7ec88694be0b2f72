/**
 * Breadth-first search over an adjacency map: a FIFO queue of paths and a set
 * of expanded vertices.  The returned path starts at `start`, ends at `end`,
 * follows edges, repeats no vertex and is as short as any path there is.
 */
module PathFinding {
  import opened Types
  import opened GraphSpec

  /** A non-empty vertex sequence whose consecutive pairs are edges of g. */
  ghost predicate IsWalk(g: Adjacency, w: seq<Vertex>) {
    |w| > 0 && Chained(g, w)
  }

  /** A walk from a to b. */
  ghost predicate IsPath(g: Adjacency, w: seq<Vertex>, a: Vertex, b: Vertex) {
    IsWalk(g, w) && w[0] == a && Last(w) == b
  }

  /** How a search ends: a path, an exhausted queue (`None`), or the `KeyError` of `graph[node]`. */
  datatype Search = Found(path: seq<Vertex>) | NoPath | Missing(key: Vertex)

  /** p is a path from a to b and no path from a to b is shorter. */
  ghost predicate Shortest(g: Adjacency, p: seq<Vertex>, a: Vertex, b: Vertex) {
    IsPath(g, p, a, b) && NoShorterThan(g, |p|, a, b)
  }

  /** Every path from a to b has at least n vertices. */
  ghost predicate NoShorterThan(g: Adjacency, n: int, a: Vertex, b: Vertex) {
    forall w :: IsPath(g, w, a, b) ==> n <= |w|
  }

  /**
   * What `bfs_shortest_path` promises.  A found path is a simple shortest path
   * from start to end.  An exhausted queue means every vertex reachable from
   * start is a key and end is not among them.  A `KeyError` names a vertex that
   * is not a key, is reached by a simple shortest path, and is no farther from
   * start than end is.
   */
  ghost predicate SearchSpec(g: Adjacency, start: Vertex, end: Vertex, r: Search) {
    match r
    case Found(p) =>
      Shortest(g, p, start, end) && Distinct(p)
    case NoPath =>
      forall w :: IsWalk(g, w) && w[0] == start ==> Last(w) != end && Last(w) in g
    case Missing(k) =>
      && k !in g
      && k != end
      && exists w :: Shortest(g, w, start, k) && Distinct(w) && NoShorterThan(g, |w|, start, end)
  }

  // ---------------------------------------------------------------------------
  // The search itself

  /** `bfs_shortest_path(graph, start, end)`. */
  method BfsShortestPath(g: Adjacency, start: Vertex, end: Vertex) returns (r: Search)
    ensures SearchSpec(g, start, end, r)
  {
    var queue: seq<seq<Vertex>> := [[start]];
    var visited: set<Vertex> := {};
    ghost var level: map<Vertex, nat> := map[];
    while queue != []
      invariant Inv(g, start, end, queue, visited, level)
      decreases g.Keys - visited, |queue|
    {
      ghost var before := queue;
      var path := queue[0];
      queue := queue[1..];
      var node := path[|path| - 1];
      if node == end {
        FoundIsShortest(g, start, end, before, visited, level);
        return Found(path);
      }
      if node !in visited {
        if node !in g {
          MissingIsFirst(g, start, end, before, visited, level);
          return Missing(node);
        }
        ghost var visitedBefore, levelBefore := visited, level;
        visited := visited + {node};
        level := level[node := |path|];
        queue := EnqueueNeighbors(queue, path, g[node], visited);
        VisitKeepsInv(g, start, end, before, visitedBefore, levelBefore, node, queue);
      } else {
        DropKeepsInv(g, start, end, before, visited, level);
      }
    }
    ExhaustedMeansUnreachable(g, start, end, visited, level);
    return NoPath;
  }

  /**
   * The inner `for neighbor in graph[node]` loop: append `path + [x]` for every
   * neighbour x that has not been visited, in whatever order the set yields them.
   */
  method EnqueueNeighbors(queue: seq<seq<Vertex>>, path: seq<Vertex>, neighbors: set<Vertex>, visited: set<Vertex>)
    returns (queue': seq<seq<Vertex>>)
    ensures |queue'| >= |queue| && queue'[..|queue|] == queue
    ensures forall k :: |queue| <= k < |queue'| ==> Extends(queue'[k], path, neighbors, visited)
    ensures forall x :: x in neighbors && x !in visited ==> path + [x] in queue'[|queue|..]
  {
    queue' := queue;
    var rest := neighbors;
    while rest != {}
      invariant rest <= neighbors
      invariant |queue'| >= |queue| && queue'[..|queue|] == queue
      invariant forall k :: |queue| <= k < |queue'| ==> Extends(queue'[k], path, neighbors, visited)
      invariant forall x :: x in neighbors - rest && x !in visited ==> path + [x] in queue'[|queue|..]
      decreases rest
    {
      var x :| x in rest;
      if x !in visited {
        ghost var prev := queue';
        queue' := queue' + [path + [x]];
        assert queue'[|queue|..] == prev[|queue|..] + [path + [x]];
      }
      rest := rest - {x};
    }
  }

  /** p is `path` extended by one unvisited neighbour. */
  ghost predicate Extends(p: seq<Vertex>, path: seq<Vertex>, neighbors: set<Vertex>, visited: set<Vertex>) {
    |p| == |path| + 1 && p[..|path|] == path && p[|path|] in neighbors && p[|path|] !in visited
  }

  /** `dijkstra_shortest_path`: the weights are dropped and BFS runs on the key sets. */
  method DijkstraShortestPath<W>(g: map<Vertex, map<Vertex, W>>, start: Vertex, end: Vertex) returns (r: Search)
    ensures SearchSpec(Unweighted(g), start, end, r)
  {
    r := BfsShortestPath(Unweighted(g), start, end);
  }

  /** `{k: set(v.keys()) for k, v in graph.items()}`. */
  function Unweighted<W>(g: map<Vertex, map<Vertex, W>>): (r: Adjacency)
    ensures r.Keys == g.Keys
    ensures forall u, v :: HasEdge(r, u, v) <==> u in g && v in g[u]
  {
    map k | k in g :: g[k].Keys
  }

  /** Two weightings with the same keys on every row give the same search problem. */
  lemma WeightsAreIgnored<W>(g1: map<Vertex, map<Vertex, W>>, g2: map<Vertex, map<Vertex, W>>)
    requires g1.Keys == g2.Keys
    requires forall k :: k in g1 ==> g1[k].Keys == g2[k].Keys
    ensures Unweighted(g1) == Unweighted(g2)
  {
    SameEdgesSameGraph(Unweighted(g1), Unweighted(g2));
  }

  // ---------------------------------------------------------------------------
  // Outcome facts

  /**
   * In a closed table, the search fails with `KeyError` exactly when start is
   * unknown and differs from end; otherwise it finds a path iff one exists.
   */
  lemma ClosedSearchOutcome(g: Adjacency, start: Vertex, end: Vertex, r: Search)
    requires Closed(g)
    requires SearchSpec(g, start, end, r)
    ensures r.Missing? <==> start !in g && start != end
    ensures r.Found? <==> exists w :: IsPath(g, w, start, end)
  {
    assert IsWalk(g, [start]);
    forall w | IsWalk(g, w) && w[0] == start && start !in g
      ensures |w| == 1
    {
      assert |w| > 1 ==> HasEdge(g, w[0], w[1]);
    }
    match r
    case Missing(k) =>
      var w :| Shortest(g, w, start, k) && Distinct(w) && NoShorterThan(g, |w|, start, end);
      ClosedWalkEndsAtKey(g, w);
    case NoPath =>
    case Found(p) =>
      assert |p| > 1 ==> HasEdge(g, p[0], p[1]);
  }

  /** In a closed table every walk of more than one vertex ends at a key. */
  lemma ClosedWalkEndsAtKey(g: Adjacency, w: seq<Vertex>)
    requires Closed(g) && IsWalk(g, w)
    ensures |w| > 1 ==> Last(w) in g
  {
    if |w| > 1 {
      assert HasEdge(g, w[|w| - 2], w[|w| - 1]);
    }
  }

  /** A single vertex is the path from it to itself, so `start == end` gives `[start]`. */
  lemma SameEndpointsGiveSingleton(g: Adjacency, v: Vertex, r: Search)
    requires SearchSpec(g, v, v, r)
    ensures r == Found([v])
  {
    assert IsPath(g, [v], v, v);
    match r
    case Found(p) =>
      assert |p| <= 1;
      assert p == [v];
    case NoPath =>
    case Missing(k) =>
      assert false;
  }

  // ---------------------------------------------------------------------------
  // The loop invariant and its preservation

  /** Some queued path ends at x and has at most `bound` vertices. */
  ghost predicate Pending(q: seq<seq<Vertex>>, x: Vertex, bound: int) {
    exists k :: 0 <= k < |q| && |q[k]| > 0 && Last(q[k]) == x && |q[k]| <= bound
  }

  /** A queued path: a simple walk from start whose vertices, all but the last, are visited. */
  ghost predicate PathOk(g: Adjacency, start: Vertex, p: seq<Vertex>, visited: set<Vertex>) {
    && IsWalk(g, p)
    && p[0] == start
    && Distinct(p)
    && forall j :: 0 <= j < |p| - 1 ==> p[j] in visited
  }

  /**
   * The neighbours of an expanded vertex are expanded no more than one step
   * after it, or queued with a path no more than one step longer.
   */
  ghost predicate Frontier(g: Adjacency, q: seq<seq<Vertex>>, visited: set<Vertex>, level: map<Vertex, nat>) {
    && level.Keys == visited
    && visited <= g.Keys
    && (forall u, x :: u in visited && x in g[u] && x !in visited ==> Pending(q, x, level[u] + 1))
    && (forall u, x :: u in visited && x in g[u] && x in visited ==> level[x] <= level[u] + 1)
  }

  /**
   * `level[u]` is the length of the path with which u was expanded.  The queue
   * is ordered by length and spans at most two lengths; the neighbours of an
   * expanded vertex are expanded or queued no more than one step later.
   */
  ghost predicate Inv(g: Adjacency, start: Vertex, end: Vertex, q: seq<seq<Vertex>>,
                      visited: set<Vertex>, level: map<Vertex, nat>)
  {
    && level.Keys == visited
    && visited <= g.Keys
    && end !in visited
    && (forall k :: 0 <= k < |q| ==> PathOk(g, start, q[k], visited))
    && (forall i, j :: 0 <= i <= j < |q| ==> |q[i]| <= |q[j]| <= |q[i]| + 1)
    && (q != [] ==> forall u :: u in visited ==> level[u] <= |q[0]|)
    && Frontier(g, q, visited, level)
    && (visited == {} ==> q == [[start]])
    && (visited != {} ==> start in visited && level[start] == 1)
  }

  /**
   * Every walk from start ends at a vertex that was expanded with a path no
   * longer than the walk, or that is queued with such a path, or the walk is
   * longer than the head of the queue.
   */
  lemma {:induction false} Reach(g: Adjacency, start: Vertex, end: Vertex, q: seq<seq<Vertex>>,
                                 visited: set<Vertex>, level: map<Vertex, nat>, w: seq<Vertex>)
    requires Inv(g, start, end, q, visited, level)
    requires IsWalk(g, w) && w[0] == start
    ensures || (Last(w) in visited && level[Last(w)] <= |w|)
            || Pending(q, Last(w), |w|)
            || (q != [] && |w| > |q[0]|)
    decreases |w|
  {
    if |w| == 1 {
      if visited == {} {
        assert Last(q[0]) == start;
      }
    } else {
      var w' := w[..|w| - 1];
      assert IsWalk(g, w') by {
        forall i | 0 <= i < |w'| - 1 ensures HasEdge(g, w'[i], w'[i + 1]) {
          assert w'[i] == w[i] && w'[i + 1] == w[i + 1];
        }
      }
      Reach(g, start, end, q, visited, level, w');
      var y', y := Last(w'), Last(w);
      assert HasEdge(g, w[|w| - 2], w[|w| - 1]);
      if y' in visited && level[y'] <= |w'| {
        if y !in visited {
          var k :| 0 <= k < |q| && |q[k]| > 0 && Last(q[k]) == y && |q[k]| <= level[y'] + 1;
          assert Pending(q, y, |w|);
        }
      } else if Pending(q, y', |w'|) {
        var k :| 0 <= k < |q| && |q[k]| > 0 && Last(q[k]) == y' && |q[k]| <= |w'|;
        assert |q[0]| <= |q[k]|;
      }
    }
  }

  /** No walk from start to an unexpanded vertex is shorter than the head of the queue. */
  lemma HeadIsNoLonger(g: Adjacency, start: Vertex, end: Vertex, q: seq<seq<Vertex>>,
                       visited: set<Vertex>, level: map<Vertex, nat>, w: seq<Vertex>)
    requires Inv(g, start, end, q, visited, level)
    requires q != []
    requires IsWalk(g, w) && w[0] == start && Last(w) !in visited
    ensures |q[0]| <= |w|
  {
    Reach(g, start, end, q, visited, level, w);
    if Pending(q, Last(w), |w|) {
      var k :| 0 <= k < |q| && |q[k]| > 0 && Last(q[k]) == Last(w) && |q[k]| <= |w|;
      assert |q[0]| <= |q[k]|;
    }
  }

  /** When the head of the queue ends at end, it is a shortest simple path. */
  lemma FoundIsShortest(g: Adjacency, start: Vertex, end: Vertex, q: seq<seq<Vertex>>,
                        visited: set<Vertex>, level: map<Vertex, nat>)
    requires Inv(g, start, end, q, visited, level)
    requires q != [] && Last(q[0]) == end
    ensures SearchSpec(g, start, end, Found(q[0]))
  {
    assert PathOk(g, start, q[0], visited);
    forall w | IsPath(g, w, start, end)
      ensures |q[0]| <= |w|
    {
      HeadIsNoLonger(g, start, end, q, visited, level, w);
    }
  }

  /** When the head of the queue ends at an unexpanded vertex that is not a key, `graph[node]` fails there. */
  lemma MissingIsFirst(g: Adjacency, start: Vertex, end: Vertex, q: seq<seq<Vertex>>,
                       visited: set<Vertex>, level: map<Vertex, nat>)
    requires Inv(g, start, end, q, visited, level)
    requires q != [] && Last(q[0]) !in visited && Last(q[0]) !in g && Last(q[0]) != end
    ensures SearchSpec(g, start, end, Missing(Last(q[0])))
  {
    var p, k := q[0], Last(q[0]);
    assert PathOk(g, start, p, visited);
    forall w | IsPath(g, w, start, k)
      ensures |p| <= |w|
    {
      HeadIsNoLonger(g, start, end, q, visited, level, w);
    }
    forall w | IsPath(g, w, start, end)
      ensures |p| <= |w|
    {
      HeadIsNoLonger(g, start, end, q, visited, level, w);
    }
    assert Shortest(g, p, start, k);
  }

  /** An empty queue means every vertex reachable from start was expanded. */
  lemma ExhaustedMeansUnreachable(g: Adjacency, start: Vertex, end: Vertex,
                                  visited: set<Vertex>, level: map<Vertex, nat>)
    requires Inv(g, start, end, [], visited, level)
    ensures SearchSpec(g, start, end, NoPath)
  {
    forall w | IsWalk(g, w) && w[0] == start
      ensures Last(w) != end && Last(w) in g
    {
      Reach(g, start, end, [], visited, level, w);
    }
  }

  /** Dropping a head whose last vertex is already expanded keeps the invariant. */
  lemma DropKeepsInv(g: Adjacency, start: Vertex, end: Vertex, q: seq<seq<Vertex>>,
                     visited: set<Vertex>, level: map<Vertex, nat>)
    requires Inv(g, start, end, q, visited, level)
    requires q != [] && Last(q[0]) in visited
    ensures Inv(g, start, end, q[1..], visited, level)
  {
    var q' := q[1..];
    forall u, x | u in visited && x in g[u] && x !in visited
      ensures Pending(q', x, level[u] + 1)
    {
      var k :| 0 <= k < |q| && |q[k]| > 0 && Last(q[k]) == x && |q[k]| <= level[u] + 1;
      assert q'[k - 1] == q[k];
    }
    if q' != [] {
      assert |q[0]| <= |q[1]|;
    }
  }

  /** Expanding the head's last vertex and queueing its unvisited neighbours keeps the invariant. */
  lemma VisitKeepsInv(g: Adjacency, start: Vertex, end: Vertex, q: seq<seq<Vertex>>,
                      visited: set<Vertex>, level: map<Vertex, nat>, node: Vertex, q': seq<seq<Vertex>>)
    requires Inv(g, start, end, q, visited, level)
    requires q != [] && Last(q[0]) == node
    requires node !in visited && node in g && node != end
    requires |q'| >= |q| - 1 && q'[..|q| - 1] == q[1..]
    requires forall k :: |q| - 1 <= k < |q'| ==> Extends(q'[k], q[0], g[node], visited + {node})
    requires forall x :: x in g[node] && x !in visited + {node} ==> q[0] + [x] in q'[|q| - 1..]
    ensures Inv(g, start, end, q', visited + {node}, level[node := |q[0]|])
  {
    var p, L := q[0], |q[0]|;
    var V', level' := visited + {node}, level[node := L];
    VisitKeepsPaths(g, start, end, q, visited, level, node, q');
    VisitKeepsOrder(g, start, end, q, visited, level, node, q');
    VisitKeepsFrontier(g, start, end, q, visited, level, node, q');
  }

  lemma VisitKeepsPaths(g: Adjacency, start: Vertex, end: Vertex, q: seq<seq<Vertex>>,
                        visited: set<Vertex>, level: map<Vertex, nat>, node: Vertex, q': seq<seq<Vertex>>)
    requires Inv(g, start, end, q, visited, level)
    requires q != [] && Last(q[0]) == node
    requires node !in visited && node in g && node != end
    requires |q'| >= |q| - 1 && q'[..|q| - 1] == q[1..]
    requires forall k :: |q| - 1 <= k < |q'| ==> Extends(q'[k], q[0], g[node], visited + {node})
    ensures forall k :: 0 <= k < |q'| ==> PathOk(g, start, q'[k], visited + {node})
  {
    var p, V' := q[0], visited + {node};
    assert PathOk(g, start, p, visited);
    forall k | 0 <= k < |q'|
      ensures PathOk(g, start, q'[k], V')
    {
      if k < |q| - 1 {
        assert q'[k] == q[k + 1];
        assert PathOk(g, start, q[k + 1], visited);
      } else {
        var x := q'[k][|p|];
        assert q'[k] == p + [x];
        assert HasEdge(g, node, x);
        forall i | 0 <= i < |p| ensures p[i] in V' {
          if i < |p| - 1 {
            assert p[i] in visited;
          }
        }
        assert x !in p;
        assert Distinct(q'[k]) by {
          forall i, j | 0 <= i < j < |q'[k]| ensures q'[k][i] != q'[k][j] {
            if j < |p| {
              assert q'[k][i] == p[i] && q'[k][j] == p[j];
            } else {
              assert q'[k][i] == p[i];
            }
          }
        }
        assert Chained(g, q'[k]) by {
          forall i | 0 <= i < |q'[k]| - 1 ensures HasEdge(g, q'[k][i], q'[k][i + 1]) {
            if i < |p| - 1 {
              assert q'[k][i] == p[i] && q'[k][i + 1] == p[i + 1];
            }
          }
        }
      }
    }
  }

  lemma VisitKeepsOrder(g: Adjacency, start: Vertex, end: Vertex, q: seq<seq<Vertex>>,
                        visited: set<Vertex>, level: map<Vertex, nat>, node: Vertex, q': seq<seq<Vertex>>)
    requires Inv(g, start, end, q, visited, level)
    requires q != [] && Last(q[0]) == node
    requires node !in visited && node in g && node != end
    requires |q'| >= |q| - 1 && q'[..|q| - 1] == q[1..]
    requires forall k :: |q| - 1 <= k < |q'| ==> Extends(q'[k], q[0], g[node], visited + {node})
    ensures forall i, j :: 0 <= i <= j < |q'| ==> |q'[i]| <= |q'[j]| <= |q'[i]| + 1
    ensures q' != [] ==> forall u :: u in visited + {node} ==> level[node := |q[0]|][u] <= |q'[0]|
  {
    var L := |q[0]|;
    forall k | 0 <= k < |q'|
      ensures L <= |q'[k]| <= L + 1
    {
      if k < |q| - 1 {
        assert q'[k] == q[k + 1];
      }
    }
    forall i, j | 0 <= i <= j < |q'|
      ensures |q'[i]| <= |q'[j]| <= |q'[i]| + 1
    {
      if j < |q| - 1 {
        assert q'[i] == q[i + 1] && q'[j] == q[j + 1];
      } else if i >= |q| - 1 {
        assert |q'[i]| == L + 1 == |q'[j]|;
      }
    }
  }

  lemma VisitKeepsFrontier(g: Adjacency, start: Vertex, end: Vertex, q: seq<seq<Vertex>>,
                           visited: set<Vertex>, level: map<Vertex, nat>, node: Vertex, q': seq<seq<Vertex>>)
    requires Inv(g, start, end, q, visited, level)
    requires q != [] && Last(q[0]) == node
    requires node !in visited && node in g && node != end
    requires |q'| >= |q| - 1 && q'[..|q| - 1] == q[1..]
    requires forall x :: x in g[node] && x !in visited + {node} ==> q[0] + [x] in q'[|q| - 1..]
    ensures Frontier(g, q', visited + {node}, level[node := |q[0]|])
    ensures start in visited + {node} && level[node := |q[0]|][start] == 1
  {
    var p, L := q[0], |q[0]|;
    var V', level' := visited + {node}, level[node := L];
    forall u, x | u in V' && x in g[u] && x !in V'
      ensures Pending(q', x, level'[u] + 1)
    {
      if u == node {
        assert p + [x] in q'[|q| - 1..];
        var k :| |q| - 1 <= k < |q'| && q'[k] == p + [x];
        assert Last(q'[k]) == x;
      } else {
        var k :| 0 <= k < |q| && |q[k]| > 0 && Last(q[k]) == x && |q[k]| <= level[u] + 1;
        assert k != 0;
        assert q'[k - 1] == q[k];
      }
    }
    forall u, x | u in V' && x in g[u] && x in V'
      ensures level'[x] <= level'[u] + 1
    {
      if x == node && u != node {
        var k :| 0 <= k < |q| && |q[k]| > 0 && Last(q[k]) == x && |q[k]| <= level[u] + 1;
        assert |q[0]| <= |q[k]|;
      }
    }
    if visited == {} {
      assert p == [start];
    }
  }
}
