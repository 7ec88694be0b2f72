/**
 * The broker: it routes each vertex to a shard server by the sum of its
 * character codes, combines the answers of the owner shards, and dispatches
 * batches of commands.  A shard is a value here: its table, and whether its
 * server can be reached.  A call to a reachable shard runs the shard
 * servicer's own method on a servicer over that table; a call to an
 * unreachable one raises `grpc.RpcError` (`RpcError`).
 */
module Broker {
  import opened Types
  import GraphSpec
  import opened Operations
  import opened PathFinding
  import opened Server
  import DataLoader

  /** A shard server: its adjacency table, and whether its RPCs get through. */
  datatype Shard = Shard(table: Adjacency, up: bool)

  /** The placeholder vertex name the broker strips from neighbour sets. */
  const External: Vertex := "EXTERNAL"

  // ---------------------------------------------------------------------------
  // Routing

  /** `sum(ord(c) for c in str(vertex))`. */
  function CharSum(v: string): nat
    decreases |v|
  {
    if v == [] then 0 else CharSum(v[..|v| - 1]) + v[|v| - 1] as nat
  }

  /** The character sum of a concatenation is the sum of the two sums. */
  lemma {:induction false} CharSumConcat(a: string, b: string)
    ensures CharSum(a + b) == CharSum(a) + CharSum(b)
    decreases |b|
  {
    if b == [] {
      assert a + b == a;
    } else {
      var b' := b[..|b| - 1];
      CharSumConcat(a, b');
      assert (a + b)[..|a + b| - 1] == a + b';
      assert (a + b)[|a + b| - 1] == b[|b| - 1];
    }
  }

  /** Taking out the character at k lowers the sum by its code and the multiset by one copy of it. */
  lemma CharSumRemove(b: string, k: nat)
    requires k < |b|
    ensures CharSum(b) == CharSum(b[..k] + b[k + 1..]) + b[k] as nat
    ensures multiset(b) == multiset(b[..k] + b[k + 1..]) + multiset{b[k]}
  {
    var p, c, q := b[..k], b[k], b[k + 1..];
    assert b == b[..k + 1] + q;
    assert b[..k + 1] == p + [c];
    assert (p + [c])[..k] == p;
    CharSumConcat(b[..k + 1], q);
    CharSumConcat(p, q);
  }

  /** Strings with the same letters, in any order, have the same character sum. */
  lemma {:induction false} CharSumAnagram(a: string, b: string)
    requires multiset(a) == multiset(b)
    ensures CharSum(a) == CharSum(b)
    decreases |a|
  {
    if a == [] {
      assert |b| == |multiset(b)| == 0;
    } else {
      var n := |a| - 1;
      var c := a[n];
      assert a == a[..n] + [c];
      assert multiset(a) == multiset(a[..n]) + multiset{c};
      assert c in multiset(b);
      var k :| 0 <= k < |b| && b[k] == c;
      CharSumRemove(b, k);
      var ma, mb := multiset(a[..n]), multiset(b[..k] + b[k + 1..]);
      forall x ensures ma[x] == mb[x] {
        assert (ma + multiset{c})[x] == (mb + multiset{c})[x];
      }
      assert ma == mb;
      CharSumAnagram(a[..n], b[..k] + b[k + 1..]);
    }
  }

  /** The index of the shard that owns v among n shards. */
  function Owner(v: Vertex, n: nat): (i: nat)
    requires n > 0
    ensures i < n
  {
    CharSum(v) % n
  }

  /**
   * `get_responsible_server`: the owner's index, or the `ZeroDivisionError`
   * of `% 0` when there are no shards.
   */
  function ResponsibleServer(v: Vertex, n: nat): (r: Outcome<nat>)
    ensures r.Raised? <==> n == 0
    ensures r.Raised? ==> r.failure == ZeroDivisionError
    ensures r.Ok? ==> r.value < n
  {
    if n == 0 then Raised(ZeroDivisionError) else Ok(Owner(v, n))
  }

  /** Routing sees only the letters of a vertex: rearranging them never moves it to another shard. */
  lemma SameLettersSameServer(a: Vertex, b: Vertex, n: nat)
    requires multiset(a) == multiset(b)
    ensures ResponsibleServer(a, n) == ResponsibleServer(b, n)
  {
    CharSumAnagram(a, b);
  }

  // ---------------------------------------------------------------------------
  // Placing the loaded data: by position, as written, and by owner

  /**
   * The partition the data loader gives a vertex is not the shard the broker
   * asks for it: of the single vertex "a" and two shards, partition "0" holds
   * "a", but the broker routes "a" (character code 97) to shard 1, so with
   * each server loading the partition of its own number, `HasVertex("a")`
   * answers False.
   */
  lemma PartitionMisroutes()
    ensures DataLoader.PartOf(["a"], map["a" := {}], 2, 0).keys == ["a"]
    ensures DataLoader.PartOf(["a"], map["a" := {}], 2, 1).keys == []
    ensures ResponsibleServer("a", 2) == Ok(1)
    ensures var p0, p1 := DataLoader.PartOf(["a"], map["a" := {}], 2, 0), DataLoader.PartOf(["a"], map["a" := {}], 2, 1);
      !HasVertexAnswer([Shard(LoadedTable(map[], p0.keys, p0.values), true),
                        Shard(LoadedTable(map[], p1.keys, p1.values), true)], "a")
  {
    var keys: seq<Vertex> := ["a"];
    assert keys[..0] == [];
    assert CharSum("a") == CharSum([]) + 97;
  }

  /** The keys routed to shard k, in order. */
  function OwnedBy(keys: seq<Vertex>, n: nat, k: nat): (ks: seq<Vertex>)
    requires n > 0
    ensures forall v :: v in ks <==> v in keys && Owner(v, n) == k
    decreases |keys|
  {
    if keys == [] then [] else
      var i := |keys| - 1;
      OwnedBy(keys[..i], n, k) + (if Owner(keys[i], n) == k then [keys[i]] else [])
  }

  /** The keys of a duplicate-free list routed to one shard are duplicate-free. */
  lemma {:induction false} OwnedByDistinct(keys: seq<Vertex>, n: nat, k: nat)
    requires n > 0 && Distinct(keys)
    ensures Distinct(OwnedBy(keys, n, k))
    decreases |keys|
  {
    if keys != [] {
      var i := |keys| - 1;
      assert Distinct(keys[..i]);
      OwnedByDistinct(keys[..i], n, k);
      if Owner(keys[i], n) == k {
        assert keys[i] !in keys[..i];
        DistinctConcat(OwnedBy(keys[..i], n, k), [keys[i]]);
      }
    }
  }

  /** Partition k placed by owner: the entries of d the broker routes to shard k, edges unchanged. */
  function OwnerPartition(d: DataLoader.GraphData, n: nat, k: nat): (p: DataLoader.GraphData)
    requires d.Valid() && n > 0
    ensures p.Valid()
    ensures forall v :: v in p.values <==> v in d.values && Owner(v, n) == k
    ensures forall v :: v in p.values ==> p.values[v] == d.values[v]
  {
    var ks := OwnedBy(d.keys, n, k);
    OwnedByDistinct(d.keys, n, k);
    Dict(ks, map v | v in ks :: d.values[v])
  }

  /** The shards, all reachable, each loaded by a servicer from its owner partition of d. */
  function SeededShards(d: DataLoader.GraphData, n: nat): (shards: seq<Shard>)
    requires d.Valid() && n > 0
    ensures |shards| == n
  {
    seq(n, k requires 0 <= k < n =>
      var p := OwnerPartition(d, n, k);
      Shard(LoadedTable(map[], p.keys, p.values), true))
  }

  /**
   * Placed by owner, every loaded vertex is found by the broker's
   * `HasVertex`, and no other vertex is.
   */
  lemma SeededBrokerFindsVertices(d: DataLoader.GraphData, n: nat, v: Vertex)
    requires d.Valid() && n > 0
    ensures HasVertexAnswer(SeededShards(d, n), v) <==> v in d.values
  {
    var k := Owner(v, n);
    var p := OwnerPartition(d, n, k);
    LoadedFromEmpty(p.keys, p.values);
  }

  // ---------------------------------------------------------------------------
  // Single-vertex calls

  /**
   * `HasVertex`: the owner's answer; `False` when the owner cannot be reached
   * and when there are no shards (the exception is caught).
   */
  function HasVertexAnswer(shards: seq<Shard>, v: Vertex): (b: bool)
    ensures |shards| == 0 ==> !b
    ensures |shards| > 0 ==>
      (b <==> shards[Owner(v, |shards|)].up && v in shards[Owner(v, |shards|)].table)
    ensures b ==> exists i :: 0 <= i < |shards| && shards[i].up && v in shards[i].table
  {
    match ResponsibleServer(v, |shards|)
    case Raised(_) => false
    case Ok(i) => shards[i].up && v in shards[i].table
  }

  /**
   * `AddVertex`: the owner adds v; an exception (no shards, owner unreachable)
   * becomes an unsuccessful response carrying it.  Only the owner changes.
   */
  function AddVertexCall(shards: seq<Shard>, v: Vertex): (r: (OperationResponse, seq<Shard>))
    ensures |r.1| == |shards|
    ensures forall j :: 0 <= j < |shards| && ResponsibleServer(v, |shards|) != Ok(j) ==> r.1[j] == shards[j]
    ensures r.0.success ==> !HasVertexAnswer(shards, v) && HasVertexAnswer(r.1, v)
  {
    match ResponsibleServer(v, |shards|)
    case Raised(f) => (OperationResponse(false, Exception(f)), shards)
    case Ok(i) =>
      if !shards[i].up then (OperationResponse(false, Exception(RpcError)), shards) else
      var ok := v !in shards[i].table;
      (OperationResponse(ok, Said(if ok then "Vertex added successfully" else "Failed to add vertex")),
       shards[i := Shard(GraphSpec.WithVertex(shards[i].table, v), true)])
  }

  /** Once `AddVertex` reached the owner, `HasVertex` answers True, whatever the response said. */
  lemma AddVertexThenHasVertex(shards: seq<Shard>, v: Vertex)
    requires |shards| > 0 && shards[Owner(v, |shards|)].up
    ensures HasVertexAnswer(AddVertexCall(shards, v).1, v)
    ensures AddVertexCall(shards, v).0.success <==> !HasVertexAnswer(shards, v)
  {
  }

  /** The first index from `from` on, other than the owner's, whose shard cannot be reached; |shards| if none. */
  function FirstDownOther(shards: seq<Shard>, owner: nat, from: nat): (d: nat)
    requires from <= |shards|
    ensures from <= d <= |shards|
    ensures forall j :: from <= j < d && j != owner ==> shards[j].up
    ensures d < |shards| ==> d != owner && !shards[d].up
    decreases |shards| - from
  {
    if from == |shards| then from
    else if from != owner && !shards[from].up then from
    else FirstDownOther(shards, owner, from + 1)
  }

  /** FirstDownOther finds d when every other shard from `from` up to d is reachable and d is the end or unreachable. */
  lemma {:induction false} FirstDownOtherAt(shards: seq<Shard>, owner: nat, from: nat, d: nat)
    requires from <= d <= |shards|
    requires forall j :: from <= j < d && j != owner ==> shards[j].up
    requires d == |shards| || (d != owner && !shards[d].up)
    ensures FirstDownOther(shards, owner, from) == d
    decreases d - from
  {
    if from < d {
      FirstDownOtherAt(shards, owner, from + 1, d);
    }
  }

  /** The shards once v is removed from the owner and from every shard before index d. */
  function Scrubbed(shards: seq<Shard>, v: Vertex, owner: nat, d: nat): (r: seq<Shard>)
    ensures |r| == |shards|
  {
    seq(|shards|, j requires 0 <= j < |shards| =>
      if j == owner || j < d then Shard(GraphSpec.WithoutVertex(shards[j].table, v), shards[j].up) else shards[j])
  }

  /** Before the loop over the other shards, only the owner has been scrubbed. */
  lemma ScrubbedStart(shards: seq<Shard>, v: Vertex, owner: nat)
    requires owner < |shards|
    ensures Scrubbed(shards, v, owner, 0) == shards[owner := Shard(GraphSpec.WithoutVertex(shards[owner].table, v), shards[owner].up)]
  {
  }

  /** Visiting index j scrubs shard j, unless it is the owner, which already is. */
  lemma ScrubbedStep(shards: seq<Shard>, v: Vertex, owner: nat, j: nat)
    requires j < |shards|
    ensures Scrubbed(shards, v, owner, j + 1) ==
      if j == owner then Scrubbed(shards, v, owner, j)
      else Scrubbed(shards, v, owner, j)[j := Shard(GraphSpec.WithoutVertex(shards[j].table, v), shards[j].up)]
  {
  }

  /**
   * `RemoveVertex`: the owner first, then every other shard in index order,
   * up to the first one that cannot be reached; the response is the owner's,
   * unless a call raised, in which case it carries the exception.
   */
  function RemoveVertexCall(shards: seq<Shard>, v: Vertex): (r: (OperationResponse, seq<Shard>))
    ensures |r.1| == |shards|
  {
    match ResponsibleServer(v, |shards|)
    case Raised(f) => (OperationResponse(false, Exception(f)), shards)
    case Ok(o) =>
      if !shards[o].up then (OperationResponse(false, Exception(RpcError)), shards) else
      var d := FirstDownOther(shards, o, 0);
      var ok := v in shards[o].table;
      (if d < |shards| then OperationResponse(false, Exception(RpcError))
       else OperationResponse(ok, Said(RemoveVertexMessage(ok))),
       Scrubbed(shards, v, o, d))
  }

  /**
   * With every shard reachable, `RemoveVertex` removes v from all of them and
   * reports whether the owner had it; no other vertex leaves any shard.
   */
  lemma RemoveVertexEverywhere(shards: seq<Shard>, v: Vertex)
    requires |shards| > 0 && forall j :: 0 <= j < |shards| ==> shards[j].up
    ensures var (response, after) := RemoveVertexCall(shards, v);
      && (forall j :: 0 <= j < |shards| ==> v !in after[j].table)
      && response.success == (v in shards[Owner(v, |shards|)].table)
      && forall j, u :: 0 <= j < |shards| && u != v ==> (u in after[j].table <==> u in shards[j].table)
  {
    var o := Owner(v, |shards|);
    assert FirstDownOther(shards, o, 0) == |shards|;
  }

  /** After `RemoveVertex`, `HasVertex` answers False, whether or not some shard was unreachable. */
  lemma RemoveVertexThenHasVertex(shards: seq<Shard>, v: Vertex)
    ensures !HasVertexAnswer(RemoveVertexCall(shards, v).1, v)
  {
  }

  // ---------------------------------------------------------------------------
  // Two-endpoint calls

  /** Which edge call: `AddEdge` or `RemoveEdge`. */
  datatype EdgeOp = Insert | Delete

  /** What the edge call does to one reachable shard's table. */
  function ApplyEdge(op: EdgeOp, g: Adjacency, v1: Vertex, v2: Vertex): Adjacency {
    match op
    case Insert => PlaceholderAddEdge(g, v1, v2)
    case Delete => GraphSpec.WithoutEdge(g, v1, v2)
  }

  /** The message of one shard's response. */
  function ShardMessage(op: EdgeOp, ok: bool): Message {
    match op
    case Insert => Said(if ok then "Edge added successfully" else "Failed to add edge")
    case Delete => Said(if ok then "Edge removed successfully" else "Failed to remove edge")
  }

  /** The message the broker writes when the endpoints live on two shards. */
  function CombinedMessage(op: EdgeOp, ok: bool): Message {
    match op
    case Insert => Said(if ok then "Edge added successfully" else "Failed to add edge on one or both servers")
    case Delete => Said(if ok then "Edge removed successfully" else "Failed to remove edge on one or both servers")
  }

  /**
   * `AddEdge` / `RemoveEdge`: no shards raises (the routing is outside the
   * `try`); otherwise the owner of v1 is called, then the owner of v2 when it
   * is another shard, and the response is the single answer, or the AND of
   * the two with the broker's own message.  An unreachable shard turns the
   * response into a failure carrying the exception, after any change the
   * first call made.
   */
  function EdgeCall(shards: seq<Shard>, op: EdgeOp, v1: Vertex, v2: Vertex): (r: Outcome<(OperationResponse, seq<Shard>)>)
    ensures r.Raised? <==> |shards| == 0
    ensures r.Raised? ==> r.failure == ZeroDivisionError
    ensures r.Ok? ==> |r.value.1| == |shards|
    ensures r.Ok? ==> forall j :: 0 <= j < |shards| && j != Owner(v1, |shards|) && j != Owner(v2, |shards|) ==>
      r.value.1[j] == shards[j]
  {
    var n := |shards|;
    if n == 0 then Raised(ZeroDivisionError) else
    var i1, i2 := Owner(v1, n), Owner(v2, n);
    if !shards[i1].up then Ok((OperationResponse(false, Exception(RpcError)), shards)) else
    var t1 := shards[i1].table;
    var ok1 := v1 in t1 && v2 in t1;
    var s1 := shards[i1 := Shard(ApplyEdge(op, t1, v1, v2), true)];
    if i1 == i2 then Ok((OperationResponse(ok1, ShardMessage(op, ok1)), s1)) else
    if !shards[i2].up then Ok((OperationResponse(false, Exception(RpcError)), s1)) else
    var t2 := shards[i2].table;
    var ok := ok1 && v1 in t2 && v2 in t2;
    Ok((OperationResponse(ok, CombinedMessage(op, ok)), s1[i2 := Shard(ApplyEdge(op, t2, v1, v2), true)]))
  }

  /** An edge call succeeds exactly when every owner is reachable and has both endpoints. */
  lemma EdgeCallSuccess(shards: seq<Shard>, op: EdgeOp, v1: Vertex, v2: Vertex)
    requires |shards| > 0
    ensures var o1, o2 := Owner(v1, |shards|), Owner(v2, |shards|);
      EdgeCall(shards, op, v1, v2).value.0.success <==>
        && shards[o1].up && v1 in shards[o1].table && v2 in shards[o1].table
        && shards[o2].up && v1 in shards[o2].table && v2 in shards[o2].table
  {
  }

  /**
   * The two calls are not atomic: when the second owner cannot be reached,
   * the response is a failure but the first owner has already applied it.
   */
  lemma EdgeCallNotAtomic(shards: seq<Shard>, op: EdgeOp, v1: Vertex, v2: Vertex)
    requires |shards| > 0
    requires var o1, o2 := Owner(v1, |shards|), Owner(v2, |shards|);
      o1 != o2 && shards[o1].up && !shards[o2].up
    ensures var o1 := Owner(v1, |shards|);
      && EdgeCall(shards, op, v1, v2).value.0 == OperationResponse(false, Exception(RpcError))
      && EdgeCall(shards, op, v1, v2).value.1[o1].table == ApplyEdge(op, shards[o1].table, v1, v2)
  {
  }

  /**
   * `HasEdge`: the owners' answers OR-ed; no shards raises (outside the
   * `try`), and an unreachable owner makes the answer False.
   */
  function HasEdgeAnswer(shards: seq<Shard>, v1: Vertex, v2: Vertex): (r: Outcome<bool>)
    ensures r.Raised? <==> |shards| == 0
    ensures r.Raised? ==> r.failure == ZeroDivisionError
  {
    var n := |shards|;
    if n == 0 then Raised(ZeroDivisionError) else
    var i1, i2 := Owner(v1, n), Owner(v2, n);
    if !shards[i1].up then Ok(false) else
    var b1 := GraphSpec.HasEdge(shards[i1].table, v1, v2);
    if i1 == i2 then Ok(b1) else
    if !shards[i2].up then Ok(false) else
    Ok(b1 || GraphSpec.HasEdge(shards[i2].table, v1, v2))
  }

  /** The broker reports an edge exactly when both owners are reachable and one of them stores it. */
  lemma HasEdgeAnswerMeaning(shards: seq<Shard>, v1: Vertex, v2: Vertex)
    requires |shards| > 0
    ensures var o1, o2 := Owner(v1, |shards|), Owner(v2, |shards|);
      HasEdgeAnswer(shards, v1, v2) == Ok(true) <==>
        && shards[o1].up && shards[o2].up
        && (GraphSpec.HasEdge(shards[o1].table, v1, v2) || GraphSpec.HasEdge(shards[o2].table, v1, v2))
  {
  }

  /** After a successful `AddEdge`, `HasEdge` on the same endpoints answers True. */
  lemma AddEdgeThenHasEdge(shards: seq<Shard>, v1: Vertex, v2: Vertex)
    requires EdgeCall(shards, Insert, v1, v2).Ok? && EdgeCall(shards, Insert, v1, v2).value.0.success
    ensures HasEdgeAnswer(EdgeCall(shards, Insert, v1, v2).value.1, v1, v2) == Ok(true)
  {
    EdgeCallSuccess(shards, Insert, v1, v2);
  }

  /** After a successful `RemoveEdge`, `HasEdge` answers False. */
  lemma RemoveEdgeThenNoEdge(shards: seq<Shard>, v1: Vertex, v2: Vertex)
    requires EdgeCall(shards, Delete, v1, v2).Ok? && EdgeCall(shards, Delete, v1, v2).value.0.success
    ensures HasEdgeAnswer(EdgeCall(shards, Delete, v1, v2).value.1, v1, v2) == Ok(false)
  {
    EdgeCallSuccess(shards, Delete, v1, v2);
  }

  // ---------------------------------------------------------------------------
  // Calls to every shard

  /** Every shard can be reached. */
  predicate AllUp(shards: seq<Shard>) {
    forall i :: 0 <= i < |shards| ==> shards[i].up
  }

  /** The union of the vertex sets of the reachable shards. */
  function UpVertices(shards: seq<Shard>): set<Vertex>
    decreases |shards|
  {
    if shards == [] then {} else
      var s := shards[|shards| - 1];
      UpVertices(shards[..|shards| - 1]) + (if s.up then s.table.Keys else {})
  }

  /** A vertex is collected exactly when some reachable shard has it. */
  lemma {:induction false} UpVerticesMeaning(shards: seq<Shard>)
    ensures forall v :: v in UpVertices(shards) <==> exists i :: 0 <= i < |shards| && shards[i].up && v in shards[i].table
    decreases |shards|
  {
    if shards != [] {
      var n := |shards| - 1;
      UpVerticesMeaning(shards[..n]);
      forall i | 0 <= i < n
        ensures shards[..n][i] == shards[i]
      {
      }
    }
  }

  /** What one shard's `GetNeighbors` lists for v: its neighbour set, nothing for an unknown v. */
  function NeighborsIn(g: Adjacency, v: Vertex): (ws: set<Vertex>)
    ensures forall w :: w in ws <==> GraphSpec.HasEdge(g, v, w)
  {
    if v in g then g[v] else {}
  }

  /** The union of the neighbour lists of v from the reachable shards. */
  function UpNeighbors(shards: seq<Shard>, v: Vertex): set<Vertex>
    decreases |shards|
  {
    if shards == [] then {} else
      var s := shards[|shards| - 1];
      UpNeighbors(shards[..|shards| - 1], v) + (if s.up then NeighborsIn(s.table, v) else {})
  }

  /** w is collected exactly when some reachable shard stores the edge v -> w. */
  lemma {:induction false} UpNeighborsMeaning(shards: seq<Shard>, v: Vertex)
    ensures forall w :: w in UpNeighbors(shards, v) <==>
      exists i :: 0 <= i < |shards| && shards[i].up && GraphSpec.HasEdge(shards[i].table, v, w)
    decreases |shards|
  {
    if shards != [] {
      var n := |shards| - 1;
      UpNeighborsMeaning(shards[..n], v);
      forall i | 0 <= i < n
        ensures shards[..n][i] == shards[i]
      {
      }
    }
  }

  // ---------------------------------------------------------------------------
  // The snapshot for shortest paths

  /** `set(neighbors) - {"EXTERNAL"}` for every vertex of one shard. */
  function Stripped(g: Adjacency): Adjacency {
    map u | u in g :: g[u] - {External}
  }

  /** The dict `GetShortestPath` assembles, shard by shard, a later shard's entry replacing an earlier one. */
  function Snapshot(shards: seq<Shard>): Adjacency
    decreases |shards|
  {
    if shards == [] then map[] else Snapshot(shards[..|shards| - 1]) + Stripped(shards[|shards| - 1].table)
  }

  /** The index of the last shard that has v, or -1 when none has. */
  function LastHolder(shards: seq<Shard>, v: Vertex): (k: int)
    ensures -1 <= k < |shards|
    ensures k >= 0 ==> v in shards[k].table
    ensures forall j :: k < j < |shards| ==> v !in shards[j].table
    decreases |shards|
  {
    if shards == [] then -1
    else if v in shards[|shards| - 1].table then |shards| - 1
    else LastHolder(shards[..|shards| - 1], v)
  }

  /**
   * The snapshot holds exactly the vertices of the shards, each with the
   * neighbours listed by the last shard that has it, "EXTERNAL" removed.
   */
  lemma {:induction false} SnapshotMeaning(shards: seq<Shard>, v: Vertex)
    ensures v in Snapshot(shards) <==> LastHolder(shards, v) >= 0
    ensures v in Snapshot(shards) ==> Snapshot(shards)[v] == shards[LastHolder(shards, v)].table[v] - {External}
    decreases |shards|
  {
    if shards != [] {
      SnapshotMeaning(shards[..|shards| - 1], v);
    }
  }

  /**
   * Shards without dangling edges give a snapshot without dangling edges, and
   * no snapshot lists "EXTERNAL" as a neighbour.
   */
  lemma SnapshotClosed(shards: seq<Shard>)
    requires forall i :: 0 <= i < |shards| ==> GraphSpec.Closed(shards[i].table)
    ensures GraphSpec.Closed(Snapshot(shards))
    ensures forall u :: u in Snapshot(shards) ==> External !in Snapshot(shards)[u]
  {
    var g := Snapshot(shards);
    forall u, w | GraphSpec.HasEdge(g, u, w)
      ensures w in g
    {
      SnapshotMeaning(shards, u);
      var k := LastHolder(shards, u);
      assert GraphSpec.HasEdge(shards[k].table, u, w);
      SnapshotMeaning(shards, w);
    }
    forall u | u in g
      ensures External !in g[u]
    {
      SnapshotMeaning(shards, u);
    }
  }

  /** The response for a finished search: the path, an empty path, or the -1 of the caught `KeyError`. */
  function PathReply(r: Search): PathResponse {
    match r
    case Found(p) => PathResponse(p, Elapsed)
    case NoPath => PathResponse([], Elapsed)
    case Missing(_) => PathResponse([], MinusOne)
  }

  /**
   * On shards without dangling edges, the search over the snapshot answers a
   * path exactly when one exists, and that path is a shortest one; it answers
   * -1 exactly when start is no vertex (and is not end).
   */
  lemma ClosedShardsPathReply(shards: seq<Shard>, start: Vertex, end: Vertex, r: Search)
    requires forall i :: 0 <= i < |shards| ==> GraphSpec.Closed(shards[i].table)
    requires SearchSpec(Snapshot(shards), start, end, r)
    ensures PathReply(r).time == MinusOne <==> start !in Snapshot(shards) && start != end
    ensures PathReply(r).path != [] <==> exists w :: IsPath(Snapshot(shards), w, start, end)
    ensures PathReply(r).path != [] ==> Shortest(Snapshot(shards), PathReply(r).path, start, end)
  {
    SnapshotClosed(shards);
    ClosedSearchOutcome(Snapshot(shards), start, end, r);
  }

  /** Two shards that hold a -> b between them: a path exists, which the broker as written never returns. */
  lemma SnapshotHasPath()
    ensures var shards := [Shard(map["a" := {"b"}], true), Shard(map["b" := {}], true)];
      IsPath(Snapshot(shards), ["a", "b"], "a", "b")
  {
    var shards := [Shard(map["a" := {"b"}], true), Shard(map["b" := {}], true)];
    SnapshotMeaning(shards, "a");
    assert LastHolder(shards, "a") == 0;
    assert GraphSpec.HasEdge(Snapshot(shards), "a", "b");
  }

  /**
   * One neighbour-listing pass over one shard: each vertex's list, minus
   * "EXTERNAL", replaces any entry the dict already had.
   */
  method CollectShard(server: GraphServicer, vertices: set<Vertex>, graph: Adjacency) returns (graph': Adjacency)
    requires server.Valid() && vertices == server.graph.adj.Keys
    modifies server.operations.tracking.lamport
    ensures graph' == graph + Stripped(server.graph.adj)
  {
    ghost var t := server.graph.adj;
    graph' := graph;
    var pending := vertices;
    while pending != {}
      invariant pending <= t.Keys
      invariant forall u :: u in graph' <==> u in graph || u in t.Keys - pending
      invariant forall u :: u in graph' ==> graph'[u] == if u in t.Keys - pending then t[u] - {External} else graph[u]
      decreases pending
    {
      var vertex :| vertex in pending;
      var neighbors := server.GetNeighbors(vertex);
      assert neighbors == t[vertex];
      graph' := graph'[vertex := neighbors - {External}];
      pending := pending - {vertex};
    }
    assert graph' == graph + Stripped(t);
  }

  // ---------------------------------------------------------------------------
  // The batch dispatch

  /** The verbs `ExecuteCommands` handles itself; every other verb is forwarded. */
  datatype BrokerVerb = Neighbors | EdgeQuery | EdgeInsert | EdgeRemoval | Forwarded

  function BrokerVerbOf(operation: string): BrokerVerb {
    if operation == "get-neighbors" then Neighbors
    else if operation == "has-edge" then EdgeQuery
    else if operation == "add-edge" then EdgeInsert
    else if operation == "remove-edge" then EdgeRemoval
    else Forwarded
  }

  /**
   * The broker takes over exactly the shards' three edge verbs, and one verb
   * of its own that no shard knows (the shards' verb is "get-neighborhood",
   * which is forwarded).
   */
  lemma BrokerVerbs(operation: string)
    ensures BrokerVerbOf(operation) == EdgeQuery <==> FromValue(operation) == Some(Commands.HasEdge)
    ensures BrokerVerbOf(operation) == EdgeInsert <==> FromValue(operation) == Some(Commands.AddEdge)
    ensures BrokerVerbOf(operation) == EdgeRemoval <==> FromValue(operation) == Some(RemEdge)
    ensures BrokerVerbOf(operation) == Neighbors ==> FromValue(operation) == None
    ensures FromValue(operation) == Some(GetHood) ==> BrokerVerbOf(operation) == Forwarded
  {
  }

  /** What `add-edge` / `remove-edge` do: the edge call, its message as the result. */
  ghost predicate EdgeDispatched(shards: seq<Shard>, op: EdgeOp, params: seq<string>, shards': seq<Shard>, reply: Reply) {
    if |params| < 2 then shards' == shards && reply == BrokerErrorText(IndexError)
    else match EdgeCall(shards, op, params[0], params[1])
      case Raised(f) => shards' == shards && reply == BrokerErrorText(f)
      case Ok(x) => shards' == x.1 && reply == MessageText(x.0.message)
  }

  /**
   * What one command does to the shards and which result string it gets.  A
   * missing parameter, no shards, or an unreachable owner gives "Error: ..."
   * and changes nothing; a forwarded command is served by its owner shard as
   * a one-command batch, r being what it did there.
   */
  ghost predicate Dispatched(shards: seq<Shard>, verb: BrokerVerb, handled: Option<Commands>, params: seq<string>,
                             r: LineResult, shards': seq<Shard>, reply: Reply)
  {
    match verb
    case Neighbors =>
      && shards' == shards
      && reply == (if |params| < 1 then BrokerErrorText(IndexError) else ListText(UpNeighbors(shards, params[0]) - {External}))
    case EdgeQuery =>
      && shards' == shards
      && reply == (if |params| < 2 then BrokerErrorText(IndexError)
                   else match HasEdgeAnswer(shards, params[0], params[1])
                        case Raised(f) => BrokerErrorText(f)
                        case Ok(b) => Word(TruthWord(b)))
    case EdgeInsert => EdgeDispatched(shards, Insert, params, shards', reply)
    case EdgeRemoval => EdgeDispatched(shards, Delete, params, shards', reply)
    case Forwarded =>
      if |params| < 1 then shards' == shards && reply == BrokerErrorText(IndexError)
      else match ResponsibleServer(params[0], |shards|)
        case Raised(f) => shards' == shards && reply == BrokerErrorText(f)
        case Ok(i) =>
          if !shards[i].up then shards' == shards && reply == BrokerErrorText(RpcError)
          else Served(shards[i].table, handled, params, r, reply) && shards' == shards[i := Shard(Next(shards[i].table, r), true)]
  }

  /** Every shard is free of dangling edges. */
  ghost predicate AllClosed(shards: seq<Shard>) {
    forall i :: 0 <= i < |shards| ==> GraphSpec.Closed(shards[i].table)
  }

  /**
   * A command keeps the number of shards and their reachability, and keeps
   * every shard free of dangling edges.
   */
  lemma DispatchKeepsClosed(shards: seq<Shard>, verb: BrokerVerb, handled: Option<Commands>, params: seq<string>,
                            r: LineResult, shards': seq<Shard>, reply: Reply)
    requires AllClosed(shards)
    requires Dispatched(shards, verb, handled, params, r, shards', reply)
    ensures |shards'| == |shards| && forall i :: 0 <= i < |shards| ==> shards'[i].up == shards[i].up
    ensures AllClosed(shards')
  {
    match verb
    case Neighbors =>
    case EdgeQuery =>
    case EdgeInsert =>
      EdgeDispatchKeepsClosed(shards, Insert, params, shards', reply);
    case EdgeRemoval =>
      EdgeDispatchKeepsClosed(shards, Delete, params, shards', reply);
    case Forwarded =>
      ForwardKeepsClosed(shards, handled, params, r, shards', reply);
  }

  /** `add-edge` / `remove-edge` keep every shard free of dangling edges. */
  lemma EdgeDispatchKeepsClosed(shards: seq<Shard>, op: EdgeOp, params: seq<string>, shards': seq<Shard>, reply: Reply)
    requires AllClosed(shards)
    requires EdgeDispatched(shards, op, params, shards', reply)
    ensures |shards'| == |shards| && forall i :: 0 <= i < |shards| ==> shards'[i].up == shards[i].up
    ensures AllClosed(shards')
  {
    if |params| >= 2 && |shards| > 0 {
      EdgeCallKeepsClosed(shards, op, params[0], params[1]);
    }
  }

  /** A forwarded command keeps every shard free of dangling edges. */
  lemma ForwardKeepsClosed(shards: seq<Shard>, handled: Option<Commands>, params: seq<string>,
                           r: LineResult, shards': seq<Shard>, reply: Reply)
    requires AllClosed(shards)
    requires Dispatched(shards, Forwarded, handled, params, r, shards', reply)
    ensures |shards'| == |shards| && forall i :: 0 <= i < |shards| ==> shards'[i].up == shards[i].up
    ensures AllClosed(shards')
  {
    if |params| >= 1 && |shards| > 0 {
      var i := Owner(params[0], |shards|);
      if shards[i].up {
        ServedKeepsClosed(shards[i].table, handled, params, r, reply);
      }
    }
  }

  /** Both edge operations keep a table free of dangling edges. */
  lemma ApplyEdgeClosed(op: EdgeOp, g: Adjacency, v1: Vertex, v2: Vertex)
    requires GraphSpec.Closed(g)
    ensures GraphSpec.Closed(ApplyEdge(op, g, v1, v2))
  {
  }

  /** An edge call keeps every shard free of dangling edges. */
  lemma EdgeCallKeepsClosed(shards: seq<Shard>, op: EdgeOp, v1: Vertex, v2: Vertex)
    requires AllClosed(shards) && |shards| > 0
    ensures AllClosed(EdgeCall(shards, op, v1, v2).value.1)
  {
    var n := |shards|;
    var i1, i2 := Owner(v1, n), Owner(v2, n);
    ApplyEdgeClosed(op, shards[i1].table, v1, v2);
    ApplyEdgeClosed(op, shards[i2].table, v1, v2);
    var after := EdgeCall(shards, op, v1, v2).value.1;
    forall j | 0 <= j < n
      ensures GraphSpec.Closed(after[j].table)
    {
      if j != i1 && j != i2 {
        assert after[j] == shards[j];
      }
    }
  }

  /** A batch from shards without dangling edges passes through such shards only. */
  lemma {:induction false} BatchKeepsClosed(history: seq<seq<Shard>>, commands: seq<Command>, lines: seq<LineResult>, results: seq<CommandResult>, k: nat)
    requires |history| == |commands| + 1 && |lines| == |commands| == |results| && k < |history|
    requires AllClosed(history[0])
    requires forall i :: 0 <= i < |commands| ==>
      Dispatched(history[i], BrokerVerbOf(commands[i].operation), Handled(commands[i].operation), commands[i].parameters,
                 lines[i], history[i + 1], results[i].result)
    ensures AllClosed(history[k])
    decreases k
  {
    if k > 0 {
      BatchKeepsClosed(history, commands, lines, results, k - 1);
      var c := commands[k - 1];
      DispatchKeepsClosed(history[k - 1], BrokerVerbOf(c.operation), Handled(c.operation), c.parameters,
                          lines[k - 1], history[k], results[k - 1].result);
    }
  }

  // ---------------------------------------------------------------------------
  // The broker servicer

  class BrokerServicer {
    /** The shard servers, in the order of `server_stubs`; `num_servers` is their number. */
    var shards: seq<Shard>

    /** `BrokerServicer(server_addresses)`: one shard per address. */
    constructor (servers: seq<Shard>)
      ensures shards == servers
    {
      shards := servers;
    }

    method AddVertex(v: Vertex) returns (response: OperationResponse)
      modifies this
      ensures (response, shards) == AddVertexCall(old(shards), v)
    {
      var owner := ResponsibleServer(v, |shards|);
      if owner.Raised? {
        return OperationResponse(false, Exception(owner.failure));
      }
      var i := owner.value;
      if !shards[i].up {
        return OperationResponse(false, Exception(RpcError));
      }
      var server := new GraphServicer.Over(shards[i].table);
      response := server.AddVertex(v);
      shards := shards[i := Shard(server.graph.adj, true)];
    }

    method RemoveVertex(v: Vertex) returns (response: OperationResponse)
      modifies this
      ensures (response, shards) == RemoveVertexCall(old(shards), v)
    {
      var owner := ResponsibleServer(v, |shards|);
      if owner.Raised? {
        return OperationResponse(false, Exception(owner.failure));
      }
      var o := owner.value;
      if !shards[o].up {
        return OperationResponse(false, Exception(RpcError));
      }
      ghost var s0 := shards;
      var server := new GraphServicer.Over(shards[o].table);
      response := server.RemoveVertex(v);
      shards := shards[o := Shard(server.graph.adj, true)];
      ScrubbedStart(s0, v, o);
      var j := 0;
      while j < |shards|
        invariant j <= |shards| == |s0|
        invariant forall k :: 0 <= k < j && k != o ==> s0[k].up
        invariant shards == Scrubbed(s0, v, o, j)
      {
        if j != o {
          if !shards[j].up {
            FirstDownOtherAt(s0, o, 0, j);
            return OperationResponse(false, Exception(RpcError));
          }
          var other := new GraphServicer.Over(shards[j].table);
          var ignored := other.RemoveVertex(v);
          shards := shards[j := Shard(other.graph.adj, true)];
        }
        ScrubbedStep(s0, v, o, j);
        j := j + 1;
      }
      FirstDownOtherAt(s0, o, 0, j);
    }

    method HasVertex(v: Vertex) returns (value: bool)
      ensures value == HasVertexAnswer(shards, v)
    {
      var owner := ResponsibleServer(v, |shards|);
      if owner.Raised? || !shards[owner.value].up {
        return false;
      }
      var server := new GraphServicer.Over(shards[owner.value].table);
      value := server.HasVertex(v);
    }

    /** `GetAllVertices`: the union over the shards; an unreachable shard contributes nothing. */
    method GetAllVertices() returns (vertices: set<Vertex>)
      ensures forall v :: v in vertices <==> exists i :: 0 <= i < |shards| && shards[i].up && v in shards[i].table
    {
      vertices := {};
      for i := 0 to |shards|
        invariant vertices == UpVertices(shards[..i])
      {
        if shards[i].up {
          var server := new GraphServicer.Over(shards[i].table);
          var response := server.GetAllVertices();
          vertices := vertices + response;
        }
        assert shards[..i + 1][..i] == shards[..i];
      }
      assert shards[..|shards|] == shards;
      UpVerticesMeaning(shards);
    }

    /** One shard's `AddEdge` or `RemoveEdge`, on a reachable shard. */
    method CallEdge(i: nat, op: EdgeOp, v1: Vertex, v2: Vertex) returns (response: OperationResponse)
      requires i < |shards| && shards[i].up
      modifies this
      ensures var ok := v1 in old(shards[i].table) && v2 in old(shards[i].table);
        response == OperationResponse(ok, ShardMessage(op, ok))
      ensures shards == old(shards)[i := Shard(ApplyEdge(op, old(shards[i].table), v1, v2), true)]
    {
      var server := new GraphServicer.Over(shards[i].table);
      if op == Insert {
        response := server.AddEdge(v1, v2);
      } else {
        response := server.RemoveEdge(v1, v2);
      }
      shards := shards[i := Shard(server.graph.adj, true)];
    }

    /** `AddEdge` (op `Insert`) and `RemoveEdge` (op `Delete`). */
    method ChangeEdge(op: EdgeOp, v1: Vertex, v2: Vertex) returns (r: Outcome<OperationResponse>)
      modifies this
      ensures var c := EdgeCall(old(shards), op, v1, v2);
        if c.Ok? then r == Ok(c.value.0) && shards == c.value.1 else r == Raised(c.failure) && shards == old(shards)
    {
      var n := |shards|;
      var owner1, owner2 := ResponsibleServer(v1, n), ResponsibleServer(v2, n);
      if owner1.Raised? {
        return Raised(owner1.failure);
      }
      var i1, i2 := owner1.value, owner2.value;
      if !shards[i1].up {
        return Ok(OperationResponse(false, Exception(RpcError)));
      }
      var response1 := CallEdge(i1, op, v1, v2);
      if i1 == i2 {
        return Ok(response1);
      }
      if !shards[i2].up {
        return Ok(OperationResponse(false, Exception(RpcError)));
      }
      var response2 := CallEdge(i2, op, v1, v2);
      var success := response1.success && response2.success;
      return Ok(OperationResponse(success, CombinedMessage(op, success)));
    }

    method AddEdge(v1: Vertex, v2: Vertex) returns (r: Outcome<OperationResponse>)
      modifies this
      ensures var c := EdgeCall(old(shards), Insert, v1, v2);
        if c.Ok? then r == Ok(c.value.0) && shards == c.value.1 else r == Raised(c.failure) && shards == old(shards)
    {
      r := ChangeEdge(Insert, v1, v2);
    }

    method RemoveEdge(v1: Vertex, v2: Vertex) returns (r: Outcome<OperationResponse>)
      modifies this
      ensures var c := EdgeCall(old(shards), Delete, v1, v2);
        if c.Ok? then r == Ok(c.value.0) && shards == c.value.1 else r == Raised(c.failure) && shards == old(shards)
    {
      r := ChangeEdge(Delete, v1, v2);
    }

    method HasEdge(v1: Vertex, v2: Vertex) returns (r: Outcome<bool>)
      ensures r == HasEdgeAnswer(shards, v1, v2)
    {
      var n := |shards|;
      var owner1, owner2 := ResponsibleServer(v1, n), ResponsibleServer(v2, n);
      if owner1.Raised? {
        return Raised(owner1.failure);
      }
      var i1, i2 := owner1.value, owner2.value;
      if !shards[i1].up {
        return Ok(false);
      }
      var server1 := new GraphServicer.Over(shards[i1].table);
      var value1 := server1.HasEdge(v1, v2);
      if i1 == i2 {
        return Ok(value1);
      }
      if !shards[i2].up {
        return Ok(false);
      }
      var server2 := new GraphServicer.Over(shards[i2].table);
      var value2 := server2.HasEdge(v1, v2);
      return Ok(value1 || value2);
    }

    /** `GetNeighbors`: the union over the reachable shards, "EXTERNAL" discarded. */
    method GetNeighbors(v: Vertex) returns (vertices: set<Vertex>)
      ensures vertices == UpNeighbors(shards, v) - {External}
      ensures forall w :: w in vertices <==>
        w != External && exists i :: 0 <= i < |shards| && shards[i].up && GraphSpec.HasEdge(shards[i].table, v, w)
    {
      vertices := {};
      for i := 0 to |shards|
        invariant vertices == UpNeighbors(shards[..i], v)
      {
        if shards[i].up {
          var server := new GraphServicer.Over(shards[i].table);
          var response := server.GetNeighbors(v);
          vertices := vertices + response;
        }
        assert shards[..i + 1][..i] == shards[..i];
      }
      assert shards[..|shards|] == shards;
      UpNeighborsMeaning(shards, v);
      vertices := vertices - {External};
    }

    /** The snapshot loop of `GetShortestPath`; an unreachable shard raises out of it. */
    method CollectGraph() returns (r: Outcome<Adjacency>)
      ensures r == if AllUp(shards) then Ok(Snapshot(shards)) else Raised(RpcError)
    {
      var graph: Adjacency := map[];
      for i := 0 to |shards|
        invariant AllUp(shards[..i]) && graph == Snapshot(shards[..i])
      {
        if !shards[i].up {
          return Raised(RpcError);
        }
        var server := new GraphServicer.Over(shards[i].table);
        var vertices := server.GetAllVertices();
        graph := CollectShard(server, vertices, graph);
        assert shards[..i + 1][..i] == shards[..i];
      }
      assert shards[..|shards|] == shards;
      return Ok(graph);
    }

    /**
     * `GetShortestPath` as written: the snapshot is collected, then the call to
     * `path_finding.parallel_shortest_path`, which the module does not define,
     * raises `AttributeError`, and the handler answers the empty path with -1.
     */
    method GetShortestPathAsWritten(start: Vertex, end: Vertex) returns (response: PathResponse)
      ensures response == PathResponse([], MinusOne)
    {
      var _ := CollectGraph();
      response := PathResponse([], MinusOne);
    }

    /**
     * `GetShortestPath` with the search the module does define: breadth-first
     * search over the snapshot; an unreachable shard or a `KeyError` of the
     * search gives the empty path with -1.
     */
    method GetShortestPath(start: Vertex, end: Vertex) returns (response: PathResponse)
      ensures !AllUp(shards) ==> response == PathResponse([], MinusOne)
      ensures AllUp(shards) ==> exists r :: SearchSpec(Snapshot(shards), start, end, r) && response == PathReply(r)
    {
      var graph := CollectGraph();
      if graph.Raised? {
        return PathResponse([], MinusOne);
      }
      var r := BfsShortestPath(graph.value, start, end);
      response := PathReply(r);
    }

    /** One command of `ExecuteCommands`, the `try` body and its handler. */
    method ExecuteOne(command: Command) returns (result: CommandResult, ghost r: LineResult)
      modifies this
      ensures result.operation == command.operation
      ensures Dispatched(old(shards), BrokerVerbOf(command.operation), Handled(command.operation), command.parameters,
                         r, shards, result.result)
    {
      var params := command.parameters;
      r := Done(map[], [], 0);
      var reply: Reply;
      match BrokerVerbOf(command.operation) {
        case Neighbors =>
          if |params| < 1 {
            reply := BrokerErrorText(IndexError);
          } else {
            var vertices := GetNeighbors(params[0]);
            reply := ListText(vertices);
          }
        case EdgeQuery =>
          if |params| < 2 {
            reply := BrokerErrorText(IndexError);
          } else {
            var value := HasEdge(params[0], params[1]);
            reply := if value.Raised? then BrokerErrorText(value.failure) else Word(TruthWord(value.value));
          }
        case EdgeInsert =>
          if |params| < 2 {
            reply := BrokerErrorText(IndexError);
          } else {
            var response := AddEdge(params[0], params[1]);
            reply := if response.Raised? then BrokerErrorText(response.failure) else MessageText(response.value.message);
          }
        case EdgeRemoval =>
          if |params| < 2 {
            reply := BrokerErrorText(IndexError);
          } else {
            var response := RemoveEdge(params[0], params[1]);
            reply := if response.Raised? then BrokerErrorText(response.failure) else MessageText(response.value.message);
          }
        case Forwarded =>
          reply, r := Forward(command);
      }
      return CommandResult(command.operation, reply), r;
    }

    /**
     * A verb the broker does not handle: the owner of the first parameter
     * runs it as a one-command batch, whose single result the broker keeps.
     */
    method Forward(command: Command) returns (reply: Reply, ghost r: LineResult)
      modifies this
      ensures Dispatched(old(shards), Forwarded, Handled(command.operation), command.parameters, r, shards, reply)
    {
      var params := command.parameters;
      r := Done(map[], [], 0);
      if |params| < 1 {
        return BrokerErrorText(IndexError), r;
      }
      var owner := ResponsibleServer(params[0], |shards|);
      if owner.Raised? {
        return BrokerErrorText(owner.failure), r;
      }
      var i := owner.value;
      if !shards[i].up {
        return BrokerErrorText(RpcError), r;
      }
      ghost var g := shards[i].table;
      var server := new GraphServicer.Over(shards[i].table);
      var results, trace := server.ExecuteCommands([command]);
      ServedAllAt(g, Verbs([command]), [command], trace, results, 0);
      assert trace[..0] == [];
      r := trace[0];
      reply := results[0].result;
      shards := shards[i := Shard(server.graph.adj, true)];
    }

    /**
     * `ExecuteCommands`: one result per command, in order, each echoing its
     * command's verb; a failing command gets its "Error: ..." result and the
     * batch goes on.  `history` holds the shards before each command and after
     * the last.
     */
    method ExecuteCommands(commands: seq<Command>)
      returns (results: seq<CommandResult>, ghost history: seq<seq<Shard>>, ghost lines: seq<LineResult>)
      modifies this
      ensures |results| == |commands| && |lines| == |commands| && |history| == |commands| + 1
      ensures history[0] == old(shards) && history[|commands|] == shards
      ensures forall i :: 0 <= i < |commands| ==> results[i].operation == commands[i].operation
      ensures forall i :: 0 <= i < |commands| ==>
        Dispatched(history[i], BrokerVerbOf(commands[i].operation), Handled(commands[i].operation), commands[i].parameters,
                   lines[i], history[i + 1], results[i].result)
    {
      results, history, lines := [], [shards], [];
      for i := 0 to |commands|
        invariant |results| == i && |lines| == i && |history| == i + 1
        invariant history[0] == old(shards) && history[i] == shards
        invariant forall k :: 0 <= k < i ==> results[k].operation == commands[k].operation
        invariant forall k :: 0 <= k < i ==>
          Dispatched(history[k], BrokerVerbOf(commands[k].operation), Handled(commands[k].operation), commands[k].parameters,
                     lines[k], history[k + 1], results[k].result)
      {
        var result, r := ExecuteOne(commands[i]);
        results := results + [result];
        lines := lines + [r];
        history := history + [shards];
      }
    }
  }
}
