/**
 * The operation layer over one graph: each call delegates to the graph and
 * ticks the Lamport clock once; `has_path` and `get_all_edges` are loops of
 * their own; `execute_commands` runs a command file line by line.
 */
module Operations {
  import opened Types
  import GraphSpec
  import opened GraphStore
  import opened PathFinding
  import opened Clocks
  import Text

  type Adjacency = GraphSpec.Adjacency

  /** The verbs of the command language. */
  datatype Commands =
    | AddVert | AddEdge | RemVert | RemEdge | HasVert | HasEdge
    | HasPath | GetHood | GetSssp | GetVrts | GetEdgs

  /** The verb string of each command. */
  function Value(c: Commands): (s: string)
    ensures |s| > 0
  {
    match c
    case AddVert => "add-vertex"
    case AddEdge => "add-edge"
    case RemVert => "remove-vertex"
    case RemEdge => "remove-edge"
    case HasVert => "has-vertex"
    case HasEdge => "has-edge"
    case HasPath => "has-path"
    case GetHood => "get-neighborhood"
    case GetSssp => "get-shortest-path"
    case GetVrts => "get-all-vertices"
    case GetEdgs => "get-all-edges"
  }

  /** The command a verb string names, if any (`Commands(s)`). */
  function FromValue(s: string): Option<Commands> {
    if s == "add-vertex" then Some(AddVert)
    else if s == "add-edge" then Some(AddEdge)
    else if s == "remove-vertex" then Some(RemVert)
    else if s == "remove-edge" then Some(RemEdge)
    else if s == "has-vertex" then Some(HasVert)
    else if s == "has-edge" then Some(HasEdge)
    else if s == "has-path" then Some(HasPath)
    else if s == "get-neighborhood" then Some(GetHood)
    else if s == "get-shortest-path" then Some(GetSssp)
    else if s == "get-all-vertices" then Some(GetVrts)
    else if s == "get-all-edges" then Some(GetEdgs)
    else None
  }

  /** Each verb string names its own command. */
  lemma FromValueOfValue(k: Commands)
    ensures FromValue(Value(k)) == Some(k)
  {
    match k
    case AddVert =>
    case AddEdge =>
    case RemVert =>
    case RemEdge =>
    case HasVert =>
    case HasEdge =>
    case HasPath =>
    case GetHood =>
    case GetSssp =>
    case GetVrts =>
    case GetEdgs =>
  }

  /** `FromValue` is exactly the inverse of `Value`: each verb string names one command, and no other string names any. */
  lemma FromValueInverse(s: string, k: Commands)
    ensures FromValue(s) == Some(k) <==> Value(k) == s
  {
    FromValueOfValue(k);
    ValueOfFromValue(s);
  }

  /** A string that names a command is that command's verb string. */
  lemma ValueOfFromValue(s: string)
    ensures FromValue(s).Some? ==> Value(FromValue(s).value) == s
  {
  }

  /** How many tokens after the verb the dispatch reads (`tokens[1]`, `tokens[2]`). */
  function Arity(c: Commands): nat {
    match c
    case AddVert => 1
    case AddEdge => 2
    case RemVert => 1
    case RemEdge => 2
    case HasVert => 1
    case HasEdge => 2
    case HasPath => 0
    case GetHood => 1
    case GetSssp => 2
    case GetVrts => 0
    case GetEdgs => 0
  }

  /** `'success' if result else 'fail'`. */
  function StatusWord(ok: bool): string {
    if ok then "success" else "fail"
  }

  /** `str(result)` of a boolean. */
  function TruthWord(b: bool): string {
    if b then "True" else "False"
  }

  // ---------------------------------------------------------------------------
  // Specification functions of the two loops

  /** How many `has_edge` calls `has_path` makes: up to and including the first missing edge. */
  function EdgeChecks(g: Adjacency, vs: seq<Vertex>): (n: nat)
    ensures n <= if |vs| <= 1 then 0 else |vs| - 1
    decreases |vs|
  {
    if |vs| <= 1 then 0
    else if GraphSpec.HasEdge(g, vs[0], vs[1]) then 1 + EdgeChecks(g, vs[1..])
    else 1
  }

  /** Past a prefix of present edges, each of them costs exactly one check. */
  lemma {:induction false} EdgeChecksPrefix(g: Adjacency, vs: seq<Vertex>, i: nat)
    requires i == 0 || i < |vs|
    requires forall j :: 0 <= j < i ==> GraphSpec.HasEdge(g, vs[j], vs[j + 1])
    ensures EdgeChecks(g, vs) == i + EdgeChecks(g, vs[i..])
    decreases i
  {
    if i > 0 {
      assert GraphSpec.HasEdge(g, vs[0], vs[1]);
      EdgeChecksPrefix(g, vs[1..], i - 1);
      assert vs[1..][i - 1..] == vs[i..];
    }
  }

  /** The number of edges of the table: the sum of the sizes of the neighbour sets of `keys`. */
  ghost function Degrees(g: Adjacency, keys: set<Vertex>): nat
    requires keys <= g.Keys
    decreases keys
  {
    if keys == {} then 0 else
      var k :| k in keys;
      |g[k]| + Degrees(g, keys - {k})
  }

  /** The sum does not depend on which key is taken first. */
  lemma {:induction false} DegreesSplit(g: Adjacency, keys: set<Vertex>, k: Vertex)
    requires keys <= g.Keys && k in keys
    ensures Degrees(g, keys) == |g[k]| + Degrees(g, keys - {k})
    decreases keys
  {
    var x :| x in keys && Degrees(g, keys) == |g[x]| + Degrees(g, keys - {x});
    if x != k {
      DegreesSplit(g, keys - {x}, k);
      DegreesSplit(g, keys - {k}, x);
      assert keys - {x} - {k} == keys - {k} - {x};
    }
  }

  /** The inner loop of `get_all_edges`: append (vert, x) for every neighbour x, in set order. */
  method AppendEdgesOf(edges: seq<Edge>, vert: Vertex, neighbors: set<Vertex>) returns (edges': seq<Edge>)
    ensures |edges'| == |edges| + |neighbors| && edges'[..|edges|] == edges
    ensures forall e :: e in edges'[|edges|..] <==> e.0 == vert && e.1 in neighbors
    ensures Distinct(edges'[|edges|..])
  {
    var added: seq<Edge> := [];
    var rest := neighbors;
    while rest != {}
      invariant rest <= neighbors
      invariant |added| + |rest| == |neighbors|
      invariant forall e :: e in added <==> e.0 == vert && e.1 in neighbors && e.1 !in rest
      invariant Distinct(added)
      decreases rest
    {
      var x :| x in rest;
      AppendEdgeStep(added, vert, neighbors, rest, x);
      added := added + [(vert, x)];
      rest := rest - {x};
    }
    edges' := edges + added;
    assert edges'[|edges|..] == added;
  }

  /** One iteration of `AppendEdgesOf` keeps its loop invariant. */
  lemma AppendEdgeStep(added: seq<Edge>, vert: Vertex, neighbors: set<Vertex>, rest: set<Vertex>, x: Vertex)
    requires x in rest && rest <= neighbors
    requires |added| + |rest| == |neighbors|
    requires forall e :: e in added <==> e.0 == vert && e.1 in neighbors && e.1 !in rest
    requires Distinct(added)
    ensures |added + [(vert, x)]| + |rest - {x}| == |neighbors|
    ensures forall e :: e in added + [(vert, x)] <==> e.0 == vert && e.1 in neighbors && e.1 !in rest - {x}
    ensures Distinct(added + [(vert, x)])
  {
    assert (vert, x) !in added;
    DistinctConcat(added, [(vert, x)]);
  }

  /** A listing of the edges: each edge of g exactly once. */
  ghost predicate ListsEdges(g: Adjacency, es: seq<Edge>) {
    && (forall e :: e in es <==> e in GraphSpec.EdgeSet(g))
    && Distinct(es)
  }

  /**
   * What a `get_shortest_path(start, end)` call may answer on table g: a path,
   * `None`, or the `KeyError` the search raises, each as the search promises.
   */
  ghost predicate Answers(g: Adjacency, start: Vertex, end: Vertex, r: Outcome<Option<seq<Vertex>>>) {
    match r
    case Ok(Some(p)) => SearchSpec(g, start, end, Found(p))
    case Ok(None) => SearchSpec(g, start, end, NoPath)
    case Raised(f) => f.KeyError? && SearchSpec(g, start, end, Missing(f.key))
  }

  // ---------------------------------------------------------------------------
  // The command file

  /** What one output line shows after `<verb> <arguments> : `. */
  datatype Rendered =
    | Status(ok: bool)                           // 'success' or 'fail'
    | Truth(b: bool)                             // 'True' or 'False'
    | Neighborhood(n: Option<set<Vertex>>)       // the neighbour set, or None
    | ShortestPath(p: Option<seq<Vertex>>)       // the path, or None (the seconds are not modelled)
    | Vertices(vs: set<Vertex>)
    | Edges(es: seq<Edge>)

  datatype OutputLine = Line(verb: Commands, args: seq<string>, shown: Rendered)

  /** One command line either completes (new table, output, clock ticks) or raises. */
  datatype LineResult =
    | Done(after: Adjacency, out: seq<OutputLine>, ticks: nat)
    | Crashed(failure: Failure)

  /** A parsed command line: the command its first token names, if any, and the tokens after it. */
  datatype Request = Request(verb: Option<Commands>, args: seq<string>)

  /** What executing request q does to table g. */
  ghost predicate LineSpec(g: Adjacency, q: Request, r: LineResult) {
    match q.verb
    case None => r == Done(g, [], 0)
    case Some(c) =>
      var a := q.args;
      if |a| < Arity(c) then r == Crashed(IndexError)
      else match c
        case AddVert =>
          r == Done(GraphSpec.WithVertex(g, a[0]), [Line(c, [a[0]], Status(a[0] !in g))], 1)
        case AddEdge =>
          r == Done(GraphSpec.WithEdge(g, a[0], a[1]), [Line(c, [a[0], a[1]], Status(a[0] in g && a[1] in g))], 1)
        case RemVert =>
          r == Done(GraphSpec.WithoutVertex(g, a[0]), [Line(c, [a[0]], Status(a[0] in g))], 1)
        case RemEdge =>
          r == Done(GraphSpec.WithoutEdge(g, a[0], a[1]), [Line(c, [a[0], a[1]], Status(a[0] in g && a[1] in g))], 1)
        case HasVert =>
          r == Done(g, [Line(c, [a[0]], Truth(a[0] in g))], 1)
        case HasEdge =>
          r == Done(g, [Line(c, [a[0], a[1]], Truth(GraphSpec.HasEdge(g, a[0], a[1])))], 1)
        case HasPath =>
          r == Done(g, [Line(c, a, Truth(GraphSpec.Chained(g, a)))], EdgeChecks(g, a))
        case GetHood =>
          r == Done(g, [Line(c, [a[0]], Neighborhood(if a[0] in g then Some(g[a[0]]) else None))], 1)
        case GetSssp =>
          (match r
           case Crashed(f) => Answers(g, a[0], a[1], Raised(f))
           case Done(after, out, ticks) =>
             && after == g && ticks == 1 && |out| == 1
             && out[0].verb == c && out[0].args == [a[0], a[1]] && out[0].shown.ShortestPath?
             && Answers(g, a[0], a[1], Ok(out[0].shown.p)))
        case GetVrts =>
          r == Done(g, [Line(c, [], Vertices(g.Keys))], 1)
        case GetEdgs =>
          && r.Done? && r.after == g && r.ticks == 1 && |r.out| == 1
          && r.out[0].verb == c && r.out[0].args == [] && r.out[0].shown.Edges?
          && ListsEdges(g, r.out[0].shown.es)
  }

  /** The table after a line: unchanged when it raised. */
  function Next(g: Adjacency, r: LineResult): Adjacency {
    if r.Done? then r.after else g
  }

  /** The tables before the first line and after each line of the trace. */
  function States(g0: Adjacency, trace: seq<LineResult>): (gs: seq<Adjacency>)
    ensures |gs| == |trace| + 1 && gs[0] == g0
    decreases |trace|
  {
    if trace == [] then [g0] else
      var gs := States(g0, trace[..|trace| - 1]);
      gs + [Next(gs[|gs| - 1], trace[|trace| - 1])]
  }

  /** All output lines of the trace, in order. */
  function Outputs(trace: seq<LineResult>): seq<OutputLine>
    decreases |trace|
  {
    if trace == [] then [] else
      var last := trace[|trace| - 1];
      Outputs(trace[..|trace| - 1]) + (if last.Done? then last.out else [])
  }

  /** All clock ticks of the trace. */
  function Ticks(trace: seq<LineResult>): nat
    decreases |trace|
  {
    if trace == [] then 0 else
      var last := trace[|trace| - 1];
      Ticks(trace[..|trace| - 1]) + (if last.Done? then last.ticks else 0)
  }

  /** The tokens of a command line: `line.strip().split(' ')`, never an empty list. */
  function Tokens(line: string): (t: seq<string>)
    ensures |t| > 0
  {
    Text.Split(Text.Strip(line))
  }

  /** The dispatch on `tokens[0]`: the command it names, and the remaining tokens. */
  function Parse(line: string): Request {
    var t := Tokens(line);
    Request(FromValue(t[0]), t[1..])
  }

  /** The requests of every line of the command file. */
  function Requests(lines: seq<string>): (qs: seq<Request>)
    ensures |qs| == |lines|
  {
    seq(|lines|, i requires 0 <= i < |lines| => Parse(lines[i]))
  }

  /**
   * Each result of the trace is what its line does on the table the previous
   * lines left, the lines taken in file order.
   */
  ghost predicate Follows(g0: Adjacency, lines: seq<Request>, trace: seq<LineResult>)
    decreases |trace|
  {
    && |trace| <= |lines|
    && (trace != [] ==>
          var prefix := trace[..|trace| - 1];
          && Follows(g0, lines, prefix)
          && LineSpec(States(g0, prefix)[|prefix|], lines[|prefix|], trace[|prefix|]))
  }

  /**
   * A run of the command file: one result per executed line, each as
   * `LineSpec` says on the table left by the previous ones; the run stops at
   * the first line that raises, and otherwise covers every line.
   */
  ghost predicate IsRun(g0: Adjacency, lines: seq<Request>, trace: seq<LineResult>) {
    && Follows(g0, lines, trace)
    && (forall i :: 0 <= i < |trace| - 1 ==> trace[i].Done?)
    && (|trace| < |lines| ==> trace != [] && trace[|trace| - 1].Crashed?)
  }

  /** Executing the next line extends a trace that follows the file. */
  lemma FollowsExtend(g0: Adjacency, lines: seq<Request>, trace: seq<LineResult>, r: LineResult)
    requires Follows(g0, lines, trace) && |trace| < |lines|
    requires LineSpec(States(g0, trace)[|trace|], lines[|trace|], r)
    ensures Follows(g0, lines, trace + [r])
    ensures States(g0, trace + [r]) == States(g0, trace) + [Next(States(g0, trace)[|trace|], r)]
    ensures Outputs(trace + [r]) == Outputs(trace) + (if r.Done? then r.out else [])
    ensures Ticks(trace + [r]) == Ticks(trace) + (if r.Done? then r.ticks else 0)
  {
    assert (trace + [r])[..|trace|] == trace;
  }

  /** The i-th result of a trace that follows the file is what line i does on the i-th table. */
  lemma {:induction false} FollowsAt(g0: Adjacency, lines: seq<Request>, trace: seq<LineResult>, i: nat)
    requires Follows(g0, lines, trace) && i < |trace|
    ensures LineSpec(States(g0, trace)[i], lines[i], trace[i])
    ensures States(g0, trace)[i + 1] == Next(States(g0, trace)[i], trace[i])
    decreases |trace|
  {
    var prefix := trace[..|trace| - 1];
    assert States(g0, trace)[i] == States(g0, prefix)[i];
    if i < |prefix| {
      FollowsAt(g0, lines, prefix, i);
      assert prefix[i] == trace[i];
      assert States(g0, trace)[i + 1] == States(g0, prefix)[i + 1];
    }
  }

  /** Every line keeps the table closed when it starts closed. */
  lemma LineKeepsClosed(g: Adjacency, q: Request, r: LineResult)
    requires GraphSpec.Closed(g) && LineSpec(g, q, r)
    ensures GraphSpec.Closed(Next(g, r))
  {
  }

  /** A run from a closed table passes through closed tables only. */
  lemma {:induction false} RunKeepsClosed(g0: Adjacency, lines: seq<Request>, trace: seq<LineResult>)
    requires GraphSpec.Closed(g0) && Follows(g0, lines, trace)
    ensures forall i :: 0 <= i <= |trace| ==> GraphSpec.Closed(States(g0, trace)[i])
    decreases |trace|
  {
    if trace != [] {
      var prefix := trace[..|trace| - 1];
      RunKeepsClosed(g0, lines, prefix);
      var gs := States(g0, prefix);
      LineKeepsClosed(gs[|prefix|], lines[|prefix|], trace[|prefix|]);
      assert States(g0, trace) == gs + [Next(gs[|prefix|], trace[|prefix|])];
    }
  }

  class GraphOperations {
    const graph: Graph
    const tracking: TimeTracking

    /** An operation layer over g with a fresh clock. */
    constructor (g: Graph)
      ensures graph == g && fresh(tracking) && fresh(tracking.lamport)
      ensures tracking.lamport.clock == 0
    {
      graph := g;
      tracking := new TimeTracking();
    }

    method AddVertex(v: Vertex) returns (result: bool)
      modifies graph, tracking.lamport
      ensures result == (v !in old(graph.adj))
      ensures graph.adj == GraphSpec.WithVertex(old(graph.adj), v)
      ensures tracking.lamport.clock == old(tracking.lamport.clock) + 1
    {
      result := graph.AddVertex(v);
      var lamportTime := tracking.GetLamportTimes();
    }

    method AddEdge(v1: Vertex, v2: Vertex) returns (result: bool)
      modifies graph, tracking.lamport
      ensures result == (v1 in old(graph.adj) && v2 in old(graph.adj))
      ensures graph.adj == GraphSpec.WithEdge(old(graph.adj), v1, v2)
      ensures tracking.lamport.clock == old(tracking.lamport.clock) + 1
    {
      result := graph.AddEdge(v1, v2);
      var lamportTime := tracking.GetLamportTimes();
    }

    method RemoveVertex(v: Vertex) returns (result: bool)
      modifies graph, tracking.lamport
      ensures result == (v in old(graph.adj))
      ensures graph.adj == GraphSpec.WithoutVertex(old(graph.adj), v)
      ensures tracking.lamport.clock == old(tracking.lamport.clock) + 1
    {
      result := graph.RemoveVertex(v);
      var lamportTime := tracking.GetLamportTimes();
    }

    method RemoveEdge(v1: Vertex, v2: Vertex) returns (result: bool)
      modifies graph, tracking.lamport
      ensures result == (v1 in old(graph.adj) && v2 in old(graph.adj))
      ensures graph.adj == GraphSpec.WithoutEdge(old(graph.adj), v1, v2)
      ensures tracking.lamport.clock == old(tracking.lamport.clock) + 1
    {
      result := graph.RemoveEdge(v1, v2);
      var lamportTime := tracking.GetLamportTimes();
    }

    method HasVertex(v: Vertex) returns (result: bool)
      modifies tracking.lamport
      ensures result == (v in graph.adj)
      ensures tracking.lamport.clock == old(tracking.lamport.clock) + 1
    {
      result := graph.HasVertex(v);
      var lamportTime := tracking.GetLamportTimes();
    }

    method HasEdge(v1: Vertex, v2: Vertex) returns (result: bool)
      modifies tracking.lamport
      ensures result == GraphSpec.HasEdge(graph.adj, v1, v2)
      ensures tracking.lamport.clock == old(tracking.lamport.clock) + 1
    {
      result := graph.HasEdge(v1, v2);
      var lamportTime := tracking.GetLamportTimes();
    }

    /** True iff every consecutive pair is an edge; stops at the first missing one. */
    method HasPath(vertices: seq<Vertex>) returns (result: bool)
      modifies tracking.lamport
      ensures result == GraphSpec.Chained(graph.adj, vertices)
      ensures tracking.lamport.clock == old(tracking.lamport.clock) + EdgeChecks(graph.adj, vertices)
    {
      var i := 0;
      while i < |vertices| - 1
        invariant i == 0 || i < |vertices|
        invariant forall j :: 0 <= j < i ==> GraphSpec.HasEdge(graph.adj, vertices[j], vertices[j + 1])
        invariant tracking.lamport.clock == old(tracking.lamport.clock) + i
      {
        var present := HasEdge(vertices[i], vertices[i + 1]);
        if !present {
          EdgeChecksPrefix(graph.adj, vertices, i);
          return false;
        }
        i := i + 1;
      }
      EdgeChecksPrefix(graph.adj, vertices, i);
      return true;
    }

    method GetNeighbors(v: Vertex) returns (result: Option<set<Vertex>>)
      modifies tracking.lamport
      ensures result == if v in graph.adj then Some(graph.adj[v]) else None
      ensures tracking.lamport.clock == old(tracking.lamport.clock) + 1
    {
      result := graph.GetNeighbors(v);
      var lamportTime := tracking.GetLamportTimes();
    }

    method GetAllVertices() returns (result: set<Vertex>)
      modifies tracking.lamport
      ensures result == graph.adj.Keys
      ensures tracking.lamport.clock == old(tracking.lamport.clock) + 1
    {
      result := graph.GetAllVertices();
      var lamportTime := tracking.GetLamportTimes();
    }

    /** Every pair (v, e) with e a neighbour of v, once each; as many as the neighbour sets hold. */
    method GetAllEdges() returns (edges: seq<Edge>)
      modifies tracking.lamport
      ensures ListsEdges(graph.adj, edges)
      ensures |edges| == Degrees(graph.adj, graph.adj.Keys)
      ensures tracking.lamport.clock == old(tracking.lamport.clock) + 1
    {
      var g := graph.adj;
      edges := [];
      var pending := g.Keys;
      while pending != {}
        invariant pending <= g.Keys
        invariant forall e :: e in edges <==> e.0 in g.Keys - pending && e.1 in g[e.0]
        invariant Distinct(edges)
        invariant |edges| == Degrees(g, g.Keys - pending)
        invariant tracking.lamport.clock == old(tracking.lamport.clock)
        decreases pending
      {
        var vert :| vert in pending;
        ghost var done := g.Keys - pending;
        ghost var before := edges;
        edges := AppendEdgesOf(edges, vert, g[vert]);
        DistinctConcat(before, edges[|before|..]);
        assert edges == before + edges[|before|..];
        DegreesSplit(g, done + {vert}, vert);
        assert done + {vert} - {vert} == done;
        pending := pending - {vert};
        assert g.Keys - pending == done + {vert};
      }
      assert g.Keys - pending == g.Keys;
      var lamportTime := tracking.GetLamportTimes();
    }

    /**
     * `get_shortest_path` as written: the comprehension at its start reads
     * `self.graph`, an attribute this class never sets, so every call raises
     * `AttributeError` before searching and before the clock ticks.
     */
    method GetShortestPathAsWritten(start: Vertex, end: Vertex) returns (r: Outcome<Option<seq<Vertex>>>)
      ensures r == Raised(AttributeError)
    {
      return Raised(AttributeError);
    }

    /**
     * `get_shortest_path` as intended: snapshot the table, search it, then tick;
     * a `KeyError` from the search propagates before the tick.
     */
    method GetShortestPath(start: Vertex, end: Vertex) returns (r: Outcome<Option<seq<Vertex>>>)
      modifies tracking.lamport
      ensures Answers(graph.adj, start, end, r)
      ensures tracking.lamport.clock == old(tracking.lamport.clock) + (if r.Ok? then 1 else 0)
    {
      var snapshot := map v | v in graph.adj :: graph.adj[v];
      assert snapshot == graph.adj;
      var search := BfsShortestPath(snapshot, start, end);
      match search {
        case Missing(k) =>
          return Raised(KeyError(k));
        case Found(p) =>
          r := Ok(Some(p));
        case NoPath =>
          r := Ok(None);
      }
      var lamportTime := tracking.GetLamportTimes();
    }

    /** The `match` of the `for line in commands` loop for one parsed line. */
    method ExecuteLine(q: Request) returns (r: LineResult)
      modifies graph, tracking.lamport
      ensures LineSpec(old(graph.adj), q, r)
      ensures graph.adj == Next(old(graph.adj), r)
      ensures tracking.lamport.clock == old(tracking.lamport.clock) + (if r.Done? then r.ticks else 0)
    {
      if q.verb.None? {
        return Done(graph.adj, [], 0);
      }
      var c, a := q.verb.value, q.args;
      if |a| < Arity(c) {
        return Crashed(IndexError);
      }
      match c
      case AddVert =>
        var result := AddVertex(a[0]);
        r := Done(graph.adj, [Line(c, [a[0]], Status(result))], 1);
      case AddEdge =>
        var result := AddEdge(a[0], a[1]);
        r := Done(graph.adj, [Line(c, [a[0], a[1]], Status(result))], 1);
      case RemVert =>
        var result := RemoveVertex(a[0]);
        r := Done(graph.adj, [Line(c, [a[0]], Status(result))], 1);
      case RemEdge =>
        var result := RemoveEdge(a[0], a[1]);
        r := Done(graph.adj, [Line(c, [a[0], a[1]], Status(result))], 1);
      case HasVert =>
        var result := HasVertex(a[0]);
        r := Done(graph.adj, [Line(c, [a[0]], Truth(result))], 1);
      case HasEdge =>
        var result := HasEdge(a[0], a[1]);
        r := Done(graph.adj, [Line(c, [a[0], a[1]], Truth(result))], 1);
      case HasPath =>
        var result := HasPath(a);
        r := Done(graph.adj, [Line(c, a, Truth(result))], EdgeChecks(graph.adj, a));
      case GetHood =>
        var neighborhood := GetNeighbors(a[0]);
        r := Done(graph.adj, [Line(c, [a[0]], Neighborhood(neighborhood))], 1);
      case GetSssp =>
        var path := GetShortestPath(a[0], a[1]);
        if path.Raised? {
          r := Crashed(path.failure);
        } else {
          r := Done(graph.adj, [Line(c, [a[0], a[1]], ShortestPath(path.value))], 1);
        }
      case GetVrts =>
        var verts := GetAllVertices();
        r := Done(graph.adj, [Line(c, [], Vertices(verts))], 1);
      case GetEdgs =>
        var edges := GetAllEdges();
        r := Done(graph.adj, [Line(c, [], Edges(edges))], 1);
    }

    /** One iteration of the loop: execute the next request, extending the trace by its result. */
    method RunStep(ghost g0: Adjacency, qs: seq<Request>, ghost trace: seq<LineResult>, i: nat) returns (r: LineResult)
      requires Follows(g0, qs, trace) && i == |trace| < |qs|
      requires graph.adj == States(g0, trace)[|trace|]
      modifies graph, tracking.lamport
      ensures Follows(g0, qs, trace + [r])
      ensures graph.adj == States(g0, trace + [r])[|trace| + 1]
      ensures Outputs(trace + [r]) == Outputs(trace) + (if r.Done? then r.out else [])
      ensures tracking.lamport.clock == old(tracking.lamport.clock) + Ticks(trace + [r]) - Ticks(trace)
    {
      r := ExecuteLine(qs[i]);
      FollowsExtend(g0, qs, trace, r);
    }

    /**
     * The `for line in commands` loop over the tokenized lines: the output
     * lines of every executed line in order, and the exception that ended the
     * run early, if any.
     */
    method RunLines(qs: seq<Request>) returns (out: seq<OutputLine>, failure: Option<Failure>, ghost trace: seq<LineResult>)
      modifies graph, tracking.lamport
      ensures IsRun(old(graph.adj), qs, trace)
      ensures graph.adj == States(old(graph.adj), trace)[|trace|]
      ensures out == Outputs(trace)
      ensures failure.Some? <==> trace != [] && trace[|trace| - 1].Crashed?
      ensures failure.Some? ==> failure.value == trace[|trace| - 1].failure
      ensures tracking.lamport.clock == old(tracking.lamport.clock) + Ticks(trace)
    {
      ghost var g0 := graph.adj;
      out, failure, trace := [], None, [];
      var i := 0;
      while i < |qs|
        invariant i == |trace| <= |qs|
        invariant Follows(g0, qs, trace)
        invariant forall k :: 0 <= k < |trace| ==> trace[k].Done?
        invariant graph.adj == States(g0, trace)[|trace|]
        invariant out == Outputs(trace)
        invariant tracking.lamport.clock == old(tracking.lamport.clock) + Ticks(trace)
        invariant failure == None
      {
        var r := RunStep(g0, qs, trace, i);
        ghost var prev := trace;
        trace := trace + [r];
        assert trace[..|trace| - 1] == prev;
        if r.Crashed? {
          return out, Some(r.failure), trace;
        }
        out := out + r.out;
        i := i + 1;
      }
    }

    /** `execute_commands` over the lines of a command file: parse each line, then run them. */
    method ExecuteCommands(lines: seq<string>) returns (out: seq<OutputLine>, failure: Option<Failure>, ghost trace: seq<LineResult>)
      modifies graph, tracking.lamport
      ensures IsRun(old(graph.adj), Requests(lines), trace)
      ensures graph.adj == States(old(graph.adj), trace)[|trace|]
      ensures out == Outputs(trace)
      ensures failure.Some? <==> trace != [] && trace[|trace| - 1].Crashed?
      ensures failure.Some? ==> failure.value == trace[|trace| - 1].failure
      ensures tracking.lamport.clock == old(tracking.lamport.clock) + Ticks(trace)
    {
      out, failure, trace := RunLines(Requests(lines));
    }
  }

  /**
   * The as-written `get_shortest_path` never answers, even where the search
   * has an answer: on the one-vertex table, from "a" to "a".
   */
  lemma ShortestPathAsWrittenNeverAnswers()
    ensures forall g, s, e :: !Answers(g, s, e, Raised(AttributeError))
    ensures Answers(map["a" := {}], "a", "a", Ok(Some(["a"])))
  {
    var g: Adjacency := map["a" := {}];
    forall w | IsPath(g, w, "a", "a")
      ensures 1 <= |w|
    {
    }
    assert IsPath(g, ["a"], "a", "a");
  }
}
