/**
 * The shard servicer: a graph and its operation layer behind the gRPC
 * methods, the loading of the shard's initial data, and the per-command
 * dispatch of `ExecuteCommands`, whose results are strings.  Messages are
 * modelled as datatypes; the text of a set, a path or an exception is kept
 * as the value it prints.
 */
module Server {
  import opened Types
  import GraphSpec
  import opened GraphStore
  import opened Operations
  import opened Clocks

  /** A `Command` message: the verb string and its parameters. */
  datatype Command = Command(operation: string, parameters: seq<string>)

  /** The message of an `OperationResponse`: a fixed sentence, or `str(e)` of a caught exception. */
  datatype Message = Said(text: string) | Exception(failure: Failure)

  datatype OperationResponse = OperationResponse(success: bool, message: Message)

  /** The `time` of a `PathResponse`: a measured duration, or the -1 of the error path. */
  datatype Timing = Elapsed | MinusOne

  datatype PathResponse = PathResponse(path: seq<Vertex>, time: Timing)

  /** The result string of one command. */
  datatype Reply =
    | Word(w: string)                        // 'success', 'fail', 'True', 'False', 'unknown command', ...
    | NeighborsText(n: Option<set<Vertex>>)  // str(neighborhood)
    | PathText(p: Option<seq<Vertex>>)       // str(path) + ' in ... seconds'
    | ErrorText(f: Failure)                  // 'error: ' + str(e)
    | ListText(vs: set<Vertex>)              // str(response.vertices), in the broker
    | MessageText(m: Message)                // response.message, in the broker
    | BrokerErrorText(f: Failure)            // 'Error: ' + str(e), in the broker

  datatype CommandResult = CommandResult(operation: string, result: Reply)

  // ---------------------------------------------------------------------------
  // The placeholder insert and the initial data

  /**
   * The table after the servicer's `AddEdge`: the strict insert, then a key
   * for each endpoint that is not yet a vertex.
   */
  function PlaceholderAddEdge(g: Adjacency, v1: Vertex, v2: Vertex): (r: Adjacency)
    ensures r.Keys == g.Keys + {v1, v2}
    ensures forall a, b :: GraphSpec.HasEdge(r, a, b) <==>
      GraphSpec.HasEdge(g, a, b) || (a == v1 && b == v2 && v1 in g && v2 in g)
    ensures GraphSpec.Closed(g) ==> GraphSpec.Closed(r)
  {
    GraphSpec.WithVertex(GraphSpec.WithVertex(GraphSpec.WithEdge(g, v1, v2), v1), v2)
  }

  /**
   * One entry of `load_initial_data`: `add_vertex(v)`, then `add_edge(v, e)`
   * for each e, which stores e exactly when e is a vertex by then.
   */
  function LoadEntry(g: Adjacency, v: Vertex, es: set<Vertex>): (r: Adjacency)
    ensures r.Keys == g.Keys + {v}
    ensures forall u :: u in g && u != v ==> r[u] == g[u]
  {
    var g1 := GraphSpec.WithVertex(g, v);
    g1[v := g1[v] + (es * g1.Keys)]
  }

  /** The table after loading the entries of `keys`, in order. */
  function LoadedTable(g: Adjacency, keys: seq<Vertex>, values: map<Vertex, set<Vertex>>): Adjacency
    requires forall j :: 0 <= j < |keys| ==> keys[j] in values
    decreases |keys|
  {
    if keys == [] then g else
      var v := keys[|keys| - 1];
      LoadEntry(LoadedTable(g, keys[..|keys| - 1], values), v, values[v])
  }

  /** The clock ticks of loading `keys`: one `add_vertex` and one `add_edge` per listed edge. */
  function LoadTicks(keys: seq<Vertex>, values: map<Vertex, set<Vertex>>): nat
    requires forall j :: 0 <= j < |keys| ==> keys[j] in values
    decreases |keys|
  {
    if keys == [] then 0 else
      var v := keys[|keys| - 1];
      LoadTicks(keys[..|keys| - 1], values) + 1 + |values[v]|
  }

  /** Loading the first i + 1 keys is loading the first i, then key i. */
  lemma LoadedStep(g: Adjacency, keys: seq<Vertex>, values: map<Vertex, set<Vertex>>, i: nat)
    requires forall j :: 0 <= j < |keys| ==> keys[j] in values
    requires i < |keys|
    ensures LoadedTable(g, keys[..i + 1], values) == LoadEntry(LoadedTable(g, keys[..i], values), keys[i], values[keys[i]])
    ensures LoadTicks(keys[..i + 1], values) == LoadTicks(keys[..i], values) + 1 + |values[keys[i]]|
  {
    assert keys[..i + 1][..i] == keys[..i];
  }

  /** Loading an entry whose vertex is new stores the edges to the vertices present then, itself included. */
  lemma LoadEntryFresh(g: Adjacency, v: Vertex, es: set<Vertex>)
    requires v !in g
    ensures LoadEntry(g, v, es) == g[v := es * (g.Keys + {v})]
  {
    var g1 := GraphSpec.WithVertex(g, v);
    assert g1 == g[v := {}];
    assert g1.Keys == g.Keys + {v};
    assert g1[v] + (es * g1.Keys) == es * (g.Keys + {v});
  }

  /** Loading keeps the vertices already present and adds exactly the data keys. */
  lemma {:induction false} LoadedKeys(g: Adjacency, keys: seq<Vertex>, values: map<Vertex, set<Vertex>>)
    requires forall j :: 0 <= j < |keys| ==> keys[j] in values
    ensures forall v :: v in LoadedTable(g, keys, values) <==> v in g || v in keys
    decreases |keys|
  {
    if keys != [] {
      var n := |keys|;
      LoadedKeys(g, keys[..n - 1], values);
      assert keys == keys[..n - 1] + [keys[n - 1]];
    }
  }

  /**
   * Loading into an empty table keeps the edge (v, e) exactly when e is a
   * data key at or before v in iteration order.
   */
  lemma {:induction false} LoadedEdges(keys: seq<Vertex>, values: map<Vertex, set<Vertex>>)
    requires Distinct(keys)
    requires forall j :: 0 <= j < |keys| ==> keys[j] in values
    ensures forall j :: 0 <= j < |keys| ==> keys[j] in LoadedTable(map[], keys, values)
    ensures forall j, e :: 0 <= j < |keys| ==>
      (e in LoadedTable(map[], keys, values)[keys[j]] <==> e in values[keys[j]] && e in keys[..j + 1])
    decreases |keys|
  {
    LoadedKeys(map[], keys, values);
    if keys != [] {
      var n := |keys|;
      var p := keys[..n - 1];
      var v := keys[n - 1];
      DistinctInit(keys);
      LoadedEdges(p, values);
      assert keys == p + [v];
      LoadedEdgesStep(p, v, values);
    }
  }

  /** The inductive step of `LoadedEdges`: from the table of p to the table of p + [v]. */
  lemma LoadedEdgesStep(p: seq<Vertex>, v: Vertex, values: map<Vertex, set<Vertex>>)
    requires v !in p && v in values
    requires forall j :: 0 <= j < |p| ==> p[j] in values
    requires forall j :: 0 <= j < |p| ==> p[j] in LoadedTable(map[], p, values)
    requires forall j, e :: 0 <= j < |p| ==>
      (e in LoadedTable(map[], p, values)[p[j]] <==> e in values[p[j]] && e in p[..j + 1])
    ensures var keys := p + [v];
      forall j :: 0 <= j < |keys| ==> keys[j] in LoadedTable(map[], keys, values)
    ensures var keys := p + [v];
      forall j, e :: 0 <= j < |keys| ==>
        (e in LoadedTable(map[], keys, values)[keys[j]] <==> e in values[keys[j]] && e in keys[..j + 1])
  {
    var keys := p + [v];
    LoadedKeys(map[], p, values);
    LoadedKeys(map[], keys, values);
    var t' := LoadedTable(map[], p, values);
    assert keys[..|keys| - 1] == p;
    assert LoadedTable(map[], keys, values) == LoadEntry(t', v, values[v]);
    LoadEntryFresh(t', v, values[v]);
    LoadedEdgesLast(p, v, values, t');
  }

  /** The edges of the table of p + [v], given those of the table t' of p. */
  lemma LoadedEdgesLast(p: seq<Vertex>, v: Vertex, values: map<Vertex, set<Vertex>>, t': Adjacency)
    requires v !in p && v in values
    requires forall j :: 0 <= j < |p| ==> p[j] in values
    requires forall x :: x in t' <==> x in p
    requires forall j, e :: 0 <= j < |p| ==> (e in t'[p[j]] <==> e in values[p[j]] && e in p[..j + 1])
    ensures var keys, t := p + [v], t'[v := values[v] * (t'.Keys + {v})];
      forall j, e :: 0 <= j < |keys| ==> (e in t[keys[j]] <==> e in values[keys[j]] && e in keys[..j + 1])
  {
    var keys, t := p + [v], t'[v := values[v] * (t'.Keys + {v})];
    forall j, e | 0 <= j < |keys|
      ensures e in t[keys[j]] <==> e in values[keys[j]] && e in keys[..j + 1]
    {
      if j < |p| {
        assert keys[j] == p[j] && keys[j] != v;
        assert keys[..j + 1] == p[..j + 1];
      } else {
        assert keys[..j + 1] == p + [v];
      }
    }
  }

  /**
   * Loading into an empty table makes exactly the data keys vertices and
   * leaves no dangling edge.
   */
  lemma LoadedFromEmpty(keys: seq<Vertex>, values: map<Vertex, set<Vertex>>)
    requires Distinct(keys)
    requires forall j :: 0 <= j < |keys| ==> keys[j] in values
    ensures forall v :: v in LoadedTable(map[], keys, values) <==> v in keys
    ensures GraphSpec.Closed(LoadedTable(map[], keys, values))
  {
    LoadedKeys(map[], keys, values);
    LoadedEdges(keys, values);
    var t := LoadedTable(map[], keys, values);
    forall a, b | GraphSpec.HasEdge(t, a, b)
      ensures b in t
    {
      var j :| 0 <= j < |keys| && keys[j] == a;
      assert b in keys[..j + 1];
    }
  }

  /** The table once the inner loop has offered the edges `done` from v. */
  function EdgesOffered(g1: Adjacency, v: Vertex, done: set<Vertex>): Adjacency
    requires v in g1
  {
    g1[v := g1[v] + (done * g1.Keys)]
  }

  /** One `add_edge(v, e)` of the inner loop stores e exactly when e is a vertex. */
  lemma LoadEdgeStep(g1: Adjacency, v: Vertex, done: set<Vertex>, e: Vertex)
    requires v in g1
    ensures GraphSpec.WithEdge(EdgesOffered(g1, v, done), v, e) == EdgesOffered(g1, v, done + {e})
  {
    if e in g1 {
      assert g1[v] + (done * g1.Keys) + {e} == g1[v] + ((done + {e}) * g1.Keys);
    } else {
      assert (done + {e}) * g1.Keys == done * g1.Keys;
    }
  }

  /** Before the inner loop nothing is offered, and afterwards all the edges are. */
  lemma EdgesOfferedEnds(g1: Adjacency, v: Vertex, edges: set<Vertex>)
    requires v in g1
    ensures EdgesOffered(g1, v, {}) == g1
    ensures EdgesOffered(g1, v, edges) == g1[v := g1[v] + (edges * g1.Keys)]
  {
    assert {} * g1.Keys == {};
    assert g1[v] + {} == g1[v];
  }

  // ---------------------------------------------------------------------------
  // The per-command dispatch

  /**
   * The verb `execute_single_command` dispatches on: has-path,
   * get-all-vertices and get-all-edges fall through to "unknown command".
   */
  function Handled(operation: string): Option<Commands> {
    var v := FromValue(operation);
    if v.Some? && (v.value.HasPath? || v.value.GetVrts? || v.value.GetEdgs?) then None else v
  }

  /** Exactly eight of the eleven verbs are dispatched, each to its own command. */
  lemma HandledVerbs(c: Commands)
    ensures Handled(Value(c)).Some? <==> !(c.HasPath? || c.GetVrts? || c.GetEdgs?)
    ensures Handled(Value(c)).Some? ==> Handled(Value(c)).value == c
  {
    FromValueOfValue(c);
  }

  /** What the result string shows for a completed command's output line. */
  ghost predicate Shows(x: Rendered, reply: Reply) {
    match x
    case Status(ok) => reply == Word(StatusWord(ok))
    case Truth(b) => reply == Word(TruthWord(b))
    case Neighborhood(n) => reply == NeighborsText(n)
    case ShortestPath(p) => reply == PathText(p)
    case _ => false
  }

  /**
   * What one command does on table g: an unknown verb changes nothing; a
   * known one does what its command line does, and the result string shows
   * its output, or says "invalid parameters" for a missing parameter, or
   * "error: ..." for any other exception.
   */
  ghost predicate Served(g: Adjacency, verb: Option<Commands>, params: seq<string>, r: LineResult, reply: Reply) {
    match verb
    case None => r == Done(g, [], 0) && reply == Word("unknown command")
    case Some(c) =>
      && LineSpec(g, Request(verb, params), r)
      && match r
         case Crashed(f) => reply == (if f == IndexError then Word("invalid parameters") else ErrorText(f))
         case Done(_, out, _) => |out| == 1 && Shows(out[0].shown, reply)
  }

  /**
   * The kinds of result string: mutators answer "success" or "fail", the two
   * membership queries "True" or "False", each on the table before the call;
   * a missing parameter gives "invalid parameters" and changes nothing.
   */
  lemma ServedReplies(g: Adjacency, op: string, params: seq<string>, r: LineResult, reply: Reply)
    requires Served(g, Handled(op), params, r, reply)
    ensures Handled(op) == Some(AddVert) && |params| >= 1 ==> reply == Word(StatusWord(params[0] !in g))
    ensures Handled(op) == Some(RemVert) && |params| >= 1 ==> reply == Word(StatusWord(params[0] in g))
    ensures Handled(op) == Some(AddEdge) && |params| >= 2 ==> reply == Word(StatusWord(params[0] in g && params[1] in g))
    ensures Handled(op) == Some(RemEdge) && |params| >= 2 ==> reply == Word(StatusWord(params[0] in g && params[1] in g))
    ensures Handled(op) == Some(HasVert) && |params| >= 1 ==> reply == Word(TruthWord(params[0] in g))
    ensures Handled(op) == Some(HasEdge) && |params| >= 2 ==> reply == Word(TruthWord(GraphSpec.HasEdge(g, params[0], params[1])))
    ensures Handled(op).Some? && |params| < Arity(Handled(op).value) ==> reply == Word("invalid parameters") && Next(g, r) == g
  {
  }

  /** Every command keeps a closed table closed. */
  lemma ServedKeepsClosed(g: Adjacency, verb: Option<Commands>, params: seq<string>, r: LineResult, reply: Reply)
    requires GraphSpec.Closed(g) && Served(g, verb, params, r, reply)
    ensures GraphSpec.Closed(Next(g, r))
  {
    if verb.Some? {
      LineKeepsClosed(g, Request(verb, params), r);
    }
  }

  /** The verb each command dispatches on. */
  function Verbs(commands: seq<Command>): (verbs: seq<Option<Commands>>)
    ensures |verbs| == |commands|
  {
    seq(|commands|, i requires 0 <= i < |commands| => Handled(commands[i].operation))
  }

  /**
   * A run of `ExecuteCommands` from table g0: one result per command so far,
   * in order, each echoing its command's verb and served, by the verb `verbs`
   * gives for it, on the table the previous commands left.
   */
  ghost predicate ServedAll(g0: Adjacency, verbs: seq<Option<Commands>>, commands: seq<Command>, trace: seq<LineResult>, results: seq<CommandResult>)
    decreases |trace|
  {
    && |trace| == |results| <= |commands| == |verbs|
    && (trace != [] ==>
          var n := |trace| - 1;
          && ServedAll(g0, verbs, commands, trace[..n], results[..n])
          && results[n].operation == commands[n].operation
          && Served(States(g0, trace[..n])[n], verbs[n], commands[n].parameters, trace[n], results[n].result))
  }

  /** Serving the next command extends a run by its result. */
  lemma ServedAllExtend(g0: Adjacency, verbs: seq<Option<Commands>>, commands: seq<Command>, trace: seq<LineResult>, results: seq<CommandResult>, r: LineResult, reply: Reply)
    requires ServedAll(g0, verbs, commands, trace, results) && |trace| < |commands|
    requires Served(States(g0, trace)[|trace|], verbs[|trace|], commands[|trace|].parameters, r, reply)
    ensures ServedAll(g0, verbs, commands, trace + [r], results + [CommandResult(commands[|trace|].operation, reply)])
    ensures States(g0, trace + [r]) == States(g0, trace) + [Next(States(g0, trace)[|trace|], r)]
  {
    assert (trace + [r])[..|trace|] == trace;
    assert (results + [CommandResult(commands[|trace|].operation, reply)])[..|trace|] == results;
  }

  /** The i-th result of a run is command i served on the i-th table. */
  lemma {:induction false} ServedAllAt(g0: Adjacency, verbs: seq<Option<Commands>>, commands: seq<Command>, trace: seq<LineResult>, results: seq<CommandResult>, i: nat)
    requires ServedAll(g0, verbs, commands, trace, results) && i < |trace|
    ensures results[i].operation == commands[i].operation
    ensures Served(States(g0, trace)[i], verbs[i], commands[i].parameters, trace[i], results[i].result)
    decreases |trace|
  {
    var n := |trace| - 1;
    assert States(g0, trace)[i] == States(g0, trace[..n])[i];
    if i < n {
      ServedAllAt(g0, verbs, commands, trace[..n], results[..n], i);
      assert trace[..n][i] == trace[i] && results[..n][i] == results[i];
    }
  }

  /** A run from a closed table passes through closed tables only. */
  lemma {:induction false} ServedAllKeepsClosed(g0: Adjacency, verbs: seq<Option<Commands>>, commands: seq<Command>, trace: seq<LineResult>, results: seq<CommandResult>)
    requires GraphSpec.Closed(g0) && ServedAll(g0, verbs, commands, trace, results)
    ensures forall i :: 0 <= i <= |trace| ==> GraphSpec.Closed(States(g0, trace)[i])
    decreases |trace|
  {
    if trace != [] {
      var n := |trace| - 1;
      ServedAllKeepsClosed(g0, verbs, commands, trace[..n], results[..n]);
      var gs := States(g0, trace[..n]);
      ServedKeepsClosed(gs[n], verbs[n], commands[n].parameters, trace[n], results[n].result);
      assert States(g0, trace) == gs + [Next(gs[n], trace[n])];
    }
  }

  /** The clock ticks of a trace extended by one result. */
  lemma TicksSnoc(trace: seq<LineResult>, r: LineResult)
    ensures Ticks(trace + [r]) == Ticks(trace) + (if r.Done? then r.ticks else 0)
  {
    assert (trace + [r])[..|trace|] == trace;
  }

  /** The message `RemoveVertex` answers with. */
  function RemoveVertexMessage(success: bool): string {
    if success then "Vertex removed successfully" else "Failed to remove vertex"
  }

  class GraphServicer {
    const graph: Graph
    const operations: GraphOperations

    /** The operation layer works on this servicer's graph. */
    ghost predicate Valid() {
      operations.graph == graph
    }

    /** `GraphServicer(initial_data)`: an empty graph and a fresh operation layer, then the data loaded. */
    constructor (initialData: Dict<set<Vertex>>)
      requires initialData.Valid()
      ensures Valid() && fresh(graph) && fresh(operations.tracking.lamport)
      ensures graph.adj == LoadedTable(map[], initialData.keys, initialData.values)
      ensures operations.tracking.lamport.clock == LoadTicks(initialData.keys, initialData.values)
    {
      var g := new Graph();
      graph := g;
      operations := new GraphOperations(g);
      new;
      LoadInitialData(initialData);
    }

    /** A modelling device for the broker's stub: a servicer over a shard's current table, with nothing loaded. */
    constructor Over(table: Adjacency)
      ensures Valid() && fresh(graph) && fresh(operations.tracking.lamport)
      ensures graph.adj == table
    {
      var g := new Graph.FromShared(table);
      graph := g;
      operations := new GraphOperations(g);
    }

    /** `load_initial_data`: for each entry in order, add the vertex, then each of its edges. */
    method LoadInitialData(data: Dict<set<Vertex>>)
      requires Valid() && data.Valid()
      modifies graph, operations.tracking.lamport
      ensures graph.adj == LoadedTable(old(graph.adj), data.keys, data.values)
      ensures operations.tracking.lamport.clock == old(operations.tracking.lamport.clock) + LoadTicks(data.keys, data.values)
    {
      ghost var g0 := graph.adj;
      ghost var c0 := operations.tracking.lamport.clock;
      var i := 0;
      while i < |data.keys|
        invariant i <= |data.keys|
        invariant graph.adj == LoadedTable(g0, data.keys[..i], data.values)
        invariant operations.tracking.lamport.clock == c0 + LoadTicks(data.keys[..i], data.values)
      {
        var vertex := data.keys[i];
        LoadedStep(g0, data.keys, data.values, i);
        LoadEntryInto(vertex, data.values[vertex]);
        i := i + 1;
      }
      assert data.keys[..i] == data.keys;
    }

    /** One iteration of the outer loop: the vertex, then its edges. */
    method LoadEntryInto(vertex: Vertex, edges: set<Vertex>)
      requires Valid()
      modifies graph, operations.tracking.lamport
      ensures graph.adj == LoadEntry(old(graph.adj), vertex, edges)
      ensures operations.tracking.lamport.clock == old(operations.tracking.lamport.clock) + 1 + |edges|
    {
      var added := operations.AddVertex(vertex);
      AddEdgesFrom(vertex, edges);
    }

    /** The inner `for edge in edges` loop: each `add_edge` stores its edge when the target is a vertex. */
    method AddEdgesFrom(vertex: Vertex, edges: set<Vertex>)
      requires Valid() && vertex in graph.adj
      modifies graph, operations.tracking.lamport
      ensures graph.adj == old(graph.adj)[vertex := old(graph.adj)[vertex] + (edges * old(graph.adj).Keys)]
      ensures operations.tracking.lamport.clock == old(operations.tracking.lamport.clock) + |edges|
    {
      ghost var g1 := graph.adj;
      EdgesOfferedEnds(g1, vertex, edges);
      var pending := edges;
      ghost var done: set<Vertex> := {};
      while pending != {}
        invariant done == edges - pending
        invariant graph.adj == EdgesOffered(g1, vertex, done)
        invariant operations.tracking.lamport.clock + |pending| == old(operations.tracking.lamport.clock) + |edges|
        decreases pending
      {
        var edge :| edge in pending;
        LoadEdgeStep(g1, vertex, done, edge);
        var stored := operations.AddEdge(vertex, edge);
        pending := pending - {edge};
        done := done + {edge};
      }
      assert done == edges;
    }

    method AddVertex(v: Vertex) returns (response: OperationResponse)
      requires Valid()
      modifies graph, operations.tracking.lamport
      ensures response.success == (v !in old(graph.adj))
      ensures response.message == Said(if response.success then "Vertex added successfully" else "Failed to add vertex")
      ensures graph.adj == GraphSpec.WithVertex(old(graph.adj), v)
      ensures operations.tracking.lamport.clock == old(operations.tracking.lamport.clock) + 1
    {
      var success := operations.AddVertex(v);
      var message := if success then "Vertex added successfully" else "Failed to add vertex";
      return OperationResponse(success, Said(message));
    }

    method RemoveVertex(v: Vertex) returns (response: OperationResponse)
      requires Valid()
      modifies graph, operations.tracking.lamport
      ensures response.success == (v in old(graph.adj))
      ensures response.message == Said(RemoveVertexMessage(response.success))
      ensures graph.adj == GraphSpec.WithoutVertex(old(graph.adj), v)
      ensures operations.tracking.lamport.clock == old(operations.tracking.lamport.clock) + 1
    {
      var success := operations.RemoveVertex(v);
      var message := RemoveVertexMessage(success);
      return OperationResponse(success, Said(message));
    }

    method HasVertex(v: Vertex) returns (value: bool)
      requires Valid()
      modifies operations.tracking.lamport
      ensures value == (v in graph.adj)
      ensures operations.tracking.lamport.clock == old(operations.tracking.lamport.clock) + 1
    {
      value := operations.HasVertex(v);
    }

    method GetAllVertices() returns (vertices: set<Vertex>)
      requires Valid()
      modifies operations.tracking.lamport
      ensures vertices == graph.adj.Keys
      ensures operations.tracking.lamport.clock == old(operations.tracking.lamport.clock) + 1
    {
      vertices := operations.GetAllVertices();
    }

    /**
     * The strict insert, then a placeholder vertex for each endpoint still
     * missing; success reports the insert alone, so it holds exactly when both
     * endpoints were already vertices.
     */
    method AddEdge(v1: Vertex, v2: Vertex) returns (response: OperationResponse)
      requires Valid()
      modifies graph, operations.tracking.lamport
      ensures response.success == (v1 in old(graph.adj) && v2 in old(graph.adj))
      ensures response.message == Said(if response.success then "Edge added successfully" else "Failed to add edge")
      ensures graph.adj == PlaceholderAddEdge(old(graph.adj), v1, v2)
      ensures operations.tracking.lamport.clock == old(operations.tracking.lamport.clock) + 3
        + (if v1 !in old(graph.adj) then 1 else 0)
        + (if v2 !in old(graph.adj) && v2 != v1 then 1 else 0)
    {
      var success := operations.AddEdge(v1, v2);
      var message := if success then "Edge added successfully" else "Failed to add edge";
      var present := operations.HasVertex(v1);
      if !present {
        var added := operations.AddVertex(v1);
      }
      present := operations.HasVertex(v2);
      if !present {
        var added := operations.AddVertex(v2);
      }
      return OperationResponse(success, Said(message));
    }

    method RemoveEdge(v1: Vertex, v2: Vertex) returns (response: OperationResponse)
      requires Valid()
      modifies graph, operations.tracking.lamport
      ensures response.success == (v1 in old(graph.adj) && v2 in old(graph.adj))
      ensures response.message == Said(if response.success then "Edge removed successfully" else "Failed to remove edge")
      ensures graph.adj == GraphSpec.WithoutEdge(old(graph.adj), v1, v2)
      ensures operations.tracking.lamport.clock == old(operations.tracking.lamport.clock) + 1
    {
      var success := operations.RemoveEdge(v1, v2);
      var message := if success then "Edge removed successfully" else "Failed to remove edge";
      return OperationResponse(success, Said(message));
    }

    method HasEdge(v1: Vertex, v2: Vertex) returns (value: bool)
      requires Valid()
      modifies operations.tracking.lamport
      ensures value == GraphSpec.HasEdge(graph.adj, v1, v2)
      ensures operations.tracking.lamport.clock == old(operations.tracking.lamport.clock) + 1
    {
      value := operations.HasEdge(v1, v2);
    }

    /** The neighbours of v, and the empty list both for an unknown v and for a v without neighbours. */
    method GetNeighbors(v: Vertex) returns (vertices: set<Vertex>)
      requires Valid()
      modifies operations.tracking.lamport
      ensures forall w :: w in vertices <==> GraphSpec.HasEdge(graph.adj, v, w)
      ensures v !in graph.adj ==> vertices == {}
      ensures operations.tracking.lamport.clock == old(operations.tracking.lamport.clock) + 1
    {
      var neighbors := operations.GetNeighbors(v);
      vertices := if neighbors.Some? && neighbors.value != {} then neighbors.value else {};
    }

    /**
     * The path the search finds, or the empty list when there is none; a
     * `KeyError` of the search propagates.
     */
    method GetShortestPath(start: Vertex, end: Vertex) returns (r: Outcome<PathResponse>)
      requires Valid()
      modifies operations.tracking.lamport
      ensures r.Ok? ==> r.value.time == Elapsed
      ensures r.Ok? ==> Answers(graph.adj, start, end, Ok(if r.value.path == [] then None else Some(r.value.path)))
      ensures r.Raised? ==> Answers(graph.adj, start, end, Raised(r.failure))
      ensures operations.tracking.lamport.clock == old(operations.tracking.lamport.clock) + (if r.Ok? then 1 else 0)
    {
      var path := operations.GetShortestPath(start, end);
      match path
      case Raised(f) =>
        return Raised(f);
      case Ok(p) =>
        return Ok(PathResponse(if p.Some? then p.value else [], Elapsed));
    }

    /**
     * `execute_single_command`: the result string of one command, and (as a
     * ghost) what the command did to the table.
     */
    method ExecuteSingleCommand(command: Command) returns (reply: Reply, ghost r: LineResult)
      requires Valid()
      modifies graph, operations.tracking.lamport
      ensures Served(old(graph.adj), Handled(command.operation), command.parameters, r, reply)
      ensures graph.adj == Next(old(graph.adj), r)
      ensures operations.tracking.lamport.clock == old(operations.tracking.lamport.clock) + (if r.Done? then r.ticks else 0)
    {
      var verb := Handled(command.operation);
      if verb.None? {
        return Word("unknown command"), Done(graph.adj, [], 0);
      }
      var result := operations.ExecuteLine(Request(verb, command.parameters));
      r := result;
      match result
      case Crashed(f) =>
        reply := if f == IndexError then Word("invalid parameters") else ErrorText(f);
      case Done(_, out, _) =>
        match out[0].shown
        case Status(ok) => reply := Word(StatusWord(ok));
        case Truth(b) => reply := Word(TruthWord(b));
        case Neighborhood(n) => reply := NeighborsText(n);
        case ShortestPath(p) => reply := PathText(p);
        case Vertices(_) => assert false;
        case Edges(_) => assert false;
    }

    /** `ExecuteCommands`: one result per command, in order, echoing each command's verb. */
    method ExecuteCommands(commands: seq<Command>) returns (results: seq<CommandResult>, ghost trace: seq<LineResult>)
      requires Valid()
      modifies graph, operations.tracking.lamport
      ensures ServedAll(old(graph.adj), Verbs(commands), commands, trace, results)
      ensures |results| == |commands|
      ensures forall i :: 0 <= i < |commands| ==> results[i].operation == commands[i].operation
      ensures graph.adj == States(old(graph.adj), trace)[|trace|]
      ensures operations.tracking.lamport.clock == old(operations.tracking.lamport.clock) + Ticks(trace)
    {
      ghost var g0 := graph.adj;
      ghost var verbs := Verbs(commands);
      results, trace := [], [];
      for i := 0 to |commands|
        invariant ServedAll(g0, verbs, commands, trace, results) && |trace| == i
        invariant forall k :: 0 <= k < i ==> results[k].operation == commands[k].operation
        invariant graph.adj == States(g0, trace)[|trace|]
        invariant operations.tracking.lamport.clock == old(operations.tracking.lamport.clock) + Ticks(trace)
      {
        var command := commands[i];
        var reply, r := ExecuteSingleCommand(command);
        assert verbs[i] == Handled(command.operation);
        ServedAllExtend(g0, verbs, commands, trace, results, r, reply);
        TicksSnoc(trace, r);
        results := results + [CommandResult(command.operation, reply)];
        trace := trace + [r];
      }
    }
  }
}
