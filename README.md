# A verified model of the sharded Python graph database

The system stores a directed graph as a dictionary from each vertex name to
the set of its out-neighbours. It is spread over several shard servers behind
one broker. This project models its core in Dafny and proves what each part
promises:

- **The graph store** (`GraphStore.Graph`) keeps the adjacency dictionary and
  updates it in place. Each method is specified by a pure function in
  `GraphSpec`: add a vertex, add an edge only between known vertices, remove a
  vertex and scrub it from every neighbour set, remove an edge in both
  directions.
- **The operation layer** (`Operations.GraphOperations`) delegates to the
  graph and ticks a Lamport clock (`Clocks`) once per call. `has_path` and
  `get_all_edges` run their own loops. `execute_commands` runs a command file
  line by line; `Text` models the tokenizing, `line.strip().split(' ')`.
- **Breadth-first search** (`PathFinding`) is a queue of paths with a visited
  set. It is proved to return a shortest simple path. When the queue runs
  empty, no path exists. A `KeyError` names a vertex reached before `end`.
- **The shard servicer** (`Server.GraphServicer`) loads the shard's initial
  data, answers the gRPC calls with response messages, and runs batches of
  commands whose results are strings.
- **The broker** (`Broker.BrokerServicer`) routes each vertex to shard
  `sum(ord(c)) % n`. It combines the owners' answers for edge calls, takes the
  union over all shards for vertex and neighbour listings, and collects a
  snapshot of every shard for shortest paths. It dispatches batches, forwarding
  the verbs it does not handle. A shard is a value: its table, and whether its
  server can be reached. An unreachable shard raises `grpc.RpcError`.
- **The data loader** (`DataLoader`) reads an edge list into a dictionary
  that keeps first-seen order. It splits that dictionary into numbered
  partitions, one per shard server.

Python's exceptions become the `Types.Outcome` datatype: a value or the
`Failure` raised instead. Python dictionaries whose order matters become
`Types.Dict`: keys in insertion order plus a map.

## Model

| member | source | states |
|---|---|---|
| Types.Dict.Put | data/data_loader.py:6-10 | `d[k] = x`: a new key is appended to the order and an existing key keeps its place; the map gets `k := x`; validity is kept |
| Types.EmptyDict | data/data_loader.py:2 | `{}` is a valid dict with no keys |
| GraphSpec.WithVertex | src/core/graph.py:12-17 | adding v adds the key v with an empty set when it is absent, changes no existing entry and no edge, and keeps the table closed |
| GraphSpec.WithEdge | src/core/graph.py:19-24 | the keys are unchanged, and u -> v is the only edge added, only when both u and v are keys; closedness is kept |
| GraphSpec.WithoutVertex | src/core/graph.py:26-33 | v leaves the keys and every neighbour set; an absent v changes nothing; exactly the edges touching v disappear; closedness is kept |
| GraphSpec.WithoutEdge | src/core/graph.py:35-41 | when both are keys, both u -> v and v -> u disappear and no other edge does; the keys are unchanged |
| GraphSpec.EdgeSet | src/core/graph.py:47-49 | the pairs (u, v) of the set are exactly those for which `has_edge(u, v)` holds |
| GraphSpec.SameEdgesSameGraph | tests/test_core.py:47 | two tables with the same vertices and the same edges are equal, which is the equality the tests compare |
| GraphSpec.Built | tests/test_core.py:35-42 | the table built from V and E has keys V and the edges of E that leave V |
| GraphSpec.AddAllVerticesBuilt | tests/test_core.py:37-39 | adding a list of vertices one by one adds exactly the vertices of the list |
| GraphSpec.AddAllEdgesBuilt | tests/test_core.py:41-42 | adding edges between known vertices one by one adds exactly those edges |
| GraphSpec.BuildingStepByStep | tests/test_core.py:35-42 | the tests' construction yields the table with exactly the listed vertices and edges |
| GraphSpec.RemoveEdgeFromBuilt | tests/test_core.py:74-94 | `remove_edge('A','B')` on a built table gives the table built without A -> B (and without B -> A) |
| GraphSpec.RemoveVertexFromBuilt | tests/test_core.py:121-141 | `remove_vertex('A')` on a built table gives the table built without A and without the edges touching A |
| GraphStore.Graph.constructor | src/core/graph.py:5-7 | `Graph()` starts with an empty table |
| GraphStore.Graph.FromShared | src/core/graph.py:5-9 | `Graph(shared_dict)` starts from the given table |
| GraphStore.Graph.AddVertex | src/core/graph.py:12-17 | answers True iff v was absent; the table becomes `WithVertex` of the old one |
| GraphStore.Graph.AddEdge | src/core/graph.py:19-24 | answers True iff both endpoints are keys; the table becomes `WithEdge` of the old one |
| GraphStore.Graph.RemoveVertex | src/core/graph.py:26-33 | answers True iff v was a key; the delete and the scrubbing loop leave `WithoutVertex` of the old table |
| GraphStore.Graph.RemoveEdge | src/core/graph.py:35-41 | answers True iff both are keys; the table becomes `WithoutEdge` of the old one |
| GraphStore.Graph.HasVertex | src/core/graph.py:43-45 | True iff v is a key |
| GraphStore.Graph.HasEdge | src/core/graph.py:47-49 | True iff v1 is a key and v2 is among its neighbours; False for an unknown v1 |
| GraphStore.Graph.GetNeighbors | src/core/graph.py:51-53 | `None` exactly for an unknown vertex; otherwise exactly its out-neighbours |
| GraphStore.Graph.GetAllVertices | src/core/graph.py:55-57 | exactly the keys of the table |
| PathFinding.BfsShortestPath | src/algorithms/path_finding.py:3-22 | a found path is a simple shortest path from start to end. An exhausted queue means every vertex reachable from start is a key and end is not among them. A `KeyError` names a non-key reached by a shortest simple path no longer than any path to end |
| PathFinding.EnqueueNeighbors | src/algorithms/path_finding.py:16-20 | the queue keeps its old contents as a prefix; it gains `path + [x]` for every unvisited neighbour x, and nothing else |
| PathFinding.DijkstraShortestPath | src/algorithms/path_finding.py:24-28 | the result satisfies the BFS specification on the weighted graph with its weights dropped |
| PathFinding.Unweighted | src/algorithms/path_finding.py:28 | the same keys, with u -> v exactly when v is a key of u's weight map |
| PathFinding.WeightsAreIgnored | src/algorithms/path_finding.py:24-28 | two weightings with the same key sets give the same search problem |
| PathFinding.ClosedSearchOutcome | src/algorithms/path_finding.py:3-22 | on a table without dangling edges, `KeyError` happens iff start is unknown and differs from end, and a path is found iff one exists |
| PathFinding.ClosedWalkEndsAtKey | src/algorithms/path_finding.py:16 | in a closed table every walk of two or more vertices ends at a key, so `graph[node]` cannot fail there |
| PathFinding.SameEndpointsGiveSingleton | src/algorithms/path_finding.py:4-12 | when start == end the answer is `[start]` |
| PathFinding.Reach | src/algorithms/path_finding.py:7-20 | under the loop invariant, every walk from start ends at a vertex expanded or queued no later than the walk's length, or is longer than the head of the queue |
| PathFinding.HeadIsNoLonger | src/algorithms/path_finding.py:7-9 | no walk to an unexpanded vertex is shorter than the head of the queue |
| PathFinding.FoundIsShortest | src/algorithms/path_finding.py:11-12 | a head path ending at end is a simple shortest path |
| PathFinding.MissingIsFirst | src/algorithms/path_finding.py:14-16 | a head ending at an unexpanded non-key is the `KeyError` case of the specification |
| PathFinding.ExhaustedMeansUnreachable | src/algorithms/path_finding.py:7-22 | an empty queue means end is unreachable and every reachable vertex is a key |
| PathFinding.DropKeepsInv | src/algorithms/path_finding.py:8-14 | dropping a head whose vertex is already visited keeps the loop invariant |
| PathFinding.VisitKeepsInv | src/algorithms/path_finding.py:14-20 | expanding the head's vertex and queueing its unvisited neighbours keeps the loop invariant |
| PathFinding.VisitKeepsPaths | src/algorithms/path_finding.py:17-20 | every queued path stays a simple walk from start whose inner vertices are visited |
| PathFinding.VisitKeepsOrder | src/algorithms/path_finding.py:8-20 | the queue stays ordered by length, spanning at most two lengths |
| PathFinding.VisitKeepsFrontier | src/algorithms/path_finding.py:14-20 | each neighbour of an expanded vertex is expanded or queued at most one step later |
| Clocks.Max | src/utils/time_tracking.py:10 | `max(a, b)`: no smaller than either, and equal to one of them |
| Clocks.Step | src/utils/time_tracking.py:6-11 | every event moves the clock past its old value, and a receive moves it past the received value |
| Clocks.Readings | src/utils/time_tracking.py:6-11 | one reading per event |
| Clocks.ReadingsIncrease | src/utils/time_tracking.py:6-11 | readings are strictly increasing, all above the start, and the final clock is the last reading |
| Clocks.LamportClock.constructor | src/utils/time_tracking.py:4-5 | a new clock reads 0 |
| Clocks.LamportClock.Increment | src/utils/time_tracking.py:6-8 | the clock becomes old + 1, which is also the result |
| Clocks.LamportClock.ReceiveEvent | src/utils/time_tracking.py:9-11 | the clock becomes max(old, received) + 1, which exceeds both and is also the result |
| Clocks.TimeTracking.constructor | src/utils/time_tracking.py:14-17 | a tracker owns a fresh clock at 0 |
| Clocks.TimeTracking.GetLamportTimes | src/utils/time_tracking.py:19-21 | one tick of the owned clock, whose new value is returned |
| Clocks.SuccessiveReadings | src/utils/time_tracking.py:19-21 | two successive readings are strictly increasing and both exceed the old value |
| Text.LeadingSpacesSpec | src/core/operations.py:162 | the counted prefix is all whitespace and the next character is not |
| Text.TrailingSpacesSpec | src/core/operations.py:162 | the counted suffix is all whitespace and the character before it is not |
| Text.StripSpec | src/core/operations.py:162 | `strip()` gives an infix whose cut-off ends are whitespace and which neither starts nor ends with whitespace |
| Text.FirstSpace | src/core/operations.py:162 | the index of a space with no space before it |
| Text.Split | src/core/operations.py:162 | `split(' ')` never returns an empty list |
| Text.JoinSplit | src/core/operations.py:162 | the pieces of `split(' ')` contain no space, and joining them with single spaces gives the string back |
| Text.SplitJoin | src/core/operations.py:162 | splitting a space-joined list of space-free pieces gives the pieces back |
| Operations.Value | src/core/operations.py:12-23 | every verb string is non-empty |
| Operations.FromValueOfValue | src/core/operations.py:12-23 | each verb string names its own command |
| Operations.FromValueInverse | src/core/operations.py:12-23 | a string names command k iff it is k's verb string |
| Operations.ValueOfFromValue | src/core/operations.py:12-23 | a string that names a command is that command's verb string |
| Operations.EdgeChecks | src/core/operations.py:90-96 | `has_path` makes at most one `has_edge` call per consecutive pair |
| Operations.EdgeChecksPrefix | src/core/operations.py:93-95 | each present edge of a prefix costs exactly one check |
| Operations.DegreesSplit | src/core/operations.py:126-128 | the edge count is the same whichever key is taken first |
| Operations.AppendEdgesOf | src/core/operations.py:127-128 | appends (vert, x) once for each neighbour x and nothing else, keeping the earlier list as a prefix |
| Operations.AppendEdgeStep | src/core/operations.py:127-128 | one append keeps the inner loop's invariant |
| Operations.States | src/core/operations.py:161-197 | one table before the first line and one after each line |
| Operations.Tokens | src/core/operations.py:162 | the token list is never empty, so `tokens[0]` cannot fail |
| Operations.Requests | src/core/operations.py:161-164 | one parsed request per line |
| Operations.FollowsExtend | src/core/operations.py:161-197 | executing the next line extends the trace, its tables, outputs and clock ticks by that line's result |
| Operations.FollowsAt | src/core/operations.py:161-197 | the i-th result is what line i does to the table the earlier lines left |
| Operations.LineKeepsClosed | src/core/operations.py:164-197 | every command line keeps a table without dangling edges that way |
| Operations.RunKeepsClosed | src/core/operations.py:161-197 | a run from a closed table passes through closed tables only |
| Operations.GraphOperations.constructor | src/core/operations.py:26-28 | the layer works on the given graph with a fresh clock at 0 |
| Operations.GraphOperations.AddVertex | src/core/operations.py:30-38 | the graph's answer and effect, plus one clock tick |
| Operations.GraphOperations.AddEdge | src/core/operations.py:40-48 | the graph's answer and effect, plus one clock tick |
| Operations.GraphOperations.RemoveVertex | src/core/operations.py:50-58 | the graph's answer and effect, plus one clock tick |
| Operations.GraphOperations.RemoveEdge | src/core/operations.py:60-68 | the graph's answer and effect, plus one clock tick |
| Operations.GraphOperations.HasVertex | src/core/operations.py:70-78 | True iff v is a key, plus one clock tick |
| Operations.GraphOperations.HasEdge | src/core/operations.py:80-88 | True iff the edge is stored, plus one clock tick |
| Operations.GraphOperations.HasPath | src/core/operations.py:90-96 | True iff every consecutive pair is an edge (True for fewer than two vertices); the clock ticks once per `has_edge` made, stopping at the first missing edge |
| Operations.GraphOperations.GetNeighbors | src/core/operations.py:98-109 | the neighbour set, or `None` for an unknown vertex, plus one tick |
| Operations.GraphOperations.GetAllVertices | src/core/operations.py:111-120 | exactly the keys, plus one tick |
| Operations.GraphOperations.GetAllEdges | src/core/operations.py:122-134 | lists every edge of the table exactly once, so as many pairs as the neighbour sets hold; one tick |
| Operations.GraphOperations.GetShortestPathAsWritten | src/core/operations.py:136-141 | always raises `AttributeError`, because `self.graph` is never set |
| Operations.GraphOperations.GetShortestPath | src/core/operations.py:136-151 | the path, `None` or the search's `KeyError`, each as the BFS specification says; one tick unless it raised |
| Operations.GraphOperations.ExecuteLine | src/core/operations.py:164-197 | one line's effect, output line and ticks per verb; a missing token raises `IndexError`; an unknown verb does nothing |
| Operations.GraphOperations.RunStep | src/core/operations.py:161-197 | one loop iteration extends the trace by the next line's result |
| Operations.GraphOperations.RunLines | src/core/operations.py:161-197 | the lines run in order, each on the table the earlier ones left; the run stops at the first exception; outputs and ticks are those of the trace |
| Operations.GraphOperations.ExecuteCommands | src/core/operations.py:154-202 | the file's lines, tokenized, run as `RunLines` describes |
| Operations.ShortestPathAsWrittenNeverAnswers | src/core/operations.py:140 | an `AttributeError` is never a permitted answer, though the one-vertex table does have an answer |
| Server.PlaceholderAddEdge | src/server/server.py:63-74 | the keys gain both endpoints; the only new edge is v1 -> v2, added only if both were keys before; closedness is kept |
| Server.LoadEntry | src/server/server.py:30-34 | loading one entry adds its vertex and changes no other entry |
| Server.LoadedStep | src/server/server.py:30-34 | loading i + 1 entries is loading i entries, then entry i, and adds one tick per vertex and per listed edge |
| Server.LoadEntryFresh | src/server/server.py:31-34 | a new vertex keeps the edges to the vertices loaded so far, itself included |
| Server.LoadedKeys | src/server/server.py:28-35 | loading keeps the present vertices and adds exactly the data's keys |
| Server.LoadedEdges | src/server/server.py:28-35 | from empty, v -> e is kept iff e is listed for v and e is loaded no later than v; edges to later vertices are dropped |
| Server.LoadedEdgesStep | src/server/server.py:28-35 | the inductive step of `LoadedEdges` for one more entry |
| Server.LoadedEdgesLast | src/server/server.py:28-35 | the edges after one more entry, given those before it |
| Server.LoadedFromEmpty | src/server/server.py:22-35 | the initial load makes exactly the data's keys vertices and leaves no dangling edge |
| Server.LoadEdgeStep | src/server/server.py:33-34 | one `add_edge` of the inner loop stores e exactly when e is a vertex |
| Server.EdgesOfferedEnds | src/server/server.py:33-34 | the inner loop starts from the table and ends with the listed edges to existing vertices added |
| Server.HandledVerbs | src/server/server.py:114-152 | exactly eight of the eleven verbs are dispatched; has-path, get-all-vertices and get-all-edges give "unknown command" |
| Server.ServedReplies | src/server/server.py:118-155 | the mutators answer "success" or "fail" and the membership queries "True" or "False", judged on the table before the call; a missing parameter gives "invalid parameters" and changes nothing |
| Server.ServedKeepsClosed | src/server/server.py:114-158 | every command keeps a closed table closed |
| Server.Verbs | src/server/server.py:106-108 | one dispatched verb per command |
| Server.ServedAllExtend | src/server/server.py:106-108 | serving the next command extends the run by its result |
| Server.ServedAllAt | src/server/server.py:101-112 | the i-th result echoes command i's verb and is command i served on the table the earlier ones left |
| Server.ServedAllKeepsClosed | src/server/server.py:101-112 | a batch from a closed table passes through closed tables only |
| Server.TicksSnoc | src/server/server.py:106-108 | one more command adds its own ticks to the clock |
| Server.GraphServicer.constructor | src/server/server.py:22-26 | a fresh empty graph and clock, then the initial data loaded: the table is the loaded table and the clock has the load's ticks |
| Server.GraphServicer.Over | src/broker/broker.py:23-25 | modelling device for the broker's stub: a servicer whose graph holds the given shard table, with no initial data loaded; the source's `__init__` is `Server.GraphServicer.constructor` |
| Server.GraphServicer.LoadInitialData | src/server/server.py:28-35 | for each entry in order, add the vertex and then its edges; the table and clock are as `LoadedTable` and `LoadTicks` say |
| Server.GraphServicer.LoadEntryInto | src/server/server.py:31-34 | one entry: one tick for the vertex, one per listed edge |
| Server.GraphServicer.AddEdgesFrom | src/server/server.py:33-34 | each listed edge to a present vertex is stored; one tick per edge |
| Server.GraphServicer.AddVertex | src/server/server.py:37-42 | success iff v was absent, with the matching fixed message |
| Server.GraphServicer.RemoveVertex | src/server/server.py:44-49 | success iff v was present, with the matching fixed message |
| Server.GraphServicer.HasVertex | src/server/server.py:51-55 | True iff v is a vertex |
| Server.GraphServicer.GetAllVertices | src/server/server.py:57-61 | exactly the vertices |
| Server.GraphServicer.AddEdge | src/server/server.py:63-74 | success iff both endpoints were vertices; missing endpoints become placeholder vertices; 3 ticks plus one per placeholder |
| Server.GraphServicer.RemoveEdge | src/server/server.py:76-81 | success iff both are vertices; both directions are removed |
| Server.GraphServicer.HasEdge | src/server/server.py:83-87 | True iff the edge is stored |
| Server.GraphServicer.GetNeighbors | src/server/server.py:89-93 | exactly the out-neighbours, and the empty list for an unknown vertex |
| Server.GraphServicer.GetShortestPath | src/server/server.py:95-99 | the path found, or `[]` when there is none, each as the BFS specification says; a `KeyError` propagates |
| Server.GraphServicer.ExecuteSingleCommand | src/server/server.py:114-158 | the result string and the effect of one command, per verb, including "unknown command", "invalid parameters" and "error: ..." |
| Server.GraphServicer.ExecuteCommands | src/server/server.py:101-112 | one result per command, in order, echoing its verb; each command is served on the table the earlier ones left |
| DataLoader.AppendNew | data/data_loader.py:6-10 | appends x unless present, keeping the list duplicate-free |
| DataLoader.Endpoints | data/data_loader.py:4-10 | the vertices in first-seen order are duplicate-free |
| DataLoader.EndpointsNamed | data/data_loader.py:4-10 | both vertices of every line are keys |
| DataLoader.EndpointsOnlyNamed | data/data_loader.py:4-10 | every key is named by some line |
| DataLoader.SuccessorsStep | data/data_loader.py:8 | one more line adds its v2 to its v1's successors and to nobody else's |
| DataLoader.LoadLineSpec | data/data_loader.py:5-10 | one line appends its new endpoints in order and adds v2 to v1's set |
| DataLoader.LoadedSpec | data/data_loader.py:2-12 | the loaded dict lists the endpoints in first-seen order and maps each to exactly its successors |
| DataLoader.LoadGraphData | data/data_loader.py:1-12 | the loop builds that dict |
| DataLoader.EdgesAreThePairs | data/data_loader.py:4-11 | u -> w is stored iff some line reads `u w`; no reverse edge is added |
| DataLoader.NoReverseEdge | data/data_loader.py:8-11 | the line `a b` gives a -> b and leaves b without successors |
| DataLoader.Decimal | data/data_loader.py:15-17 | `str(x)` has one digit exactly for x < 10 |
| DataLoader.DecimalInjective | data/data_loader.py:15 | different numbers give different strings |
| DataLoader.PyMod | data/data_loader.py:17 | Python's `%`: in [0, n) for positive n, in (n, 0] for negative n, and 0 for i == 0 |
| DataLoader.PartitionKeys | data/data_loader.py:15 | the keys are `str(0)` .. `str(n - 1)` |
| DataLoader.MembersAt | data/data_loader.py:16-18 | partition k holds exactly the vertices at positions congruent to k |
| DataLoader.MembersDistinct | data/data_loader.py:16-18 | a partition lists each vertex once |
| DataLoader.ExactlyOnePartition | data/data_loader.py:16-18 | each vertex lands in exactly one partition, the one its position names |
| DataLoader.PartitionsCoverInput | data/data_loader.py:14-19 | every input vertex is in some partition with the same successors, and partitions hold only input vertices |
| DataLoader.PartOfStep | data/data_loader.py:16-18 | placing vertex i changes only partition i mod n, by adding that vertex |
| DataLoader.PartitionKeysDistinct | data/data_loader.py:15 | the partition keys are distinct |
| DataLoader.EmptyPartitions | data/data_loader.py:15 | empty partitions "0" .. str(n - 1); none when n <= 0 |
| DataLoader.PlaceKeepsParts | data/data_loader.py:16-18 | one loop iteration advances the partition dict by one vertex |
| DataLoader.PartitionGraph | data/data_loader.py:14-19 | for n > 0, partition str(k) holds the vertices at positions k mod n with their edges. With keys present, n == 0 raises `ZeroDivisionError` and n < 0 raises `KeyError('0')` |
| Broker.CharSumConcat | src/broker/broker.py:30 | the character sum of a concatenation is the sum of the sums |
| Broker.CharSumRemove | src/broker/broker.py:30 | removing one character lowers the sum by its code |
| Broker.CharSumAnagram | src/broker/broker.py:30 | strings with the same letters have the same character sum |
| Broker.Owner | src/broker/broker.py:30 | the owner index is below n |
| Broker.ResponsibleServer | src/broker/broker.py:29-35 | `ZeroDivisionError` iff there are no shards; otherwise an index below n |
| Broker.SameLettersSameServer | src/broker/broker.py:30 | anagrams are routed to the same shard |
| Broker.PartitionMisroutes | data/data_loader.py:16-18 | vertex "a" with 2 partitions lands in partition "0", while the broker routes it to shard 1; with each server loading its own partition, `HasVertex("a")` answers False |
| Broker.OwnedBy | src/broker/broker.py:29-32 | exactly the keys the broker routes to shard k |
| Broker.OwnedByDistinct | src/broker/broker.py:29-32 | those keys are listed once each |
| Broker.OwnerPartition | src/broker/broker.py:29-32 | the partition by owner holds exactly the vertices routed to shard k, with their edges |
| Broker.SeededShards | src/main8.py:45-48 | one reachable shard per partition, each loaded as the servicer loads its data |
| Broker.SeededBrokerFindsVertices | src/broker/broker.py:65-74 | with data placed by owner, `HasVertex` finds exactly the loaded vertices |
| Broker.HasVertexAnswer | src/broker/broker.py:65-74 | with shards, True iff the owner shard `sum(ord(c)) % n` can be reached and has v; False when there are no shards (the caught `ZeroDivisionError`); so True only when some reachable shard has v |
| Broker.AddVertexCall | src/broker/broker.py:37-45 | only the owner shard changes; a success means v was absent and is found afterwards |
| Broker.AddVertexThenHasVertex | src/broker/broker.py:37-74 | once `AddVertex` reaches the owner, `HasVertex` answers True; the call succeeds iff v was not found before |
| Broker.FirstDownOther | src/broker/broker.py:54-56 | the first unreachable non-owner shard from `from` on, or the end |
| Broker.FirstDownOtherAt | src/broker/broker.py:54-56 | characterizes that index |
| Broker.Scrubbed | src/broker/broker.py:50-56 | the shard count is kept |
| Broker.ScrubbedStart | src/broker/broker.py:50-51 | before the loop only the owner is scrubbed |
| Broker.ScrubbedStep | src/broker/broker.py:54-56 | visiting index j scrubs shard j unless it is the owner |
| Broker.RemoveVertexCall | src/broker/broker.py:47-63 | the shard count is kept |
| Broker.RemoveVertexEverywhere | src/broker/broker.py:47-63 | with all shards reachable, v leaves every shard, no other vertex leaves any shard, and success is whether the owner had v |
| Broker.RemoveVertexThenHasVertex | src/broker/broker.py:47-74 | after `RemoveVertex`, `HasVertex` answers False, even if a shard could not be reached |
| Broker.EdgeCall | src/broker/broker.py:88-130 | no shards raises `ZeroDivisionError`; only the two owner shards can change |
| Broker.EdgeCallSuccess | src/broker/broker.py:94-101 | success iff every owner is reachable and holds both endpoints |
| Broker.EdgeCallNotAtomic | src/broker/broker.py:94-96 | when the second owner is unreachable, the call fails but the first owner has already applied it |
| Broker.HasEdgeAnswer | src/broker/broker.py:132-150 | no shards raises `ZeroDivisionError` |
| Broker.HasEdgeAnswerMeaning | src/broker/broker.py:138-143 | True iff both owners are reachable and one of them stores the edge |
| Broker.AddEdgeThenHasEdge | src/broker/broker.py:88-150 | after a successful `AddEdge`, `HasEdge` answers True |
| Broker.RemoveEdgeThenNoEdge | src/broker/broker.py:110-150 | after a successful `RemoveEdge`, `HasEdge` answers False |
| Broker.UpVerticesMeaning | src/broker/broker.py:76-86 | a vertex is collected iff some reachable shard has it |
| Broker.NeighborsIn | src/server/server.py:89-93 | one shard lists exactly the out-neighbours of v |
| Broker.UpNeighborsMeaning | src/broker/broker.py:152-166 | w is collected iff some reachable shard stores v -> w |
| Broker.LastHolder | src/broker/broker.py:174-178 | the last shard holding v, or -1 |
| Broker.SnapshotMeaning | src/broker/broker.py:173-178 | the snapshot holds exactly the shards' vertices, each with the neighbours of the last shard that has it, "EXTERNAL" removed |
| Broker.SnapshotClosed | src/broker/broker.py:173-178 | closed shards give a closed snapshot without "EXTERNAL" |
| Broker.ClosedShardsPathReply | src/broker/broker.py:169-193 | on closed shards the reply holds a shortest path iff a path exists, and -1 iff start is unknown (and differs from end) |
| Broker.SnapshotHasPath | src/broker/broker.py:173-182 | a -> b held across two shards is a path, which the as-written call never returns |
| Broker.CollectShard | src/broker/broker.py:176-178 | one shard's pass overwrites the dict with that shard's stripped entries |
| Broker.BrokerVerbs | src/broker/broker.py:202-218 | the broker takes over exactly the shards' three edge verbs, plus "get-neighbors", which no shard knows; "get-neighborhood" is forwarded |
| Broker.DispatchKeepsClosed | src/broker/broker.py:200-221 | a command keeps the shard count, their reachability and their closedness |
| Broker.EdgeDispatchKeepsClosed | src/broker/broker.py:208-213 | add-edge and remove-edge keep the shards closed |
| Broker.ForwardKeepsClosed | src/broker/broker.py:214-218 | a forwarded command keeps the shards closed |
| Broker.ApplyEdgeClosed | src/broker/broker.py:94-96 | both shard edge operations keep a table closed |
| Broker.EdgeCallKeepsClosed | src/broker/broker.py:88-130 | an edge call keeps every shard closed |
| Broker.BatchKeepsClosed | src/broker/broker.py:196-225 | a batch from closed shards passes through closed shards only |
| Broker.BrokerServicer.constructor | src/broker/broker.py:20-27 | one shard per server address |
| Broker.BrokerServicer.AddVertex | src/broker/broker.py:37-45 | response and new shards are `AddVertexCall` |
| Broker.BrokerServicer.RemoveVertex | src/broker/broker.py:47-63 | the owner, then every other shard in order until an unreachable one; response and shards are `RemoveVertexCall` |
| Broker.BrokerServicer.HasVertex | src/broker/broker.py:65-74 | the owner's answer, False on any exception |
| Broker.BrokerServicer.GetAllVertices | src/broker/broker.py:76-86 | the union over reachable shards |
| Broker.BrokerServicer.CallEdge | src/broker/broker.py:94-96 | one reachable shard applies the edge call and answers with its fixed message |
| Broker.BrokerServicer.ChangeEdge | src/broker/broker.py:88-130 | response and shards are `EdgeCall`; no shards raises and changes nothing |
| Broker.BrokerServicer.AddEdge | src/broker/broker.py:88-108 | `EdgeCall` with the placeholder insert |
| Broker.BrokerServicer.RemoveEdge | src/broker/broker.py:110-130 | `EdgeCall` with the edge removal |
| Broker.BrokerServicer.HasEdge | src/broker/broker.py:132-150 | the answer is `HasEdgeAnswer` |
| Broker.BrokerServicer.GetNeighbors | src/broker/broker.py:152-166 | w is listed iff w is not "EXTERNAL" and some reachable shard stores v -> w |
| Broker.BrokerServicer.CollectGraph | src/broker/broker.py:172-178 | the snapshot when every shard is reachable, `RpcError` otherwise |
| Broker.BrokerServicer.GetShortestPathAsWritten | src/broker/broker.py:169-193 | always the empty path with time -1 |
| Broker.BrokerServicer.GetShortestPath | src/broker/broker.py:169-193 | an unreachable shard gives -1; otherwise the reply for a search meeting the BFS specification on the snapshot |
| Broker.BrokerServicer.ExecuteOne | src/broker/broker.py:200-221 | one command's result and effect per verb, with "Error: ..." on an exception |
| Broker.BrokerServicer.Forward | src/broker/broker.py:214-218 | the owner of the first parameter serves the command as a one-command batch |
| Broker.BrokerServicer.ExecuteCommands | src/broker/broker.py:196-225 | one result per command, in order, each dispatched on the shards the earlier ones left; a failing command does not stop the batch |

## Left out

- Wall-clock time is not modelled: `time.time()`, the `time_taken` and `total_time` fields, and the seconds in path results. A path response's time is only `Elapsed` or the -1 of the error path.
- Logging (`log_operation`, `log_result`, the `logging` module), `TimeTracking._log_times` and the event-log file are not modelled. These are I/O with no effect on the graph.
- File I/O is not modelled. The command file and output file of `execute_commands` become a sequence of lines and a sequence of output lines. The edge-list file of `load_graph_data` becomes a sequence of already-split pairs, so its `ValueError` for a line without exactly two tokens is not modelled.
- The `pprint` of the table before and after the commands is not modelled, nor the textual rendering of sets, lists and paths. Outputs are kept as the values they print.
- The `multiprocessing.Lock` of the graph and all concurrency are not modelled; operations run one at a time.
- The gRPC plumbing is not modelled: channels, stubs, `context.set_code`/`set_details`, the `serve` functions and protobuf messages. Messages are datatypes. A broker call to a reachable shard runs the servicer's own method over that shard's table. The shards' own Lamport clocks under broker calls are not tracked.
- Dict and set iteration order is nondeterministic in the loops over sets. Results are stated for every order. Where order matters for dicts (`load_graph_data`, `partition_graph`, `load_initial_data`), insertion order is modelled with `Types.Dict`.
- Whitespace for `strip()` is ASCII only; the non-ASCII whitespace that Python's `str.isspace` also accepts is not modelled.
- Broker.Scrubbed: states only the length; its contents are fixed by `ScrubbedStart`/`ScrubbedStep` and used by `RemoveVertexEverywhere`.
- Broker.RemoveVertexCall: its own ensures states only the length; what it does is stated by `RemoveVertexEverywhere` and `RemoveVertexThenHasVertex`.
- Broker.EdgeCall: its own ensures states only which shards may change; the response is stated by `EdgeCallSuccess`, `EdgeCallNotAtomic` and the lemmas after it.
- Broker.HasEdgeAnswer: its own ensures states only the no-shards error; the answer is stated by `HasEdgeAnswerMeaning`.
- Server.GraphServicer.GetShortestPath and the `get-shortest-path` verb of the servicer's batches use the corrected `get_shortest_path` (first finding below). As written, they would always carry the `AttributeError`.
- Operations.GraphOperations.ExecuteLine, and with it `RunStep`, `RunLines` and `ExecuteCommands`: a `get-shortest-path` line of the command file uses the corrected `get_shortest_path` (first finding below) and the run goes on. As written, that line raises the `AttributeError`, which `execute_commands` does not catch, so the source's run ends there.
- `src/core/operations2.py`, `src/server/server1.py`, the `main*.py` launchers, `run_system.py`, the client and the graph generators are not part of this model. Only the partition-to-server seeding of `src/main8.py` is used, to state the third finding.

## Findings

| source | as written | input that shows it | evidently intended | confidence | as-written member | corrected member |
|---|---|---|---|---|---|---|
| src/core/operations.py:140 | the snapshot reads `self.graph`, but the constructor sets only `self._graph` | any call, e.g. the one-vertex graph "a" from "a" to "a" | snapshot `self._graph` and answer the BFS result (`['a']` here) | high, not executed | Operations.GraphOperations.GetShortestPathAsWritten, with Operations.ShortestPathAsWrittenNeverAnswers | Operations.GraphOperations.GetShortestPath |
| src/broker/broker.py:182 | calls `path_finding.parallel_shortest_path`, which the module does not define, so the handler answers `[]` with time -1 | shard 0 holding a -> b and shard 1 holding b; shortest path from a to b | search the collected snapshot with the module's BFS and answer `[a, b]` | high, not executed | Broker.BrokerServicer.GetShortestPathAsWritten, with Broker.SnapshotHasPath | Broker.BrokerServicer.GetShortestPath, with Broker.ClosedShardsPathReply |
| data/data_loader.py:17 | vertices are placed in partition `i % n` by position, but the broker (src/broker/broker.py:30) asks shard `sum(ord(c)) % n` | the single vertex "a", 2 partitions: "a" is loaded on shard 0, while the broker asks shard 1, so `HasVertex("a")` answers False | place each vertex on the shard the broker routes it to | medium, not executed | DataLoader.PartitionGraph, with Broker.PartitionMisroutes | Broker.OwnerPartition, with Broker.SeededBrokerFindsVertices |
