/**
 * The data loader: reading an edge list into a dict of successor sets, and
 * splitting that dict into numbered partitions, one per shard server.  The
 * file itself is not modelled: its lines arrive as a sequence of vertex pairs.
 */
module DataLoader {
  import opened Types

  /** One line `v1 v2` of the edge-list file, already split. */
  type Pair = (Vertex, Vertex)

  /** `graph_data`: each vertex, in first-seen order, with the set of its successors. */
  type GraphData = Dict<set<Vertex>>

  // ---------------------------------------------------------------------------
  // load_graph_data

  /** s with x appended unless x already occurs in it. */
  function AppendNew(s: seq<Vertex>, x: Vertex): (r: seq<Vertex>)
    ensures forall y :: y in r <==> y in s || y == x
    ensures Distinct(s) ==> Distinct(r)
  {
    if x in s then s else
      assert Distinct(s) ==> Distinct(s + [x]) by {
        if Distinct(s) {
          DistinctConcat(s, [x]);
        }
      }
      s + [x]
  }

  /** The vertices named by the lines, in the order they are first seen (v1 before v2 on each line). */
  function Endpoints(pairs: seq<Pair>): (vs: seq<Vertex>)
    ensures Distinct(vs)
    decreases |pairs|
  {
    if pairs == [] then [] else
      var p := Last(pairs);
      AppendNew(AppendNew(Endpoints(pairs[..|pairs| - 1]), p.0), p.1)
  }

  /** The successors the lines give v: every v2 of a line `v v2`. */
  function Successors(pairs: seq<Pair>, v: Vertex): set<Vertex> {
    set p | p in pairs && p.0 == v :: p.1
  }

  /** Both vertices of every line are endpoints. */
  lemma {:induction false} EndpointsNamed(pairs: seq<Pair>)
    ensures forall p :: p in pairs ==> p.0 in Endpoints(pairs) && p.1 in Endpoints(pairs)
    decreases |pairs|
  {
    if pairs != [] {
      var init := pairs[..|pairs| - 1];
      EndpointsNamed(init);
      assert pairs == init + [Last(pairs)];
    }
  }

  /** Every endpoint is named by some line. */
  lemma {:induction false} EndpointsOnlyNamed(pairs: seq<Pair>, x: Vertex)
    requires x in Endpoints(pairs)
    ensures exists p :: p in pairs && (p.0 == x || p.1 == x)
    decreases |pairs|
  {
    var init := pairs[..|pairs| - 1];
    assert pairs == init + [Last(pairs)];
    if x in Endpoints(init) {
      EndpointsOnlyNamed(init, x);
      var p :| p in init && (p.0 == x || p.1 == x);
      assert p in pairs;
    } else {
      assert Last(pairs) in pairs;
    }
  }

  /** One more line adds its v2 to the successors of its v1 and to no other vertex's. */
  lemma SuccessorsStep(pairs: seq<Pair>, p: Pair, v: Vertex)
    ensures Successors(pairs + [p], v) == Successors(pairs, v) + (if p.0 == v then {p.1} else {})
  {
    assert forall q :: q in pairs + [p] <==> q in pairs || q == p;
  }

  /** The body of the loop for one line `v1 v2`: make v1 a key, add v2 to its set, make v2 a key. */
  function LoadLine(d: GraphData, p: Pair): GraphData {
    var d1 := if p.0 in d.values then d else d.Put(p.0, {});
    var d2 := d1.Put(p.0, d1.values[p.0] + {p.1});
    if p.1 in d2.values then d2 else d2.Put(p.1, {})
  }

  /** `graph_data` after the given lines. */
  function Loaded(pairs: seq<Pair>): GraphData
    decreases |pairs|
  {
    if pairs == [] then EmptyDict() else LoadLine(Loaded(pairs[..|pairs| - 1]), Last(pairs))
  }

  /** One line appends its new endpoints to the order and adds v2 to the successors of v1. */
  lemma LoadLineSpec(d: GraphData, p: Pair)
    requires d.Valid()
    ensures LoadLine(d, p).Valid()
    ensures LoadLine(d, p).keys == AppendNew(AppendNew(d.keys, p.0), p.1)
    ensures forall v :: v in LoadLine(d, p).values ==>
      LoadLine(d, p).values[v] == (if v in d.values then d.values[v] else {}) + (if v == p.0 then {p.1} else {})
  {
    var (v1, v2) := p;
    var d1 := if v1 in d.values then d else d.Put(v1, {});
    assert d1.Valid() && d1.keys == AppendNew(d.keys, v1);
    assert forall v :: v in d1.values ==> d1.values[v] == if v in d.values then d.values[v] else {};
    var d2 := d1.Put(v1, d1.values[v1] + {v2});
    assert d2.Valid() && d2.keys == d1.keys;
    var d3 := if v2 in d2.values then d2 else d2.Put(v2, {});
    assert d3 == LoadLine(d, p);
    assert d3.keys == AppendNew(d2.keys, v2);
    forall v | v in d3.values
      ensures d3.values[v] == (if v in d.values then d.values[v] else {}) + (if v == v1 then {v2} else {})
    {
      if v == v1 {
        assert d3.values[v] == d2.values[v1];
      } else if v in d1.values {
        assert d3.values[v] == d1.values[v];
      } else {
        assert v == v2 && v !in d.values && d3.values[v] == {};
      }
    }
  }

  /**
   * The loaded dict lists the endpoints in first-seen order, and maps each to
   * exactly its successors.
   */
  lemma {:induction false} LoadedSpec(pairs: seq<Pair>)
    ensures Loaded(pairs).Valid()
    ensures Loaded(pairs).keys == Endpoints(pairs)
    ensures forall v :: v in Loaded(pairs).values ==> Loaded(pairs).values[v] == Successors(pairs, v)
    decreases |pairs|
  {
    if pairs != [] {
      var init := pairs[..|pairs| - 1];
      var p := Last(pairs);
      assert pairs == init + [p];
      LoadedSpec(init);
      var d := Loaded(init);
      LoadLineSpec(d, p);
      forall v | v in Loaded(pairs).values
        ensures Loaded(pairs).values[v] == Successors(pairs, v)
      {
        SuccessorsStep(init, p, v);
        if v !in d.values {
          EndpointsNamed(init);
          assert Successors(init, v) == {} by {
            forall q | q in init ensures q.0 != v {
            }
          }
        }
      }
    }
  }

  /**
   * `load_graph_data` over the lines of the file: every endpoint becomes a key,
   * in first-seen order, and each key maps to its successors.
   */
  method LoadGraphData(pairs: seq<Pair>) returns (graphData: GraphData)
    ensures graphData == Loaded(pairs)
    ensures graphData.Valid()
    ensures graphData.keys == Endpoints(pairs)
    ensures forall v :: v in graphData.values ==> graphData.values[v] == Successors(pairs, v)
  {
    graphData := EmptyDict();
    var i := 0;
    while i < |pairs|
      invariant 0 <= i <= |pairs|
      invariant graphData == Loaded(pairs[..i])
    {
      var (v1, v2) := pairs[i];
      if v1 !in graphData.values {
        graphData := graphData.Put(v1, {});
      }
      graphData := graphData.Put(v1, graphData.values[v1] + {v2});
      if v2 !in graphData.values {
        graphData := graphData.Put(v2, {});
      }
      assert pairs[..i + 1][..i] == pairs[..i];
      i := i + 1;
    }
    assert pairs[..i] == pairs;
    LoadedSpec(pairs);
  }

  /**
   * The loaded edges are exactly the lines, duplicates collapsed: u -> w is
   * stored iff some line reads `u w`.  In particular no reverse edge is added.
   */
  lemma EdgesAreThePairs(pairs: seq<Pair>)
    ensures forall u, w :: (u in Endpoints(pairs) && w in Successors(pairs, u)) <==> (u, w) in pairs
  {
    EndpointsNamed(pairs);
    forall u, w | (u, w) in pairs
      ensures u in Endpoints(pairs)
    {
      var j :| 0 <= j < |pairs| && pairs[j] == (u, w);
    }
  }

  /** The single line `a b` yields the edge a -> b and leaves b without successors. */
  lemma NoReverseEdge()
    ensures Endpoints([("a", "b")]) == ["a", "b"]
    ensures Successors([("a", "b")], "a") == {"b"}
    ensures Successors([("a", "b")], "b") == {}
  {
    var pairs: seq<Pair> := [("a", "b")];
    assert pairs[..0] == [];
    assert forall p :: p in pairs <==> p == ("a", "b");
  }

  // ---------------------------------------------------------------------------
  // partition_graph

  /** The character of a decimal digit. */
  function Digit(x: nat): char
    requires x < 10
  {
    (48 + x) as char
  }

  /** `str(x)` of a non-negative integer: its decimal digits, without leading zeros. */
  function Decimal(x: nat): (s: string)
    ensures |s| >= 1
    ensures |s| == 1 <==> x < 10
    decreases x
  {
    if x < 10 then [Digit(x)] else Decimal(x / 10) + [Digit(x % 10)]
  }

  /** Different numbers have different decimal strings. */
  lemma {:induction false} DecimalInjective(x: nat, y: nat)
    requires Decimal(x) == Decimal(y)
    ensures x == y
    decreases x
  {
    var s := Decimal(x);
    if x >= 10 && y >= 10 {
      assert Digit(x % 10) == s[|s| - 1] == Digit(y % 10);
      assert Decimal(x / 10) == s[..|s| - 1] == Decimal(y / 10);
      DecimalInjective(x / 10, y / 10);
    } else if x < 10 && y < 10 {
      assert Digit(x) == s[0] == Digit(y);
    }
  }

  /** `str(x)` of any integer. */
  function Str(x: int): string {
    if x < 0 then "-" + Decimal(-x) else Decimal(x)
  }

  /** Python's `i % n`, which takes the sign of the divisor. */
  function PyMod(i: int, n: int): (m: int)
    requires n != 0
    ensures n > 0 ==> m == i % n && 0 <= m < n
    ensures n < 0 ==> n < m <= 0
    ensures i == 0 ==> m == 0
  {
    var r := i % n;
    if n < 0 && r != 0 then r + n else r
  }

  /** The keys `"0"` .. `str(n - 1)` of the partition dict, in order. */
  function PartitionKeys(n: nat): (ks: seq<string>)
    ensures |ks| == n
    ensures forall k :: 0 <= k < n ==> ks[k] == Decimal(k)
  {
    seq(n, k requires 0 <= k => Decimal(k))
  }

  /** The keys whose position i in `keys` has i mod n == k, in order. */
  function Members(keys: seq<Vertex>, n: nat, k: nat): seq<Vertex>
    requires n > 0
    decreases |keys|
  {
    if keys == [] then [] else
      var i := |keys| - 1;
      Members(keys[..i], n, k) + (if i % n == k then [keys[i]] else [])
  }

  /** Partition k: the entries whose position is k modulo n, with their successor sets unchanged. */
  function PartOf(keys: seq<Vertex>, values: map<Vertex, set<Vertex>>, n: nat, k: nat): GraphData
    requires n > 0
  {
    var ms := Members(keys, n, k);
    Dict(ms, map v | v in ms && v in values :: values[v])
  }

  /** Members(keys, n, k) holds exactly the keys at positions congruent to k. */
  lemma {:induction false} MembersAt(keys: seq<Vertex>, n: nat, k: nat)
    requires n > 0
    ensures forall j :: 0 <= j < |keys| && j % n == k ==> keys[j] in Members(keys, n, k)
    ensures forall x :: x in Members(keys, n, k) ==> exists j :: 0 <= j < |keys| && j % n == k && keys[j] == x
    decreases |keys|
  {
    if keys != [] {
      var i := |keys| - 1;
      MembersAt(keys[..i], n, k);
      forall j | 0 <= j < i
        ensures keys[..i][j] == keys[j]
      {
      }
    }
  }

  /** The partitions of duplicate-free keys are themselves duplicate-free. */
  lemma {:induction false} MembersDistinct(keys: seq<Vertex>, n: nat, k: nat)
    requires n > 0 && Distinct(keys)
    ensures Distinct(Members(keys, n, k))
    decreases |keys|
  {
    if keys != [] {
      var i := |keys| - 1;
      assert Distinct(keys[..i]);
      MembersDistinct(keys[..i], n, k);
      MembersAt(keys[..i], n, k);
      if i % n == k {
        forall x | x in Members(keys[..i], n, k)
          ensures x !in [keys[i]]
        {
          var j :| 0 <= j < i && keys[..i][j] == x;
        }
        DistinctConcat(Members(keys[..i], n, k), [keys[i]]);
      }
    }
  }

  /** Every key lands in exactly one partition: the one its position names. */
  lemma ExactlyOnePartition(keys: seq<Vertex>, n: nat, i: nat, k: nat)
    requires n > 0 && Distinct(keys) && i < |keys| && k < n
    ensures keys[i] in Members(keys, n, k) <==> k == i % n
  {
    MembersAt(keys, n, k);
  }

  /**
   * The partitions together hold the input: every key of the input is a key of
   * some partition with the same successor set, and every key of a partition
   * is a key of the input.
   */
  lemma PartitionsCoverInput(d: GraphData, n: nat)
    requires d.Valid() && n > 0
    ensures forall j :: 0 <= j < |d.keys| ==>
      var v := d.keys[j];
      v in PartOf(d.keys, d.values, n, j % n).values && PartOf(d.keys, d.values, n, j % n).values[v] == d.values[v]
    ensures forall k, v :: 0 <= k < n && v in PartOf(d.keys, d.values, n, k).values ==> v in d.values
  {
    forall k | 0 <= k < n {
      MembersAt(d.keys, n, k);
    }
  }

  /** Adding the entry at position i to its partition: the partitions of keys[..i + 1]. */
  lemma PartOfStep(d: GraphData, n: nat, i: nat, k: nat)
    requires d.Valid() && n > 0 && i < |d.keys|
    ensures k != i % n ==> PartOf(d.keys[..i + 1], d.values, n, k) == PartOf(d.keys[..i], d.values, n, k)
    ensures k == i % n ==> d.keys[i] !in PartOf(d.keys[..i], d.values, n, k).values
    ensures k == i % n ==>
      PartOf(d.keys[..i + 1], d.values, n, k) == PartOf(d.keys[..i], d.values, n, k).Put(d.keys[i], d.values[d.keys[i]])
  {
    var pre := d.keys[..i];
    assert d.keys[..i + 1][..i] == pre;
    var v := d.keys[i];
    MembersAt(pre, n, k);
    if k == i % n {
      forall x | x in Members(pre, n, k)
        ensures x != v
      {
        var j :| 0 <= j < |pre| && pre[j] == x;
        assert d.keys[j] == x;
      }
    }
  }

  /** Distinct numbers give distinct partition keys. */
  lemma PartitionKeysDistinct(n: nat)
    ensures Distinct(PartitionKeys(n))
  {
    var ks := PartitionKeys(n);
    forall i, j | 0 <= i < j < n
      ensures ks[i] != ks[j]
    {
      if ks[i] == ks[j] {
        DecimalInjective(i, j);
      }
    }
  }

  /** `{str(i): {} for i in range(n)}`: empty partitions `"0"` .. `str(n - 1)`; none when n <= 0. */
  function EmptyPartitions(n: int): (parts: Dict<GraphData>)
    ensures parts.Valid()
    ensures parts.keys == PartitionKeys(if n > 0 then n else 0)
    ensures forall k :: 0 <= k < n ==> parts.values[Decimal(k)] == EmptyDict()
  {
    var ks := PartitionKeys(if n > 0 then n else 0);
    PartitionKeysDistinct(if n > 0 then n else 0);
    Dict(ks, map k | k in ks :: EmptyDict())
  }

  /** The partition dict once the first i vertices of d are placed. */
  ghost predicate PartsAfter(parts: Dict<GraphData>, d: GraphData, n: nat, i: nat)
    requires n > 0 && i <= |d.keys|
  {
    && parts.Valid()
    && parts.keys == PartitionKeys(n)
    && forall j :: 0 <= j < n ==> parts.values[Decimal(j)] == PartOf(d.keys[..i], d.values, n, j)
  }

  /** Placing the i-th vertex in partition `str(i % n)` advances `PartsAfter` by one vertex. */
  lemma PlaceKeepsParts(parts: Dict<GraphData>, d: GraphData, n: nat, i: nat)
    requires d.Valid() && n > 0 && i < |d.keys|
    requires PartsAfter(parts, d, n, i)
    ensures Decimal(i % n) in parts.values
    ensures var key, v := Decimal(i % n), d.keys[i];
      PartsAfter(parts.Put(key, parts.values[key].Put(v, d.values[v])), d, n, i + 1)
  {
    var m := i % n;
    var key, v := Decimal(m), d.keys[i];
    assert key == PartitionKeys(n)[m];
    var parts' := parts.Put(key, parts.values[key].Put(v, d.values[v]));
    forall j | 0 <= j < n
      ensures parts'.values[Decimal(j)] == PartOf(d.keys[..i + 1], d.values, n, j)
    {
      PartOfStep(d, n, i, j);
      if j != m && Decimal(j) == key {
        DecimalInjective(j, m);
      }
    }
  }

  /**
   * `partition_graph`: n partitions keyed `"0"` .. `str(n - 1)`, the i-th
   * vertex going to partition `str(i % n)`.  With no partitions the first
   * vertex raises: `ZeroDivisionError` for n == 0, and for n < 0 a `KeyError`
   * on `"0"`, since `range(n)` made no keys.
   */
  method PartitionGraph(graphData: GraphData, numPartitions: int) returns (r: Outcome<Dict<GraphData>>)
    requires graphData.Valid()
    ensures numPartitions > 0 ==>
      && r.Ok? && r.value.Valid()
      && r.value.keys == PartitionKeys(numPartitions)
      && forall k :: 0 <= k < numPartitions ==>
           r.value.values[Decimal(k)] == PartOf(graphData.keys, graphData.values, numPartitions, k)
    ensures numPartitions == 0 ==>
      r == if graphData.keys == [] then Ok(EmptyDict()) else Raised(ZeroDivisionError)
    ensures numPartitions < 0 ==>
      r == if graphData.keys == [] then Ok(EmptyDict()) else Raised(KeyError("0"))
  {
    var parts := EmptyPartitions(numPartitions);
    ghost var n: nat := if numPartitions > 0 then numPartitions else 1;
    assert numPartitions > 0 ==> PartsAfter(parts, graphData, n, 0) by {
      if numPartitions > 0 {
        forall j | 0 <= j < n
          ensures PartOf(graphData.keys[..0], graphData.values, n, j) == EmptyDict()
        {
          assert graphData.keys[..0] == [];
        }
      }
    }
    var i := 0;
    while i < |graphData.keys|
      invariant 0 <= i <= |graphData.keys|
      invariant numPartitions > 0 ==> PartsAfter(parts, graphData, n, i)
      invariant numPartitions <= 0 ==> parts == EmptyDict() && i == 0
    {
      var vertex := graphData.keys[i];
      var edges := graphData.values[vertex];
      if numPartitions == 0 {
        return Raised(ZeroDivisionError);
      }
      var partition := Str(PyMod(i, numPartitions));
      if partition !in parts.values {
        return Raised(KeyError(partition));
      }
      PlaceKeepsParts(parts, graphData, n, i);
      parts := parts.Put(partition, parts.values[partition].Put(vertex, edges));
      i := i + 1;
    }
    assert graphData.keys[..i] == graphData.keys;
    return Ok(parts);
  }
}
