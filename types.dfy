/** Values shared by every component of the graph store. */
module Types {

  /** A vertex is an opaque string key. */
  type Vertex = string

  /** A directed edge (u, v): u has an outgoing edge to v. */
  type Edge = (Vertex, Vertex)

  datatype Option<+T> = None | Some(value: T)

  /** The exceptions the modelled code raises or catches. */
  datatype Failure =
    | IndexError             // a missing token or parameter (`list index out of range`)
    | KeyError(key: Vertex)  // `graph[node]` on a vertex that is not a key
    | AttributeError         // `self.graph` on an object whose attribute is `_graph`
    | RpcError               // a shard that cannot be reached
    | ZeroDivisionError      // `i % 0`

  /** Either a value or the exception that was raised instead. */
  datatype Outcome<+T> = Ok(value: T) | Raised(failure: Failure)

  /** The last element of a non-empty sequence (Python's `s[-1]`). */
  function Last<T>(s: seq<T>): T
    requires |s| > 0
  {
    s[|s| - 1]
  }

  /** No element occurs twice. */
  predicate Distinct<T(==)>(s: seq<T>) {
    forall i, j :: 0 <= i < j < |s| ==> s[i] != s[j]
  }

  /** Dropping the last element of a duplicate-free sequence keeps it duplicate-free, and that element is not in the rest. */
  lemma DistinctInit<T>(s: seq<T>)
    requires Distinct(s) && |s| > 0
    ensures Distinct(s[..|s| - 1]) && s[|s| - 1] !in s[..|s| - 1]
  {
    var p := s[..|s| - 1];
    forall i | 0 <= i < |p|
      ensures p[i] != s[|s| - 1]
    {
      assert p[i] == s[i];
    }
  }

  /** Two duplicate-free sequences with no common element concatenate to a duplicate-free one. */
  lemma DistinctConcat<T>(a: seq<T>, b: seq<T>)
    requires Distinct(a) && Distinct(b)
    requires forall x :: x in a ==> x !in b
    ensures Distinct(a + b)
  {
    forall i, j | 0 <= i < j < |a + b|
      ensures (a + b)[i] != (a + b)[j]
    {
      if j >= |a| && i < |a| {
        assert (a + b)[i] == a[i] && (a + b)[j] == b[j - |a|];
        assert a[i] in a && b[j - |a|] in b;
      }
    }
  }

  /**
   * A Python dict with string keys: the keys in insertion order, and the value
   * of each key.
   */
  datatype Dict<V> = Dict(keys: seq<string>, values: map<string, V>) {

    /** Every key is listed once, and the listed keys are exactly the keys of the map. */
    ghost predicate Valid() {
      Distinct(keys) && forall k :: k in values <==> k in keys
    }

    /** `d[k] = x`: a new key goes to the end of the order; an existing key keeps its place. */
    function Put(k: string, x: V): (r: Dict<V>)
      ensures r.values == values[k := x]
      ensures k in values ==> r.keys == keys
      ensures k !in values ==> r.keys == keys + [k]
      ensures Valid() ==> r.Valid()
    {
      if k in values then Dict(keys, values[k := x])
      else
        var r := Dict(keys + [k], values[k := x]);
        assert Valid() ==> Distinct(r.keys) by {
          if Valid() {
            forall i, j | 0 <= i < j < |r.keys| ensures r.keys[i] != r.keys[j] {
              if j == |keys| {
                assert r.keys[i] == keys[i] && keys[i] in keys;
              }
            }
          }
        }
        r
    }
  }

  /** An empty dict. */
  function EmptyDict<V>(): (d: Dict<V>)
    ensures d.Valid() && d.keys == [] && d.values == map[]
  {
    Dict([], map[])
  }
}
