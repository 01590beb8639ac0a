/** Vertices, adjacency maps and the invariants the graph keeps over them. */
module Adjacency {

  /** Vertex identifiers. The traversals key their visited tables by string. */
  type Vertex = string

  /** The graph's Map: each vertex to its neighbour list, in the order the
      neighbours were appended. */
  type AdjMap = map<Vertex, seq<Vertex>>

  /** The error a traversal reports when its start vertex is not a key. */
  datatype LookupError = UnknownVertex(vertex: Vertex)

  datatype Result<T> = Ok(value: T) | Err(error: LookupError)

  /** No vertex occurs twice in `s`. */
  predicate Distinct(s: seq<Vertex>)
  {
    forall i, j :: 0 <= i < j < |s| ==> s[i] != s[j]
  }

  /** Every vertex named in some neighbour list is itself a key. */
  predicate Closed(adj: AdjMap)
  {
    forall u, w :: u in adj && w in adj[u] ==> w in adj
  }

  /** Every listed edge is listed at both of its ends. */
  predicate Symmetric(adj: AdjMap)
  {
    forall u, w :: u in adj && w in adj[u] ==> w in adj && u in adj[w]
  }

  /** The neighbour list of `x`, or the empty list when `x` is not a key. */
  function Neighbours(adj: AdjMap, x: Vertex): seq<Vertex>
  {
    if x in adj then adj[x] else []
  }

  /** The position of the first occurrence of `x` in `s`. */
  function IndexOf(s: seq<Vertex>, x: Vertex): (i: nat)
    requires x in s
    ensures i < |s| && s[i] == x
    ensures forall k :: 0 <= k < i ==> s[k] != x
  {
    if s[0] == x then 0 else 1 + IndexOf(s[1..], x)
  }

  /** Appending `n` moves no first occurrence, and `n` itself, when new,
      first occurs at the end. */
  lemma IndexOfSnoc(s: seq<Vertex>, n: Vertex)
    ensures forall x :: x in s ==> IndexOf(s + [n], x) == IndexOf(s, x)
    ensures n !in s ==> IndexOf(s + [n], n) == |s|
  {
    forall x | x in s ensures IndexOf(s + [n], x) == IndexOf(s, x) {
      assert (s + [n])[IndexOf(s, x)] == x;
    }
  }

  /** Two duplicate-free sequences with no element in common concatenate
      to a duplicate-free sequence. */
  lemma DistinctConcat(a: seq<Vertex>, b: seq<Vertex>)
    requires Distinct(a) && Distinct(b)
    requires forall x :: x in a ==> x !in b
    ensures Distinct(a + b)
  {
    forall i, j | 0 <= i < j < |a + b| ensures (a + b)[i] != (a + b)[j] {
      if j >= |a| && i < |a| {
        assert (a + b)[i] == a[i] && (a + b)[j] == b[j - |a|];
        assert a[i] in a && b[j - |a|] in b;
      } else if i >= |a| {
        assert (a + b)[i] == b[i - |a|] && (a + b)[j] == b[j - |a|];
      }
    }
  }

  /** A duplicate-free sequence drawn from `S` is no longer than `S` is large:
      a traversal that never repeats a vertex has at most one entry per key. */
  lemma {:induction false} DistinctBound(s: seq<Vertex>, S: set<Vertex>)
    requires Distinct(s)
    requires forall x :: x in s ==> x in S
    ensures |s| <= |S|
    decreases |s|
  {
    if s != [] {
      var last := s[|s| - 1];
      var init := s[..|s| - 1];
      forall x | x in init ensures x in S - {last} {
        var i :| 0 <= i < |init| && init[i] == x;
        assert s[i] == x;
      }
      DistinctBound(init, S - {last});
    }
  }
}
