/** The undirected graph: a Map from each vertex to its neighbour list,
    mutated in place by `AddVertex` and `AddEdge` and read by the listing,
    the two traversals and the component count. */
module Graphs {
  import opened Adjacency
  import opened Reachability
  import opened Traversals
  import opened Components

  /** The Map's key order after `set(v, ...)`: a new key goes to the end, an
      existing key keeps its place. */
  function Enrolled(keys: seq<Vertex>, v: Vertex): (r: seq<Vertex>)
    ensures keys <= r
    ensures forall x :: x in r <==> x in keys || x == v
    ensures Distinct(keys) ==> Distinct(r)
    ensures |r| <= |keys| + 1
  {
    if v in keys then keys else keys + [v]
  }

  /** The Map after `addEdge(u, v)`: missing endpoints are created with an
      empty list, then `v` is appended to the list of `u` and `u` to the
      list of `v`. */
  function WithEdge(adj: AdjMap, u: Vertex, v: Vertex): (r: AdjMap)
    ensures r.Keys == adj.Keys + {u, v}
    ensures u != v ==> r[u] == Neighbours(adj, u) + [v] && r[v] == Neighbours(adj, v) + [u]
    ensures u == v ==> r[u] == Neighbours(adj, u) + [u, u]
    ensures forall x :: x in adj && x != u && x != v ==> r[x] == adj[x]
    ensures forall x :: x in adj ==> adj[x] <= r[x]
  {
    var a1 := if u in adj then adj else adj[u := []];
    var a2 := if v in a1 then a1 else a1[v := []];
    var a3 := a2[u := a2[u] + [v]];
    a3[v := a3[v] + [u]]
  }

  /** Adding an edge enrols its endpoints as keys in both views of the Map. */
  lemma WithEdgeKeepsKeys(keys: seq<Vertex>, adj: AdjMap, u: Vertex, v: Vertex)
    requires forall x :: x in adj <==> x in keys
    ensures forall x :: x in WithEdge(adj, u, v) <==> x in Enrolled(Enrolled(keys, u), v)
  {
  }

  /** Adding an edge keeps every listed neighbour a key. */
  lemma WithEdgeKeepsClosed(adj: AdjMap, u: Vertex, v: Vertex)
    requires Closed(adj)
    ensures Closed(WithEdge(adj, u, v))
  {
    var r := WithEdge(adj, u, v);
    forall x, w | x in r && w in r[x] ensures w in r {
      if x != u && x != v {
        assert w in adj[x];
      } else if x == u && u != v {
        assert w in Neighbours(adj, u) + [v];
      } else if x == v && u != v {
        assert w in Neighbours(adj, v) + [u];
      } else {
        assert w in Neighbours(adj, u) + [u, u];
      }
    }
  }

  /** Adding an edge to a symmetric Map leaves it symmetric. */
  lemma WithEdgeKeepsSymmetric(adj: AdjMap, u: Vertex, v: Vertex)
    requires Symmetric(adj)
    ensures Symmetric(WithEdge(adj, u, v))
  {
    var r := WithEdge(adj, u, v);
    forall x, w | x in r && w in r[x] ensures w in r && x in r[w] {
      if x != u && x != v {
        assert w in adj[x];
        assert x in adj[w] && adj[w] <= r[w];
      } else if u == v {
        assert w in Neighbours(adj, u) + [u, u];
        if w != u {
          assert x in adj[w] && adj[w] <= r[w];
        }
      } else if x == u {
        assert w in Neighbours(adj, u) + [v];
        if w != v {
          assert x in adj[w] && adj[w] <= r[w];
        }
      } else {
        assert w in Neighbours(adj, v) + [u];
        if w != u {
          assert x in adj[w] && adj[w] <= r[w];
        }
      }
    }
  }

  /** Adding an edge never takes a walk away. */
  lemma WithEdgeKeepsReachable(adj: AdjMap, u: Vertex, v: Vertex, x: Vertex, y: Vertex)
    requires Reachable(adj, x, y)
    ensures Reachable(WithEdge(adj, u, v), x, y)
  {
    var g := WithEdge(adj, u, v);
    var p :| IsPath(adj, p) && p[0] == x && p[|p| - 1] == y;
    forall i | 0 <= i < |p| - 1 ensures p[i] in g && p[i + 1] in g[p[i]] {
      assert p[i + 1] in adj[p[i]] && adj[p[i]] <= g[p[i]];
    }
    assert IsPath(g, p);
  }

  /** The `forEach` over the neighbour list `ns` inside either traversal:
      every neighbour not yet visited is marked visited and pushed onto the
      work list, in list order. */
  method ScanNeighbours(ns: seq<Vertex>, visited: set<Vertex>, work: seq<Vertex>)
    returns (visited': set<Vertex>, work': seq<Vertex>)
    ensures visited' == Discover(ns, visited).visited
    ensures work' == work + Discover(ns, visited).pushed
  {
    visited', work' := visited, work;
    for i := 0 to |ns|
      invariant visited' == Discover(ns[..i], visited).visited
      invariant work' == work + Discover(ns[..i], visited).pushed
    {
      ghost var d := Discover(ns[..i], visited);
      DiscoverPrefixStep(ns, i, visited);
      var neighbor := ns[i];
      if neighbor !in visited' {
        visited' := visited' + {neighbor};
        work' := work' + [neighbor];
        assert work' == work + (d.pushed + [neighbor]);
      }
    }
    assert ns[..|ns|] == ns;
  }

  class Graph {
    /** The Map's keys in insertion order. */
    var keys: seq<Vertex>
    /** The Map itself. */
    var adj: AdjMap

    ghost predicate Valid()
      reads this
    {
      && (forall v :: v in adj <==> v in keys)
      && Distinct(keys)
      && Closed(adj)
    }

    constructor ()
      ensures Valid()
      ensures keys == [] && adj == map[]
    {
      keys := [];
      adj := map[];
    }

    /** Inserts `v` with an empty neighbour list, discarding the list it
        had if it was already a key. */
    method AddVertex(v: Vertex)
      requires Valid()
      modifies this
      ensures Valid()
      ensures adj == old(adj)[v := []]
      ensures keys == Enrolled(old(keys), v)
    {
      keys := Enrolled(keys, v);
      adj := adj[v := []];
    }

    /** Creates any missing endpoint, then records the edge at both ends. */
    method AddEdge(u: Vertex, v: Vertex)
      requires Valid()
      modifies this
      ensures Valid()
      ensures adj == WithEdge(old(adj), u, v)
      ensures keys == Enrolled(Enrolled(old(keys), u), v)
      ensures old(Symmetric(adj)) ==> Symmetric(adj)
    {
      if u !in adj {
        AddVertex(u);
      }
      if v !in adj {
        AddVertex(v);
      }
      adj := adj[u := adj[u] + [v]];
      adj := adj[v := adj[v] + [u]];
      assert adj == WithEdge(old(adj), u, v);
      assert keys == Enrolled(Enrolled(old(keys), u), v);
      WithEdgeKeepsKeys(old(keys), old(adj), u, v);
      WithEdgeKeepsClosed(old(adj), u, v);
      if old(Symmetric(adj)) {
        WithEdgeKeepsSymmetric(old(adj), u, v);
      }
    }

    /** Each vertex in key order with its neighbour list. */
    method ListAdjacency() returns (lines: seq<(Vertex, seq<Vertex>)>)
      requires Valid()
      ensures |lines| == |keys|
      ensures forall i :: 0 <= i < |lines| ==> lines[i].0 == keys[i] && lines[i].1 == adj[keys[i]]
    {
      lines := [];
      for i := 0 to |keys|
        invariant |lines| == i
        invariant forall j :: 0 <= j < i ==> lines[j] == (keys[j], adj[keys[j]])
      {
        var vertex := keys[i];
        lines := lines + [(vertex, adj[vertex])];
      }
    }

    /** Breadth-first search from `start`, with a queue. */
    method BreadthFirstSearch(start: Vertex) returns (r: Result<seq<Vertex>>)
      requires Valid()
      ensures r == Traverse(adj, Fifo, start)
      ensures r.Err? <==> start !in adj
      ensures r.Ok? ==> r.value[0] == start && Distinct(r.value) && |r.value| <= |adj|
      ensures r.Ok? ==> forall x :: x in r.value <==> x in adj && Reachable(adj, start, x)
    {
      if start !in adj {
        return Err(UnknownVertex(start));
      }
      var queue := [start];
      var result := [];
      var visited := {start};
      while queue != []
        invariant forall w :: w in queue ==> w in adj
        invariant Explore(adj, Fifo, queue, visited, result) == Explore(adj, Fifo, [start], {start}, [])
        decreases |adj.Keys - visited| + |queue|
      {
        ghost var work, seen, done := queue, visited, result;
        var current := queue[0];
        queue := queue[1..];
        result := result + [current];
        var ns := adj[current];
        ghost var queue0, visited0 := queue, visited;
        visited, queue := ScanNeighbours(ns, visited, queue);
        DiscoverShrinks(adj.Keys, ns, visited0);
        assert current == Take(Fifo, work) && queue0 == Drop(Fifo, work);
        assert Explore(adj, Fifo, work, seen, done) == Explore(adj, Fifo, queue, visited, result);
      }
      r := Ok(result);
      TraverseVisitsReachable(adj, Fifo, start);
    }

    /** Depth-first search from `start`, with a stack: neighbours pushed in
        list order come off in reverse. */
    method DepthFirstSearch(start: Vertex) returns (r: Result<seq<Vertex>>)
      requires Valid()
      ensures r == Traverse(adj, Lifo, start)
      ensures r.Err? <==> start !in adj
      ensures r.Ok? ==> r.value[0] == start && Distinct(r.value) && |r.value| <= |adj|
      ensures r.Ok? ==> forall x :: x in r.value <==> x in adj && Reachable(adj, start, x)
    {
      if start !in adj {
        return Err(UnknownVertex(start));
      }
      var stack := [start];
      var result := [];
      var visited := {start};
      while stack != []
        invariant forall w :: w in stack ==> w in adj
        invariant Explore(adj, Lifo, stack, visited, result) == Explore(adj, Lifo, [start], {start}, [])
        decreases |adj.Keys - visited| + |stack|
      {
        ghost var work, seen, done := stack, visited, result;
        var current := stack[|stack| - 1];
        stack := stack[..|stack| - 1];
        result := result + [current];
        var ns := adj[current];
        ghost var stack0, visited0 := stack, visited;
        visited, stack := ScanNeighbours(ns, visited, stack);
        DiscoverShrinks(adj.Keys, ns, visited0);
        assert current == Take(Lifo, work) && stack0 == Drop(Lifo, work);
        assert Explore(adj, Lifo, work, seen, done) == Explore(adj, Lifo, stack, visited, result);
      }
      r := Ok(result);
      TraverseVisitsReachable(adj, Lifo, start);
    }

    /** Counts the components: walks the keys in order and, from each key
        not yet seen, runs a depth-first search and marks all it finds. */
    method ConnectedComponents() returns (count: nat)
      requires Valid()
      ensures count == NewComponents(adj, keys)
      ensures count <= |keys|
      ensures count == 0 <==> keys == []
      ensures Symmetric(adj) ==> count == |ComponentsOf(adj, keys)|
    {
      var visited: set<Vertex> := {};
      count := 0;
      for i := 0 to |keys|
        invariant forall x :: x in visited <==> x in adj && ReachedFrom(adj, keys[..i], x)
        invariant count == NewComponents(adj, keys[..i])
      {
        var node := keys[i];
        assert keys[..i + 1] == keys[..i] + [node];
        NewComponentsSnoc(adj, keys[..i], node, visited);
        if node !in visited {
          var found := DepthFirstSearch(node);
          var nodes := found.value;
          visited := visited + set x | x in nodes;
          count := count + 1;
        }
      }
      assert keys[..|keys|] == keys;
      if Symmetric(adj) {
        NewComponentsCountsComponents(adj, keys);
      }
    }
  }
}
