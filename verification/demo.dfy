/** The script at the end of `index.js`, and the sibling-order example, as
    clients of the graph that can only rely on its contracts. */
module Demo {
  import opened Adjacency
  import opened Reachability
  import opened Traversals
  import opened Components
  import opened Graphs

  /** The vertex names used below are pairwise different. */
  lemma NamesDiffer()
    ensures "A" != "B" && "A" != "C" && "A" != "D"
    ensures "B" != "C" && "B" != "D" && "C" != "D"
  {
    assert "A"[0] != "B"[0] && "A"[0] != "C"[0] && "A"[0] != "D"[0];
    assert "B"[0] != "C"[0] && "B"[0] != "D"[0] && "C"[0] != "D"[0];
  }

  /** The two `addEdge` calls of the script, on the Maps they meet. */
  lemma ScriptEdges()
    ensures WithEdge(map["A" := [], "B" := []], "A", "B") == map["A" := ["B"], "B" := ["A"]]
    ensures WithEdge(map["A" := ["B"], "B" := ["A"], "C" := [], "D" := []], "C", "D") == ScriptAdj
  {
    FirstScriptEdge();
    SecondScriptEdge();
  }

  lemma FirstScriptEdge()
    ensures WithEdge(map["A" := [], "B" := []], "A", "B") == map["A" := ["B"], "B" := ["A"]]
  {
    NamesDiffer();
    var r := WithEdge(map["A" := [], "B" := []], "A", "B");
    assert r.Keys == {"A", "B"};
    assert r["A"] == ["B"] && r["B"] == ["A"];
  }

  lemma SecondScriptEdge()
    ensures WithEdge(map["A" := ["B"], "B" := ["A"], "C" := [], "D" := []], "C", "D") == ScriptAdj
  {
    NamesDiffer();
    var r := WithEdge(map["A" := ["B"], "B" := ["A"], "C" := [], "D" := []], "C", "D");
    assert r.Keys == ScriptAdj.Keys;
    assert r["A"] == ["B"] && r["B"] == ["A"] && r["C"] == ["D"] && r["D"] == ["C"];
  }

  /** The key order each call of the examples leaves behind. */
  lemma ExampleKeys()
    ensures Enrolled(Enrolled([], "A"), "B") == ["A", "B"]
    ensures Enrolled(Enrolled(["A", "B"], "A"), "B") == ["A", "B"]
    ensures Enrolled(Enrolled(["A", "B"], "C"), "D") == ["A", "B", "C", "D"]
    ensures Enrolled(Enrolled(["A", "B", "C", "D"], "C"), "D") == ["A", "B", "C", "D"]
    ensures Enrolled(Enrolled(["A", "B"], "A"), "C") == ["A", "B", "C"]
  {
    NamesDiffer();
    assert "C" !in ["A", "B"];
    assert "D" !in ["A", "B", "C"];
  }

  /** The Map the script builds: edges A-B and C-D. */
  const ScriptAdj: AdjMap := map["A" := ["B"], "B" := ["A"], "C" := ["D"], "D" := ["C"]]

  lemma ScriptClosed()
    ensures Closed(ScriptAdj)
  {
    NamesDiffer();
  }

  /** The first iteration from `v`: take `v` and push what its scan finds. */
  lemma FirstStep(adj: AdjMap, order: Order, v: Vertex, visited: set<Vertex>, pushed: seq<Vertex>)
    requires Closed(adj) && v in adj
    requires Discover(adj[v], {v}) == Discovery(visited, pushed)
    ensures Explore(adj, order, [v], {v}, []) == Explore(adj, order, pushed, visited, [v])
  {
    assert Take(order, [v]) == v;
    assert Drop(order, [v]) + pushed == pushed;
    assert [] + [v] == [v];
    ExploreStep(adj, order, [v], {v}, []);
  }

  /** An iteration whose vertex has no unvisited neighbour pushes nothing:
      it leaves `rest` to work on and `done'` output. */
  lemma SeenStep(adj: AdjMap, order: Order, work: seq<Vertex>, visited: set<Vertex>, done: seq<Vertex>,
                 t: Vertex, rest: seq<Vertex>, done': seq<Vertex>)
    requires Closed(adj) && (forall w :: w in work ==> w in adj) && work != []
    requires t == Take(order, work) && t in adj && Discover(adj[t], visited) == Discovery(visited, [])
    requires rest == Drop(order, work) && done' == done + [t]
    ensures Explore(adj, order, work, visited, done) == Explore(adj, order, rest, visited, done')
  {
    ExploreStep(adj, order, work, visited, done);
    assert Drop(order, work) + [] == Drop(order, work);
  }

  /** The scan of a one-entry list. */
  lemma DiscoverOne(n: Vertex, visited: set<Vertex>)
    ensures Discover([n], visited) ==
      if n in visited then Discovery(visited, []) else Discovery(visited + {n}, [n])
  {
    DiscoverSnoc([], n, visited);
    assert [] + [n] == [n];
  }

  /** In any Map where `u` and `v` list only each other, either traversal
      from `u` gives [u, v]. */
  lemma PairFrom(g: AdjMap, order: Order, u: Vertex, v: Vertex)
    requires Closed(g) && u in g && v in g && u != v
    requires g[u] == [v] && g[v] == [u]
    ensures Explore(g, order, [u], {u}, []) == [u, v]
  {
    assert Discover(g[u], {u}) == Discovery({u, v}, [v]) by {
      DiscoverOne(v, {u});
      assert {u} + {v} == {u, v};
    }
    assert Discover(g[v], {u, v}) == Discovery({u, v}, []) by {
      DiscoverOne(u, {u, v});
    }
    calc {
      Explore(g, order, [u], {u}, []);
      { FirstStep(g, order, u, {u, v}, [v]); }
      Explore(g, order, [v], {u, v}, [u]);
      { SeenStep(g, order, [v], {u, v}, [u], v, [], [u, v]); }
      Explore(g, order, [], {u, v}, [u, v]);
    }
  }

  /** The traversals the script runs. */
  lemma ScriptTraversals()
    ensures Closed(ScriptAdj)
    ensures Traverse(ScriptAdj, Fifo, "A") == Ok(["A", "B"])
    ensures Traverse(ScriptAdj, Fifo, "B") == Ok(["B", "A"])
    ensures Traverse(ScriptAdj, Lifo, "A") == Ok(["A", "B"])
  {
    NamesDiffer();
    ScriptClosed();
    var g := ScriptAdj;
    assert "A" in g && "B" in g && g["A"] == ["B"] && g["B"] == ["A"];
    PairFrom(g, Fifo, "A", "B");
    PairFrom(g, Lifo, "A", "B");
    PairFrom(g, Fifo, "B", "A");
  }

  /** In the script's Map, A reaches B, C reaches D, and nothing joins the two
      pairs, so the count is 2. */
  lemma ScriptComponents()
    ensures NewComponents(ScriptAdj, ["A", "B", "C", "D"]) == 2
  {
    var g := ScriptAdj;
    var ks := ["A", "B", "C", "D"];
    ReachableSelf(g, "A");
    ReachableStep(g, "A", "A", "B");
    ReachableSelf(g, "C");
    ReachableStep(g, "C", "C", "D");
    assert !ReachedFrom(g, [], "A");
    assert ReachedFrom(g, ["A"], "B") by {
      assert Reachable(g, ["A"][0], "B");
    }
    assert !ReachedFrom(g, ["A", "B"], "C") by {
      forall j | 0 <= j < 2 ensures !Reachable(g, ["A", "B"][j], "C") {
        if Reachable(g, ["A", "B"][j], "C") {
          ClosedSetContainsReachable(g, {"A", "B"}, ["A", "B"][j], "C");
        }
      }
    }
    assert ReachedFrom(g, ["A", "B", "C"], "D") by {
      assert Reachable(g, ["A", "B", "C"][2], "D");
    }
    assert ks[..3] == ["A", "B", "C"];
    assert ks[..3][..2] == ["A", "B"];
    assert ks[..3][..2][..1] == ["A"];
    assert ks[..3][..2][..1][..0] == [];
  }

  /** What the listing of the script's graph holds, pair by pair. */
  lemma ScriptListing(keys: seq<Vertex>, adj: AdjMap, lines: seq<(Vertex, seq<Vertex>)>)
    requires keys == ["A", "B", "C", "D"] && adj == ScriptAdj
    requires |lines| == |keys|
    requires forall i :: 0 <= i < |lines| ==> lines[i].0 == keys[i] && lines[i].1 == adj[keys[i]]
    ensures lines == [("A", ["B"]), ("B", ["A"]), ("C", ["D"]), ("D", ["C"])]
  {
    assert lines[0] == ("A", ["B"]) && lines[1] == ("B", ["A"]);
    assert lines[2] == ("C", ["D"]) && lines[3] == ("D", ["C"]);
  }

  /** The script: build the graph, traverse from A and from B, count. */
  method RunScript() returns (lines: seq<(Vertex, seq<Vertex>)>, bfsA: Result<seq<Vertex>>,
                              bfsB: Result<seq<Vertex>>, dfsA: Result<seq<Vertex>>, components: nat)
    ensures lines == [("A", ["B"]), ("B", ["A"]), ("C", ["D"]), ("D", ["C"])]
    ensures bfsA == Ok(["A", "B"])
    ensures bfsB == Ok(["B", "A"])
    ensures dfsA == Ok(["A", "B"])
    ensures components == 2
  {
    ScriptEdges();
    ExampleKeys();
    var graph := new Graph();
    graph.AddVertex("A");
    graph.AddVertex("B");
    graph.AddEdge("A", "B");
    graph.AddVertex("C");
    graph.AddVertex("D");
    graph.AddEdge("C", "D");
    lines := graph.ListAdjacency();
    ScriptListing(graph.keys, graph.adj, lines);
    ScriptTraversals();
    bfsA := graph.BreadthFirstSearch("A");
    bfsB := graph.BreadthFirstSearch("B");
    dfsA := graph.DepthFirstSearch("A");
    ScriptComponents();
    components := graph.ConnectedComponents();
  }

  /** A with neighbours B then C, each linked only back to A. */
  const FanAdj: AdjMap := map["A" := ["B", "C"], "B" := ["A"], "C" := ["A"]]

  /** The two `AddEdge` calls that build the fan, and the edge of the
      re-add example. */
  lemma FanEdges()
    ensures WithEdge(map[], "A", "B") == map["A" := ["B"], "B" := ["A"]]
    ensures WithEdge(map["A" := ["B"], "B" := ["A"]], "A", "C") == FanAdj
  {
    NamesDiffer();
    var r1 := WithEdge(map[], "A", "B");
    assert r1.Keys == {"A", "B"};
    assert r1["A"] == ["B"] && r1["B"] == ["A"];
    var r2 := WithEdge(map["A" := ["B"], "B" := ["A"]], "A", "C");
    assert r2.Keys == FanAdj.Keys;
    assert r2["A"] == ["B", "C"] && r2["B"] == ["A"] && r2["C"] == ["A"];
  }

  lemma FanClosed()
    ensures Closed(FanAdj)
  {
    NamesDiffer();
  }

  /** In any Map where `a` lists `b` then `c`, and `b` and `c` list only
      `a`, the stack hands back the siblings in reverse list order. */
  lemma FanDepthFirst(g: AdjMap, a: Vertex, b: Vertex, c: Vertex)
    requires Closed(g) && a in g && b in g && c in g && a != b && a != c && b != c
    requires g[a] == [b, c] && g[b] == [a] && g[c] == [a]
    ensures Explore(g, Lifo, [a], {a}, []) == [a, c, b]
  {
    FanScan(a, b, c);
    DiscoverOne(a, {a, b, c});
    calc {
      Explore(g, Lifo, [a], {a}, []);
      { FirstStep(g, Lifo, a, {a, b, c}, [b, c]); }
      Explore(g, Lifo, [b, c], {a, b, c}, [a]);
      { SeenStep(g, Lifo, [b, c], {a, b, c}, [a], c, [b], [a, c]); }
      Explore(g, Lifo, [b], {a, b, c}, [a, c]);
      { SeenStep(g, Lifo, [b], {a, b, c}, [a, c], b, [], [a, c, b]); }
      Explore(g, Lifo, [], {a, b, c}, [a, c, b]);
    }
  }

  /** In the same Map the queue hands back the siblings in list order. */
  lemma FanBreadthFirst(g: AdjMap, a: Vertex, b: Vertex, c: Vertex)
    requires Closed(g) && a in g && b in g && c in g && a != b && a != c && b != c
    requires g[a] == [b, c] && g[b] == [a] && g[c] == [a]
    ensures Explore(g, Fifo, [a], {a}, []) == [a, b, c]
  {
    FanScan(a, b, c);
    DiscoverOne(a, {a, b, c});
    calc {
      Explore(g, Fifo, [a], {a}, []);
      { FirstStep(g, Fifo, a, {a, b, c}, [b, c]); }
      Explore(g, Fifo, [b, c], {a, b, c}, [a]);
      { SeenStep(g, Fifo, [b, c], {a, b, c}, [a], b, [c], [a, b]); }
      Explore(g, Fifo, [c], {a, b, c}, [a, b]);
      { SeenStep(g, Fifo, [c], {a, b, c}, [a, b], c, [], [a, b, c]); }
      Explore(g, Fifo, [], {a, b, c}, [a, b, c]);
    }
  }

  /** The scan of the fan's centre. */
  lemma FanScan(a: Vertex, b: Vertex, c: Vertex)
    requires a != b && a != c && b != c
    ensures Discover([b, c], {a}) == Discovery({a, b, c}, [b, c])
  {
    assert [b] + [c] == [b, c];
    assert {a, b} + {c} == {a, b, c};
    assert Discover([b], {a}) == Discovery({a, b}, [b]) by {
      DiscoverOne(b, {a});
      assert {a} + {b} == {a, b};
    }
    DiscoverSnoc([b], c, {a});
  }

  /** A stack-based search from A lists C before B although B comes first
      in A's list; the queue keeps list order. */
  lemma StackReversesSiblings()
    ensures Closed(FanAdj)
    ensures Traverse(FanAdj, Lifo, "A") == Ok(["A", "C", "B"])
    ensures Traverse(FanAdj, Fifo, "A") == Ok(["A", "B", "C"])
  {
    NamesDiffer();
    FanClosed();
    var g := FanAdj;
    assert "A" in g && "B" in g && "C" in g;
    assert g["A"] == ["B", "C"] && g["B"] == ["A"] && g["C"] == ["A"];
    FanDepthFirst(g, "A", "B", "C");
    FanBreadthFirst(g, "A", "B", "C");
  }

  /** The same example through the graph's own methods. */
  method SiblingOrder() returns (dfs: Result<seq<Vertex>>, bfs: Result<seq<Vertex>>)
    ensures dfs == Ok(["A", "C", "B"])
    ensures bfs == Ok(["A", "B", "C"])
  {
    FanEdges();
    ExampleKeys();
    var graph := new Graph();
    graph.AddEdge("A", "B");
    graph.AddEdge("A", "C");
    StackReversesSiblings();
    dfs := graph.DepthFirstSearch("A");
    bfs := graph.BreadthFirstSearch("A");
  }

  /** The Map left by edge A-B and a second `AddVertex("A")`: B still
      lists A while A lists nothing. */
  const ReAddAdj: AdjMap := map["A" := [], "B" := ["A"]]

  lemma ReAddMap()
    ensures WithEdge(map[], "A", "B")["A" := []] == ReAddAdj
    ensures Closed(ReAddAdj) && !Symmetric(ReAddAdj)
  {
    NamesDiffer();
    FanEdges();
    assert "A" in ReAddAdj["B"] && "B" !in ReAddAdj["A"];
  }

  /** In any Map where `u` lists nothing and `v` lists only `u`, a
      breadth-first search from `u` finds only `u`, and one from `v` finds
      `v` then `u`. */
  lemma LeafFrom(g: AdjMap, u: Vertex, v: Vertex)
    requires Closed(g) && u in g && v in g && u != v
    requires g[u] == [] && g[v] == [u]
    ensures Explore(g, Fifo, [u], {u}, []) == [u]
    ensures Explore(g, Fifo, [v], {v}, []) == [v, u]
  {
    calc {
      Explore(g, Fifo, [u], {u}, []);
      { SeenStep(g, Fifo, [u], {u}, [], u, [], [u]); }
      Explore(g, Fifo, [], {u}, [u]);
    }
    DiscoverOne(u, {v});
    calc {
      Explore(g, Fifo, [v], {v}, []);
      { FirstStep(g, Fifo, v, {u, v}, [u]); }
      Explore(g, Fifo, [u], {u, v}, [v]);
      { SeenStep(g, Fifo, [u], {u, v}, [v], u, [], [v, u]); }
      Explore(g, Fifo, [], {u, v}, [v, u]);
    }
  }

  lemma ReAddTraversals()
    ensures Closed(ReAddAdj) && !Symmetric(ReAddAdj)
    ensures Traverse(ReAddAdj, Fifo, "A") == Ok(["A"])
    ensures Traverse(ReAddAdj, Fifo, "B") == Ok(["B", "A"])
  {
    ReAddMap();
    NamesDiffer();
    var g := ReAddAdj;
    assert "A" in g && "B" in g && g["A"] == [] && g["B"] == ["A"];
    LeafFrom(g, "A", "B");
  }

  /** After the re-add the count walks A then B: A reaches nothing else, so
      B opens a second component although B still lists A. */
  lemma ReAddComponents()
    ensures Reachable(ReAddAdj, "B", "A")
    ensures NewComponents(ReAddAdj, ["A", "B"]) == 2
  {
    NamesDiffer();
    var g := ReAddAdj;
    ReachableSelf(g, "B");
    ReachableStep(g, "B", "B", "A");
    assert !ReachedFrom(g, ["A"], "B") by {
      if Reachable(g, ["A"][0], "B") {
        ClosedSetContainsReachable(g, {"A"}, "A", "B");
      }
    }
    assert ["A", "B"][..1] == ["A"];
    assert ["A"][..0] == [];
  }

  /** Re-adding a vertex empties its own list but not the lists that name
      it, so B still reaches A while A no longer reaches B, and the count
      sees two components. */
  method ReAddIsDestructive() returns (forward: Result<seq<Vertex>>, backward: Result<seq<Vertex>>, components: nat)
    ensures forward == Ok(["A"])
    ensures backward == Ok(["B", "A"])
    ensures components == 2
  {
    ReAddMap();
    ReAddTraversals();
    ReAddComponents();
    ExampleKeys();
    var graph := new Graph();
    graph.AddEdge("A", "B");
    graph.AddVertex("A");
    forward := graph.BreadthFirstSearch("A");
    backward := graph.BreadthFirstSearch("B");
    components := graph.ConnectedComponents();
  }
}
