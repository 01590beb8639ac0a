/** The specification of component counting. The count walks the keys in
    insertion order and starts a new component at each key that no earlier
    key reaches. */
module Components {
  import opened Adjacency
  import opened Reachability

  /** `x` is reachable from some vertex of `ks`. */
  ghost predicate ReachedFrom(adj: AdjMap, ks: seq<Vertex>, x: Vertex)
  {
    exists j :: 0 <= j < |ks| && Reachable(adj, ks[j], x)
  }

  lemma ReachedFromSnoc(adj: AdjMap, ks: seq<Vertex>, k: Vertex, x: Vertex)
    ensures ReachedFrom(adj, ks + [k], x) <==> ReachedFrom(adj, ks, x) || Reachable(adj, k, x)
  {
    if ReachedFrom(adj, ks, x) {
      var j :| 0 <= j < |ks| && Reachable(adj, ks[j], x);
      assert (ks + [k])[j] == ks[j];
    }
    if Reachable(adj, k, x) {
      assert (ks + [k])[|ks|] == k;
    }
    if ReachedFrom(adj, ks + [k], x) {
      var j :| 0 <= j < |ks + [k]| && Reachable(adj, (ks + [k])[j], x);
      if j < |ks| {
        assert (ks + [k])[j] == ks[j];
      }
    }
  }

  /** The number of entries of `ks` that no earlier entry reaches: at most
      one new component per key, and at least one when there is any key. */
  ghost function NewComponents(adj: AdjMap, ks: seq<Vertex>): (n: nat)
    ensures n <= |ks|
    ensures n == 0 <==> ks == []
    decreases |ks|
  {
    if ks == [] then 0
    else
      var init := ks[..|ks| - 1];
      NewComponents(adj, init) + (if ReachedFrom(adj, init, ks[|ks| - 1]) then 0 else 1)
  }

  /** One iteration of the count: given the set of vertices reached from
      `ks`, the next key `node` opens a new component exactly when it is not
      in that set, and what it reaches is then added. */
  lemma NewComponentsSnoc(adj: AdjMap, ks: seq<Vertex>, node: Vertex, reached: set<Vertex>)
    requires node in adj
    requires forall x :: x in reached <==> x in adj && ReachedFrom(adj, ks, x)
    ensures NewComponents(adj, ks + [node]) == NewComponents(adj, ks) + (if node in reached then 0 else 1)
    ensures forall x :: x in adj && ReachedFrom(adj, ks + [node], x) <==>
      x in reached || (x in adj && Reachable(adj, node, x))
    ensures node in reached ==> forall x :: x in adj && Reachable(adj, node, x) ==> x in reached
  {
    assert (ks + [node])[..|ks|] == ks;
    forall x ensures ReachedFrom(adj, ks + [node], x) <==> ReachedFrom(adj, ks, x) || Reachable(adj, node, x) {
      ReachedFromSnoc(adj, ks, node, x);
    }
    if node in reached {
      forall x | x in adj && Reachable(adj, node, x) ensures x in reached {
        var j :| 0 <= j < |ks| && Reachable(adj, ks[j], node);
        ReachableTrans(adj, ks[j], node, x);
      }
    }
  }

  /** The vertices reachable from `v`: its connected component when the Map
      is symmetric. */
  ghost function ComponentOf(adj: AdjMap, v: Vertex): set<Vertex>
  {
    set x | x in adj && Reachable(adj, v, x)
  }

  /** The distinct components of the vertices in `ks`. */
  ghost function ComponentsOf(adj: AdjMap, ks: seq<Vertex>): set<set<Vertex>>
  {
    set k | k in ks :: ComponentOf(adj, k)
  }

  /** In a symmetric Map, one more key adds a component exactly when no
      earlier key reaches it. */
  lemma ComponentsOfSnoc(adj: AdjMap, init: seq<Vertex>, last: Vertex)
    requires Symmetric(adj) && last in adj
    ensures |ComponentsOf(adj, init + [last])| ==
      |ComponentsOf(adj, init)| + (if ReachedFrom(adj, init, last) then 0 else 1)
  {
    assert ComponentsOf(adj, init + [last]) == ComponentsOf(adj, init) + {ComponentOf(adj, last)} by {
      assert forall k :: k in init + [last] <==> k in init || k == last;
    }
    if ReachedFrom(adj, init, last) {
      var j :| 0 <= j < |init| && Reachable(adj, init[j], last);
      ReachableSymmetric(adj, init[j], last);
      forall x ensures x in ComponentOf(adj, last) <==> x in ComponentOf(adj, init[j]) {
        if x in ComponentOf(adj, last) {
          ReachableTrans(adj, init[j], last, x);
        }
        if x in ComponentOf(adj, init[j]) {
          ReachableTrans(adj, last, init[j], x);
        }
      }
      assert ComponentOf(adj, last) == ComponentOf(adj, init[j]);
      assert ComponentOf(adj, last) in ComponentsOf(adj, init);
      assert ComponentsOf(adj, init + [last]) == ComponentsOf(adj, init);
    } else {
      forall k | k in init ensures ComponentOf(adj, k) != ComponentOf(adj, last) {
        assert !Reachable(adj, k, last);
        ReachableSelf(adj, last);
        assert last in ComponentOf(adj, last) && last !in ComponentOf(adj, k);
      }
      assert ComponentOf(adj, last) !in ComponentsOf(adj, init);
      assert |ComponentsOf(adj, init) + {ComponentOf(adj, last)}| == |ComponentsOf(adj, init)| + 1;
    }
  }

  /** In a symmetric Map the new-component count is the number of distinct
      connected components among the vertices of `ks`. */
  lemma {:induction false} NewComponentsCountsComponents(adj: AdjMap, ks: seq<Vertex>)
    requires Symmetric(adj)
    requires forall k :: k in ks ==> k in adj
    ensures NewComponents(adj, ks) == |ComponentsOf(adj, ks)|
    decreases |ks|
  {
    if ks != [] {
      var init := ks[..|ks| - 1];
      var last := ks[|ks| - 1];
      assert ks == init + [last];
      NewComponentsCountsComponents(adj, init);
      ComponentsOfSnoc(adj, init, last);
    }
  }
}
