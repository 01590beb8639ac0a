/** Reachability along neighbour lists. Edges are followed in the direction
    they are listed: re-adding a vertex empties its own list while other
    lists still name it, so the Map need not stay symmetric. */
module Reachability {
  import opened Adjacency

  /** `p` is a walk: each vertex after the first is listed as a neighbour of
      the one before it. */
  ghost predicate IsPath(adj: AdjMap, p: seq<Vertex>)
  {
    && |p| > 0
    && forall i :: 0 <= i < |p| - 1 ==> p[i] in adj && p[i + 1] in adj[p[i]]
  }

  /** Some walk leads from `u` to `v`. */
  ghost predicate Reachable(adj: AdjMap, u: Vertex, v: Vertex)
  {
    exists p :: IsPath(adj, p) && p[0] == u && p[|p| - 1] == v
  }

  lemma ReachableSelf(adj: AdjMap, u: Vertex)
    ensures Reachable(adj, u, u)
  {
    assert IsPath(adj, [u]);
  }

  /** A walk to `x` extends by one edge out of `x`. */
  lemma ReachableStep(adj: AdjMap, u: Vertex, x: Vertex, y: Vertex)
    requires Reachable(adj, u, x)
    requires x in adj && y in adj[x]
    ensures Reachable(adj, u, y)
  {
    var p :| IsPath(adj, p) && p[0] == u && p[|p| - 1] == x;
    var q := p + [y];
    forall i | 0 <= i < |q| - 1 ensures q[i] in adj && q[i + 1] in adj[q[i]] {
      if i < |p| - 1 {
        assert q[i] == p[i] && q[i + 1] == p[i + 1];
      } else {
        assert q[i] == x && q[i + 1] == y;
      }
    }
    assert IsPath(adj, q) && q[0] == u && q[|q| - 1] == y;
  }

  lemma {:induction false} ReachableAlong(adj: AdjMap, u: Vertex, q: seq<Vertex>)
    requires IsPath(adj, q) && Reachable(adj, u, q[0])
    ensures Reachable(adj, u, q[|q| - 1])
    decreases |q|
  {
    if |q| > 1 {
      var init := q[..|q| - 1];
      assert IsPath(adj, init) by {
        forall i | 0 <= i < |init| - 1 ensures init[i] in adj && init[i + 1] in adj[init[i]] {
          assert init[i] == q[i] && init[i + 1] == q[i + 1];
        }
      }
      ReachableAlong(adj, u, init);
      ReachableStep(adj, u, q[|q| - 2], q[|q| - 1]);
    }
  }

  lemma ReachableTrans(adj: AdjMap, u: Vertex, v: Vertex, w: Vertex)
    requires Reachable(adj, u, v) && Reachable(adj, v, w)
    ensures Reachable(adj, u, w)
  {
    var q :| IsPath(adj, q) && q[0] == v && q[|q| - 1] == w;
    ReachableAlong(adj, u, q);
  }

  /** In a symmetric Map every walk can be retraced backwards. */
  lemma {:induction false} PathBack(adj: AdjMap, p: seq<Vertex>)
    requires Symmetric(adj) && IsPath(adj, p)
    ensures Reachable(adj, p[|p| - 1], p[0])
    decreases |p|
  {
    if |p| == 1 {
      ReachableSelf(adj, p[0]);
    } else {
      var n := |p|;
      var init := p[..n - 1];
      assert IsPath(adj, init) by {
        forall i | 0 <= i < |init| - 1 ensures init[i] in adj && init[i + 1] in adj[init[i]] {
          assert init[i] == p[i] && init[i + 1] == p[i + 1];
        }
      }
      PathBack(adj, init);
      assert p[n - 2] in adj && p[n - 1] in adj[p[n - 2]];
      ReachableSelf(adj, p[n - 1]);
      ReachableStep(adj, p[n - 1], p[n - 1], p[n - 2]);
      ReachableTrans(adj, p[n - 1], p[n - 2], p[0]);
    }
  }

  lemma ReachableSymmetric(adj: AdjMap, u: Vertex, v: Vertex)
    requires Symmetric(adj) && Reachable(adj, u, v)
    ensures Reachable(adj, v, u)
  {
    var p :| IsPath(adj, p) && p[0] == u && p[|p| - 1] == v;
    PathBack(adj, p);
  }

  /** A set that holds `p[0]` and every neighbour of each of its members
      holds the end of the walk `p`. */
  lemma {:induction false} PathStaysIn(adj: AdjMap, S: set<Vertex>, p: seq<Vertex>)
    requires IsPath(adj, p) && p[0] in S
    requires forall x, y :: x in S && x in adj && y in adj[x] ==> y in S
    ensures p[|p| - 1] in S
    decreases |p|
  {
    if |p| > 1 {
      var init := p[..|p| - 1];
      assert IsPath(adj, init) by {
        forall i | 0 <= i < |init| - 1 ensures init[i] in adj && init[i + 1] in adj[init[i]] {
          assert init[i] == p[i] && init[i + 1] == p[i + 1];
        }
      }
      PathStaysIn(adj, S, init);
      assert p[|p| - 2] in adj && p[|p| - 1] in adj[p[|p| - 2]];
    }
  }

  /** Everything reachable from a member of a neighbour-closed set lies in it. */
  lemma ClosedSetContainsReachable(adj: AdjMap, S: set<Vertex>, u: Vertex, v: Vertex)
    requires u in S
    requires forall x, y :: x in S && x in adj && y in adj[x] ==> y in S
    requires Reachable(adj, u, v)
    ensures v in S
  {
    var p :| IsPath(adj, p) && p[0] == u && p[|p| - 1] == v;
    PathStaysIn(adj, S, p);
  }
}
