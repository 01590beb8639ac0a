/** The specification of the two traversals. Both keep a work list and a
    visited table; a vertex is marked visited when it is added to the work
    list. Breadth-first search takes the next vertex from the front of the
    list (`shift`), depth-first search from the back (`pop`); both append
    newly found neighbours at the back (`push`). */
module Traversals {
  import opened Adjacency
  import opened Reachability

  /** Which end of the work list the next vertex comes from. */
  datatype Order = Fifo | Lifo

  /** What one scan of a neighbour list leaves behind: the visited table and
      the neighbours appended to the work list, in the order they were found. */
  datatype Discovery = Discovery(visited: set<Vertex>, pushed: seq<Vertex>)

  /** The `forEach` over a neighbour list `ns`: each neighbour not yet
      visited is marked visited and pushed. */
  function Discover(ns: seq<Vertex>, visited: set<Vertex>): (d: Discovery)
    ensures forall x :: x in d.visited <==> x in visited || x in d.pushed
    ensures forall x :: x in d.pushed ==> x in ns && x !in visited
    ensures forall x :: x in ns ==> x in d.visited
    ensures Distinct(d.pushed)
    ensures (forall x :: x in ns ==> x in visited) ==> d == Discovery(visited, [])
    decreases |ns|
  {
    if ns == [] then Discovery(visited, [])
    else
      var d := Discover(ns[..|ns| - 1], visited);
      var n := ns[|ns| - 1];
      assert forall x :: x in ns <==> x in ns[..|ns| - 1] || x == n;
      if n in d.visited then d else Discovery(d.visited + {n}, d.pushed + [n])
  }

  /** Scanning one more neighbour `n`: it is pushed exactly when it is not
      yet visited. */
  lemma DiscoverSnoc(ns: seq<Vertex>, n: Vertex, visited: set<Vertex>)
    ensures var d := Discover(ns, visited);
      Discover(ns + [n], visited) ==
        if n in d.visited then d else Discovery(d.visited + {n}, d.pushed + [n])
  {
    assert (ns + [n])[..|ns|] == ns;
  }

  /** `DiscoverSnoc` for the scan of a prefix one entry longer. */
  lemma DiscoverPrefixStep(ns: seq<Vertex>, i: nat, visited: set<Vertex>)
    requires i < |ns|
    ensures var d := Discover(ns[..i], visited);
      Discover(ns[..i + 1], visited) ==
        if ns[i] in d.visited then d else Discovery(d.visited + {ns[i]}, d.pushed + [ns[i]])
  {
    assert ns[..i + 1] == ns[..i] + [ns[i]];
    DiscoverSnoc(ns[..i], ns[i], visited);
  }

  /** The scan pushes the neighbours it finds in the order they first occur
      in the list. Together with the membership facts above, this fixes
      `pushed` completely. */
  lemma {:induction false} DiscoverInListOrder(ns: seq<Vertex>, visited: set<Vertex>)
    ensures forall i, j :: 0 <= i < j < |Discover(ns, visited).pushed| ==>
      IndexOf(ns, Discover(ns, visited).pushed[i]) < IndexOf(ns, Discover(ns, visited).pushed[j])
    decreases |ns|
  {
    if ns != [] {
      var init := ns[..|ns| - 1];
      var n := ns[|ns| - 1];
      assert ns == init + [n];
      var d := Discover(init, visited);
      DiscoverInListOrder(init, visited);
      DiscoverSnoc(init, n, visited);
      InListOrderSnoc(init, n, d.pushed, Discover(ns, visited).pushed);
    }
  }

  /** The step of `DiscoverInListOrder` on sequences alone: keeping `a`, or
      appending a vertex `n` new to the list, keeps list order. */
  lemma InListOrderSnoc(init: seq<Vertex>, n: Vertex, a: seq<Vertex>, p: seq<Vertex>)
    requires forall x :: x in a ==> x in init
    requires forall i, j :: 0 <= i < j < |a| ==> IndexOf(init, a[i]) < IndexOf(init, a[j])
    requires p == a || (p == a + [n] && n !in init)
    ensures forall i, j :: 0 <= i < j < |p| ==> IndexOf(init + [n], p[i]) < IndexOf(init + [n], p[j])
  {
    IndexOfSnoc(init, n);
    forall i, j | 0 <= i < j < |p| ensures IndexOf(init + [n], p[i]) < IndexOf(init + [n], p[j]) {
      assert p[i] == a[i] && a[i] in init;
      if j < |a| {
        assert p[j] == a[j] && a[j] in init;
      } else {
        assert p[j] == n;
      }
    }
  }

  /** Every vertex a scan pushes was unvisited before, so the count of keys
      not yet visited falls by exactly the number pushed. This is what bounds
      the number of loop iterations. */
  lemma {:induction false} DiscoverShrinks(keys: set<Vertex>, ns: seq<Vertex>, visited: set<Vertex>)
    requires forall x :: x in ns ==> x in keys
    ensures |keys - Discover(ns, visited).visited| + |Discover(ns, visited).pushed| == |keys - visited|
    decreases |ns|
  {
    if ns != [] {
      var init := ns[..|ns| - 1];
      var n := ns[|ns| - 1];
      assert forall x :: x in init ==> x in ns;
      DiscoverShrinks(keys, init, visited);
      var d := Discover(init, visited);
      if n !in d.visited {
        assert keys - (d.visited + {n}) == (keys - d.visited) - {n};
        assert n in keys - d.visited;
      }
    }
  }

  /** The vertex the loop takes next. */
  function Take(order: Order, work: seq<Vertex>): Vertex
    requires work != []
  {
    if order == Fifo then work[0] else work[|work| - 1]
  }

  /** The work list after the next vertex is taken. */
  function Drop(order: Order, work: seq<Vertex>): seq<Vertex>
    requires work != []
  {
    if order == Fifo then work[1..] else work[..|work| - 1]
  }

  lemma TakeDrop(order: Order, work: seq<Vertex>)
    requires work != []
    ensures forall x :: x in work <==> x == Take(order, work) || x in Drop(order, work)
    ensures Distinct(work) ==> Distinct(Drop(order, work)) && Take(order, work) !in Drop(order, work)
  {
    var t, rest := Take(order, work), Drop(order, work);
    if order == Fifo {
      assert work == [t] + rest;
      if Distinct(work) {
        forall i, j | 0 <= i < j < |rest| ensures rest[i] != rest[j] {
          assert rest[i] == work[i + 1] && rest[j] == work[j + 1];
        }
        forall i | 0 <= i < |rest| ensures rest[i] != t {
          assert rest[i] == work[i + 1];
        }
      }
    } else {
      assert work == rest + [t];
      if Distinct(work) {
        forall i, j | 0 <= i < j < |rest| ensures rest[i] != rest[j] {
          assert rest[i] == work[i] && rest[j] == work[j];
        }
        forall i | 0 <= i < |rest| ensures rest[i] != t {
          assert rest[i] == work[i];
        }
      }
    }
  }

  /** The `while` loop of a traversal, from work list `work`, visited table
      `visited` and result so far `done`, run to the end. */
  function Explore(adj: AdjMap, order: Order, work: seq<Vertex>, visited: set<Vertex>, done: seq<Vertex>): (r: seq<Vertex>)
    requires Closed(adj)
    requires forall w :: w in work ==> w in adj
    ensures done <= r
    decreases |adj.Keys - visited| + |work|
  {
    if work == [] then done
    else
      var current := Take(order, work);
      TakeDrop(order, work);
      var d := Discover(adj[current], visited);
      DiscoverShrinks(adj.Keys, adj[current], visited);
      Explore(adj, order, Drop(order, work) + d.pushed, d.visited, done + [current])
  }

  /** One iteration of the loop, unfolded. */
  lemma ExploreStep(adj: AdjMap, order: Order, work: seq<Vertex>, visited: set<Vertex>, done: seq<Vertex>)
    requires Closed(adj)
    requires forall w :: w in work ==> w in adj
    requires work != []
    ensures Take(order, work) in adj
    ensures forall w :: w in Drop(order, work) + Discover(adj[Take(order, work)], visited).pushed ==> w in adj
    ensures Explore(adj, order, work, visited, done) ==
      Explore(adj, order, Drop(order, work) + Discover(adj[Take(order, work)], visited).pushed,
              Discover(adj[Take(order, work)], visited).visited, done + [Take(order, work)])
  {
    TakeDrop(order, work);
  }

  /** A whole traversal from `start`: an error when `start` is not a key,
      otherwise the vertices in the order they were taken from the work list. */
  function Traverse(adj: AdjMap, order: Order, start: Vertex): (r: Result<seq<Vertex>>)
    requires Closed(adj)
    ensures r.Err? <==> start !in adj
    ensures r.Err? ==> r.error == UnknownVertex(start)
    ensures r.Ok? ==> |r.value| > 0 && r.value[0] == start
  {
    if start in adj then Ok(Explore(adj, order, [start], {start}, [])) else Err(UnknownVertex(start))
  }

  /** The loop invariant of both traversals: the visited table is exactly
      what has been output or is waiting, nothing appears twice, everything
      visited is reachable from `start`, and every neighbour of an output
      vertex has been visited. */
  ghost predicate ExploreInv(adj: AdjMap, start: Vertex, work: seq<Vertex>, visited: set<Vertex>, done: seq<Vertex>)
  {
    && Closed(adj)
    && start in visited
    && Distinct(done) && Distinct(work)
    && (forall x :: x in done ==> x !in work)
    && (forall x :: x in visited <==> x in done || x in work)
    && (forall x :: x in visited ==> x in adj && Reachable(adj, start, x))
    && (forall x, y :: x in done && x in adj && y in adj[x] ==> y in visited)
  }

  /** One iteration of the loop keeps the invariant. */
  lemma StepKeepsInv(adj: AdjMap, order: Order, start: Vertex, work: seq<Vertex>, visited: set<Vertex>, done: seq<Vertex>)
    requires ExploreInv(adj, start, work, visited, done) && work != []
    ensures
      var current := Take(order, work);
      var d := Discover(adj[current], visited);
      ExploreInv(adj, start, Drop(order, work) + d.pushed, d.visited, done + [current])
  {
    var current := Take(order, work);
    var rest := Drop(order, work);
    TakeDrop(order, work);
    var d := Discover(adj[current], visited);
    assert current !in done;
    DistinctConcat(done, [current]);
    DistinctConcat(rest, d.pushed);
    forall x | x in d.pushed ensures x in adj && Reachable(adj, start, x) {
      ReachableStep(adj, start, current, x);
    }
  }

  /** The loop, started in a state satisfying the invariant, outputs every
      vertex reachable from `start` exactly once and nothing else. */
  lemma {:induction false} ExploreFindsReachable(adj: AdjMap, order: Order, start: Vertex, work: seq<Vertex>, visited: set<Vertex>, done: seq<Vertex>)
    requires ExploreInv(adj, start, work, visited, done)
    ensures Distinct(Explore(adj, order, work, visited, done))
    ensures forall x :: x in Explore(adj, order, work, visited, done) <==> x in adj && Reachable(adj, start, x)
    decreases |adj.Keys - visited| + |work|
  {
    if work == [] {
      forall x | x in adj && Reachable(adj, start, x) ensures x in done {
        ClosedSetContainsReachable(adj, visited, start, x);
      }
    } else {
      var current := Take(order, work);
      TakeDrop(order, work);
      var d := Discover(adj[current], visited);
      StepKeepsInv(adj, order, start, work, visited, done);
      DiscoverShrinks(adj.Keys, adj[current], visited);
      ExploreFindsReachable(adj, order, start, Drop(order, work) + d.pushed, d.visited, done + [current]);
    }
  }

  /** Either traversal from a key lists exactly the vertices reachable from
      it, each once, starting with the start vertex; so it takes at most one
      loop iteration per key. */
  lemma TraverseVisitsReachable(adj: AdjMap, order: Order, start: Vertex)
    requires Closed(adj) && start in adj
    ensures Traverse(adj, order, start).Ok?
    ensures var r := Traverse(adj, order, start).value;
      && r[0] == start
      && Distinct(r)
      && (forall x :: x in r <==> x in adj && Reachable(adj, start, x))
      && |r| <= |adj|
  {
    ReachableSelf(adj, start);
    ExploreFindsReachable(adj, order, start, [start], {start}, []);
    DistinctBound(Traverse(adj, order, start).value, adj.Keys);
  }

  /** Breadth-first and depth-first search from the same start list the same
      vertices; only the order differs. */
  lemma SameVerticesEitherOrder(adj: AdjMap, start: Vertex)
    requires Closed(adj)
    ensures Traverse(adj, Fifo, start).Ok? == Traverse(adj, Lifo, start).Ok?
    ensures Traverse(adj, Fifo, start).Ok? ==>
      forall x :: x in Traverse(adj, Fifo, start).value <==> x in Traverse(adj, Lifo, start).value
  {
    if start in adj {
      TraverseVisitsReachable(adj, Fifo, start);
      TraverseVisitsReachable(adj, Lifo, start);
    }
  }

  /** `x` occurs in `r` at position `lo` or later. */
  ghost predicate OccursFrom(r: seq<Vertex>, lo: nat, x: Vertex)
  {
    exists b :: lo <= b < |r| && r[b] == x
  }

  /** From position `lo` on, `x` occurs in `r` at an earlier position than
      `y` does. */
  ghost predicate PrecedesFrom(r: seq<Vertex>, lo: nat, x: Vertex, y: Vertex)
  {
    exists a, b :: lo <= a < b < |r| && r[a] == x && r[b] == y
  }

  /** `x` occurs in `r` at an earlier position than `y` does. */
  ghost predicate Before(r: seq<Vertex>, x: Vertex, y: Vertex)
  {
    PrecedesFrom(r, 0, x, y)
  }

  /** In a duplicate-free output at most one of two vertices comes first. */
  lemma BeforeExcludesAfter(r: seq<Vertex>, x: Vertex, y: Vertex)
    requires Distinct(r) && Before(r, x, y)
    ensures !Before(r, y, x)
  {
  }

  /** One iteration, in the terms the order lemmas need: `t` is taken from
      the work list, leaving `rest`, which the newly pushed vertices extend
      to `next`; `t` is output right after `done`. */
  lemma StepOf(adj: AdjMap, order: Order, work: seq<Vertex>, visited: set<Vertex>, done: seq<Vertex>)
    returns (t: Vertex, rest: seq<Vertex>, next: seq<Vertex>, visited': set<Vertex>)
    requires Closed(adj)
    requires forall w :: w in work ==> w in adj
    requires work != []
    ensures order == Fifo ==> work == [t] + rest
    ensures order == Lifo ==> work == rest + [t]
    ensures rest <= next
    ensures forall w :: w in next ==> w in adj
    ensures |adj.Keys - visited'| + |next| < |adj.Keys - visited| + |work|
    ensures Explore(adj, order, work, visited, done) == Explore(adj, order, next, visited', done + [t])
    ensures |done| < |Explore(adj, order, work, visited, done)|
    ensures Explore(adj, order, work, visited, done)[|done|] == t
  {
    t, rest := Take(order, work), Drop(order, work);
    var d := Discover(adj[t], visited);
    next, visited' := rest + d.pushed, d.visited;
    WorkSplits(order, work);
    assert Explore(adj, order, work, visited, done) == Explore(adj, order, next, visited', done + [t])
        && forall w :: w in next ==> w in adj by {
      ExploreStep(adj, order, work, visited, done);
    }
    DiscoverShrinks(adj.Keys, adj[t], visited);
    PrefixLast(done, t, Explore(adj, order, next, visited', done + [t]));
  }

  /** An output that begins with `done + [t]` has `t` at position `|done|`. */
  lemma PrefixLast(done: seq<Vertex>, t: Vertex, r: seq<Vertex>)
    requires done + [t] <= r
    ensures |done| < |r| && r[|done|] == t
  {
    assert (done + [t])[|done|] == t;
  }

  /** With a queue, the loop outputs the whole work list, in order, right
      after what is already output. */
  lemma {:induction false} QueueOrder(adj: AdjMap, work: seq<Vertex>, visited: set<Vertex>, done: seq<Vertex>)
    requires Closed(adj)
    requires forall w :: w in work ==> w in adj
    ensures done + work <= Explore(adj, Fifo, work, visited, done)
    decreases |adj.Keys - visited| + |work|
  {
    if work != [] {
      var t, rest, next, visited' := StepOf(adj, Fifo, work, visited, done);
      QueueOrder(adj, next, visited', done + [t]);
      PrefixStep(done, t, rest, next, Explore(adj, Fifo, next, visited', done + [t]));
    }
  }

  /** The step of `QueueOrder` on sequences alone. */
  lemma PrefixStep(done: seq<Vertex>, t: Vertex, rest: seq<Vertex>, next: seq<Vertex>, r: seq<Vertex>)
    requires (done + [t]) + next <= r && rest <= next
    ensures done + ([t] + rest) <= r
  {
    assert done + ([t] + rest) == (done + [t]) + rest;
    assert (done + [t]) + rest <= (done + [t]) + next;
  }

  /** With a stack, every vertex of the work list is output after what is
      already output. */
  lemma {:induction false} StackOutputsWork(adj: AdjMap, work: seq<Vertex>, visited: set<Vertex>, done: seq<Vertex>)
    requires Closed(adj)
    requires forall w :: w in work ==> w in adj
    ensures var r := Explore(adj, Lifo, work, visited, done);
      forall i :: 0 <= i < |work| ==> OccursFrom(r, |done|, work[i])
    decreases |adj.Keys - visited| + |work|
  {
    if work != [] {
      var t, rest, next, visited' := StepOf(adj, Lifo, work, visited, done);
      StackOutputsWork(adj, next, visited', done + [t]);
      OccursStep(Explore(adj, Lifo, next, visited', done + [t]), |done|, t, rest, next);
    }
  }

  /** The step of `StackOutputsWork` on positions alone. */
  lemma OccursStep(r: seq<Vertex>, lo: nat, t: Vertex, rest: seq<Vertex>, next: seq<Vertex>)
    requires lo < |r| && r[lo] == t && rest <= next
    requires forall i :: 0 <= i < |next| ==> OccursFrom(r, lo + 1, next[i])
    ensures forall i :: 0 <= i < |rest + [t]| ==> OccursFrom(r, lo, (rest + [t])[i])
  {
    var work := rest + [t];
    forall i | 0 <= i < |work| ensures OccursFrom(r, lo, work[i]) {
      if i < |rest| {
        assert next[i] == rest[i] == work[i];
        assert OccursFrom(r, lo + 1, next[i]);
        var b :| lo + 1 <= b < |r| && r[b] == next[i];
        assert r[b] == work[i];
      } else {
        assert r[lo] == work[i];
      }
    }
  }

  /** With a stack, of two vertices waiting in the work list the one nearer
      the top (pushed later) is output first. */
  lemma {:induction false} StackOrder(adj: AdjMap, work: seq<Vertex>, visited: set<Vertex>, done: seq<Vertex>)
    requires Closed(adj)
    requires forall w :: w in work ==> w in adj
    ensures var r := Explore(adj, Lifo, work, visited, done);
      forall i, j :: 0 <= i < j < |work| ==>
        PrecedesFrom(r, |done|, work[j], work[i])
    decreases |adj.Keys - visited| + |work|
  {
    if work != [] {
      var t, rest, next, visited' := StepOf(adj, Lifo, work, visited, done);
      StackOrder(adj, next, visited', done + [t]);
      StackOutputsWork(adj, next, visited', done + [t]);
      StackStep(Explore(adj, Lifo, next, visited', done + [t]), |done|, t, rest, next);
    }
  }

  /** The step of `StackOrder` on positions alone: `t`, the top of the
      stack, is output at `lo`, and the order of the rest of the stack and
      what was pushed on it is known from `lo + 1` on. */
  lemma StackStep(r: seq<Vertex>, lo: nat, t: Vertex, rest: seq<Vertex>, next: seq<Vertex>)
    requires lo < |r| && r[lo] == t && rest <= next
    requires forall i :: 0 <= i < |next| ==> OccursFrom(r, lo + 1, next[i])
    requires forall i, j :: 0 <= i < j < |next| ==> PrecedesFrom(r, lo + 1, next[j], next[i])
    ensures forall i, j :: 0 <= i < j < |rest + [t]| ==> PrecedesFrom(r, lo, (rest + [t])[j], (rest + [t])[i])
  {
    var work := rest + [t];
    forall i, j | 0 <= i < j < |work|
      ensures PrecedesFrom(r, lo, work[j], work[i])
    {
      assert next[i] == rest[i] == work[i];
      if j == |work| - 1 {
        assert OccursFrom(r, lo + 1, next[i]);
        var b :| lo + 1 <= b < |r| && r[b] == next[i];
        assert r[lo] == work[j] && r[b] == work[i];
      } else {
        assert next[j] == rest[j] == work[j];
        assert PrecedesFrom(r, lo + 1, next[j], next[i]);
        var a, b :| lo + 1 <= a < b < |r| && r[a] == next[j] && r[b] == next[i];
        assert r[a] == work[j] && r[b] == work[i];
      }
    }
  }

  /** Two unvisited neighbours, `x` listed before `y`, are both pushed by
      the scan, `x` first. */
  lemma PushedInListOrder(ns: seq<Vertex>, visited: set<Vertex>, x: Vertex, y: Vertex)
    returns (i: nat, j: nat)
    requires x in ns && y in ns && x !in visited && y !in visited
    requires IndexOf(ns, x) < IndexOf(ns, y)
    ensures i < j < |Discover(ns, visited).pushed|
    ensures Discover(ns, visited).pushed[i] == x && Discover(ns, visited).pushed[j] == y
  {
    var d := Discover(ns, visited);
    assert x in d.pushed && y in d.pushed && x != y;
    i :| 0 <= i < |d.pushed| && d.pushed[i] == x;
    j :| 0 <= j < |d.pushed| && d.pushed[j] == y;
    DiscoverInListOrder(ns, visited);
  }

  /** Where two elements of `b` sit in `a + b`. */
  lemma AppendedAt(a: seq<Vertex>, b: seq<Vertex>, i: nat, j: nat) returns (p: nat, q: nat)
    requires i < j < |b|
    ensures |a| <= p < q < |a + b| && (a + b)[p] == b[i] && (a + b)[q] == b[j]
  {
    p, q := |a| + i, |a| + j;
  }

  /** One iteration that takes `t` and finds its unvisited neighbours `x`
      and `y`, `x` listed before `y`: both are pushed, `x` first, behind
      what was waiting. */
  lemma SiblingStep(adj: AdjMap, order: Order, work: seq<Vertex>, visited: set<Vertex>, done: seq<Vertex>, x: Vertex, y: Vertex)
    returns (t: Vertex, rest: seq<Vertex>, next: seq<Vertex>, visited': set<Vertex>, p: nat, q: nat)
    requires Closed(adj)
    requires forall w :: w in work ==> w in adj
    requires work != [] && Take(order, work) in adj
    requires x in adj[Take(order, work)] && y in adj[Take(order, work)] && x !in visited && y !in visited
    requires IndexOf(adj[Take(order, work)], x) < IndexOf(adj[Take(order, work)], y)
    ensures t == Take(order, work) && rest == Drop(order, work)
    ensures order == Fifo ==> work == [t] + rest
    ensures order == Lifo ==> work == rest + [t]
    ensures |rest| <= p < q < |next| && next[p] == x && next[q] == y
    ensures forall w :: w in next ==> w in adj
    ensures Explore(adj, order, work, visited, done) == Explore(adj, order, next, visited', done + [t])
  {
    t, rest := Take(order, work), Drop(order, work);
    var d := Discover(adj[t], visited);
    next, visited' := rest + d.pushed, d.visited;
    var i, j := PushedInListOrder(adj[t], visited, x, y);
    p, q := AppendedAt(rest, d.pushed, i, j);
    WorkSplits(order, work);
    assert Explore(adj, order, work, visited, done) == Explore(adj, order, next, visited', done + [t])
        && forall w :: w in next ==> w in adj by {
      ExploreStep(adj, order, work, visited, done);
    }
  }

  /** The work list is the vertex taken next together with what is left. */
  lemma WorkSplits(order: Order, work: seq<Vertex>)
    requires work != []
    ensures order == Fifo ==> work == [Take(order, work)] + Drop(order, work)
    ensures order == Lifo ==> work == Drop(order, work) + [Take(order, work)]
  {
    if order == Fifo {
      assert work == [work[0]] + work[1..];
    } else {
      assert work == work[..|work| - 1] + [work[|work| - 1]];
    }
  }

  /** Two unvisited neighbours of the vertex the queue hands out next, `x`
      listed before `y`: `x` is output first. */
  lemma QueueSiblings(adj: AdjMap, work: seq<Vertex>, visited: set<Vertex>, done: seq<Vertex>, x: Vertex, y: Vertex)
    requires Closed(adj)
    requires forall w :: w in work ==> w in adj
    requires work != [] && work[0] in adj
    requires x in adj[work[0]] && y in adj[work[0]] && x !in visited && y !in visited
    requires IndexOf(adj[work[0]], x) < IndexOf(adj[work[0]], y)
    ensures Before(Explore(adj, Fifo, work, visited, done), x, y)
  {
    var t, rest, next, visited', p, q := SiblingStep(adj, Fifo, work, visited, done, x, y);
    var done' := done + [t];
    QueueOrder(adj, next, visited', done');
    PrefixKeepsOrder(done', next, Explore(adj, Fifo, next, visited', done'), p, q);
  }

  /** An output that begins with `done` followed by `next` has `next[p]`
      before `next[q]` when `p < q`. */
  lemma PrefixKeepsOrder(done: seq<Vertex>, next: seq<Vertex>, r: seq<Vertex>, p: nat, q: nat)
    requires done + next <= r && p < q < |next|
    ensures Before(r, next[p], next[q])
  {
    var pre := done + next;
    assert pre[|done| + p] == next[p] && pre[|done| + q] == next[q];
    assert r[|done| + p] == next[p] && r[|done| + q] == next[q];
  }

  /** Two unvisited neighbours of the vertex the stack hands out next, `x`
      listed before `y`: `y` is output first. */
  lemma StackSiblings(adj: AdjMap, work: seq<Vertex>, visited: set<Vertex>, done: seq<Vertex>, x: Vertex, y: Vertex)
    requires Closed(adj)
    requires forall w :: w in work ==> w in adj
    requires work != [] && work[|work| - 1] in adj
    requires x in adj[work[|work| - 1]] && y in adj[work[|work| - 1]] && x !in visited && y !in visited
    requires IndexOf(adj[work[|work| - 1]], x) < IndexOf(adj[work[|work| - 1]], y)
    ensures Before(Explore(adj, Lifo, work, visited, done), y, x)
  {
    var t, rest, next, visited', p, q := SiblingStep(adj, Lifo, work, visited, done, x, y);
    var done' := done + [t];
    StackOrder(adj, next, visited', done');
    var r := Explore(adj, Lifo, next, visited', done');
    assert PrecedesFrom(r, |done'|, next[q], next[p]);
    var a, b :| |done'| <= a < b < |r| && r[a] == y && r[b] == x;
  }

  /** Either traversal from `start` meets the unvisited neighbours of
      `start` in its first iteration: breadth-first search outputs them in
      list order, depth-first search in reverse list order. */
  lemma NeighboursInListOrder(adj: AdjMap, start: Vertex, x: Vertex, y: Vertex)
    requires Closed(adj) && start in adj
    requires x in adj[start] && y in adj[start] && x != start && y != start
    requires IndexOf(adj[start], x) < IndexOf(adj[start], y)
    ensures Traverse(adj, Fifo, start).Ok? && Traverse(adj, Lifo, start).Ok?
    ensures Before(Traverse(adj, Fifo, start).value, x, y)
    ensures !Before(Traverse(adj, Fifo, start).value, y, x)
    ensures Before(Traverse(adj, Lifo, start).value, y, x)
    ensures !Before(Traverse(adj, Lifo, start).value, x, y)
  {
    QueueSiblings(adj, [start], {start}, [], x, y);
    StackSiblings(adj, [start], {start}, [], x, y);
    TraverseVisitsReachable(adj, Fifo, start);
    TraverseVisitsReachable(adj, Lifo, start);
    BeforeExcludesAfter(Traverse(adj, Fifo, start).value, x, y);
    BeforeExcludesAfter(Traverse(adj, Lifo, start).value, y, x);
  }
}
