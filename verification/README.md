# Undirected graph with breadth-first, depth-first and component search

This project is a Dafny model of the `Graph` class in `index.js`. The class
keeps an ES6 `Map` from each vertex to an array of its neighbours. It offers:

- `addVertex`, which inserts a vertex or resets an existing one to an empty list;
- `addEdge`, which creates missing endpoints and then appends each endpoint to
  the other's list;
- `printGraph`, which lists the Map;
- `breadthFirstSearch` and `depthFirstSearch`, which run a queue or a stack
  together with a visited table;
- `connectedComponents`, which walks the keys and runs one depth-first search
  per key not yet seen.

The model is a Dafny `class Graph` with two fields:

- `keys: seq<Vertex>` holds the Map's keys in insertion order;
- `adj: map<Vertex, seq<Vertex>>` holds the Map itself.

The class methods mutate these fields, or read them inside `while`/`for`
loops, the same way the source does. Vertices are strings.

Each method is proved against a specification:

- `Traversals.Discover` is the neighbour scan (the `forEach`).
- `Traversals.Explore` is the whole `while` loop. `Fifo` takes from the front
  (`shift`) and `Lifo` from the back (`pop`).
- `Components.NewComponents` is the component count.

Lemmas then prove what these specifications promise:

- A traversal lists exactly the vertices reachable from its start, each
  once, starting with the start vertex.
- The neighbour scan pushes neighbours in the order they first occur in the
  list. So, in any closed Map, take two neighbours of the start other than
  the start itself. Breadth-first search outputs them in list order, and
  depth-first search outputs them in reverse order.
- The count is the number of keys that no earlier key reaches. When the Map
  is symmetric, this equals the number of connected components. In a
  symmetric Map, re-adding a vertex that has a neighbour other than itself
  makes the Map asymmetric:
  after edge A-B and a second `addVertex(A)`, B still lists A, yet the count
  is 2.

Edges are followed in the direction they are listed. Re-adding a vertex
empties its own list, but other lists still name it, so the Map need not stay
symmetric. Closure does hold after every operation: every listed neighbour is
a key. `Graph.Valid()` states closure, and it is why every lookup a traversal
makes succeeds.

Files:

- `adjacency.dfy`: vertices, the Map type, duplicate-freedom, closure and symmetry.
- `reachability.dfy`: walks and reachability.
- `traversals.dfy`: the specification of both searches.
- `components.dfy`: the specification of the component count.
- `graph.dfy`: the class.
- `demo.dfy`: the script at the end of `index.js` and the sibling-order example,
  written as clients.

## Model

| member | source | states |
|---|---|---|
| `Graphs.Graph.constructor` | index.js:4-8 | a new graph has no keys and an empty Map, and the closure invariant holds |
| `Graphs.Graph.AddVertex` | index.js:9-11 | afterwards `v` maps to the empty list even if it had neighbours; every other list is unchanged; an existing key keeps its place and a new key goes last; closure still holds |
| `Graphs.Enrolled` | index.js:10 | `Map.set` key order: the old key order is a prefix of the new one; the keys gain exactly `v`; no key appears twice |
| `Graphs.WithEdge` | index.js:12-23 | `addEdge` on the Map: the keys become the old keys plus `u` and `v`; `u`'s list gains `v` and `v`'s list gains `u`; a self-loop appends `u` twice; other lists are unchanged; every old list is a prefix of its new list |
| `Graphs.Graph.AddEdge` | index.js:12-23 | the Map becomes `WithEdge` of the old Map; the keys are the old keys followed by any new endpoint, in call order; closure holds; a symmetric Map stays symmetric |
| `Graphs.WithEdgeKeepsClosed` | index.js:14-22 | creating missing endpoints before pushing keeps every listed neighbour a key |
| `Graphs.WithEdgeKeepsSymmetric` | index.js:20-22 | recording the edge at both ends keeps a symmetric Map symmetric |
| `Graphs.WithEdgeKeepsReachable` | index.js:21-22 | adding an edge never removes or reorders entries, so every walk survives |
| `Graphs.Graph.ListAdjacency` | index.js:25-34 | one line per key, in key order, pairing the key with its current neighbour list |
| `Traversals.Discover` | index.js:46-51 | the scan marks every neighbour visited; what it pushes is exactly the newly visited vertices; they were unvisited and listed, and none is pushed twice; a list whose vertices are all visited changes nothing (the push order is stated by `Traversals.DiscoverInListOrder`) |
| `Traversals.DiscoverInListOrder` | index.js:46-50 | the scan pushes the vertices it finds in the order they first occur in the neighbour list |
| `Graphs.ScanNeighbours` | index.js:46-51 | the loop leaves the visited table and work list that `Discover` describes; the pushed vertices are appended after the old work list |
| `Traversals.DiscoverShrinks` | index.js:47-50 | marking before pushing makes the number of unvisited keys fall by exactly the number pushed, which bounds the loop |
| `Traversals.Explore` | index.js:43-52 | the loop only appends to the result array: the result so far is a prefix of the final result |
| `Traversals.Traverse` | index.js:35-55 | a traversal fails exactly when the start is not a key; otherwise its result begins with the start vertex |
| `Traversals.StepKeepsInv` | index.js:43-51 | one iteration keeps the invariant: visited is what is output or waiting, nothing appears twice, all of it is reachable, and every output vertex has all its neighbours visited |
| `Traversals.ExploreFindsReachable` | index.js:43-52 | from an invariant state the loop outputs every vertex reachable from the start exactly once and nothing else |
| `Traversals.TraverseVisitsReachable` | index.js:35-55 | from a key, either traversal starts with that key, has no duplicates, equals the reachable set, and so runs at most one iteration per key |
| `Traversals.SameVerticesEitherOrder` | index.js:56-77 | depth-first and breadth-first search from the same start list the same vertices |
| `Traversals.QueueOrder` | index.js:43-52 | with `shift`, the whole queue is output, in queue order, directly after what has already been output |
| `Traversals.StackOutputsWork` | index.js:64-73 | with `pop`, every vertex waiting on the stack is output after what has already been output |
| `Traversals.StackOrder` | index.js:64-73 | with `pop`, of two vertices waiting on the stack, the one pushed later is output first |
| `Traversals.QueueSiblings` | index.js:43-51 | when the vertex at the head of the queue lists unvisited `x` before unvisited `y`, `x` is output before `y` |
| `Traversals.StackSiblings` | index.js:64-73 | when the vertex on top of the stack lists unvisited `x` before unvisited `y`, `y` is output before `x` |
| `Traversals.NeighboursInListOrder` | index.js:35-77 | in any closed Map, if the start lists `x` before `y` (neither being the start), breadth-first search outputs `x` before `y` and never `y` before `x`; depth-first search outputs `y` before `x` and never `x` before `y` |
| `Graphs.Graph.BreadthFirstSearch` | index.js:35-55 | the result is the queue-order traversal; it is an error iff the start is missing; otherwise it starts with the start, is duplicate-free, equals the reachable set and is no longer than the key count |
| `Graphs.Graph.DepthFirstSearch` | index.js:56-77 | the same facts for the stack-order traversal |
| `Reachability.ReachableSymmetric` | index.js:20-22 | in a Map where every edge is listed at both ends, reachability runs both ways |
| `Components.NewComponents` | index.js:78-91 | the count is at most the number of keys, and it is 0 exactly when there are no keys |
| `Components.NewComponentsSnoc` | index.js:82-87 | one iteration of the loop: given the set of vertices reached from earlier keys, the next key adds one to the count exactly when it is not in that set, and the set then grows by exactly what the key reaches |
| `Components.ComponentsOfSnoc` | index.js:82-87 | in a symmetric Map, one more key adds a new connected component exactly when no earlier key reaches it |
| `Components.NewComponentsCountsComponents` | index.js:78-91 | in a symmetric Map, counting keys that no earlier key reaches gives the number of distinct connected components |
| `Graphs.Graph.ConnectedComponents` | index.js:78-91 | the count is the number of keys that no earlier key reaches; it is at most the key count and 0 iff there are no keys; in a symmetric Map it is the number of connected components |
| `Demo.PairFrom` | index.js:35-77 | in any Map where `u` and `v` list only each other, either traversal from `u` outputs [u, v] |
| `Demo.ScriptTraversals` | index.js:104-106 | in the script's Map, breadth-first search from A gives [A, B], from B gives [B, A], and depth-first search from A gives [A, B] |
| `Demo.ScriptComponents` | index.js:107 | the script's Map, with edges A-B and C-D, has two components |
| `Demo.RunScript` | index.js:94-107 | the script run through the class methods lists the Map as A: [B], B: [A], C: [D], D: [C] in key order, and yields those traversals and the count 2 |
| `Demo.FanDepthFirst` | index.js:64-73 | in any Map where `a` lists `b` then `c`, and `b` and `c` list only `a`, depth-first search from `a` outputs [a, c, b] |
| `Demo.FanBreadthFirst` | index.js:43-52 | in the same Map, breadth-first search from `a` outputs [a, b, c] |
| `Demo.StackReversesSiblings` | index.js:64-73 | in the Map where A lists B then C, and B and C list only A, depth-first search from A gives [A, C, B] and breadth-first search gives [A, B, C] |
| `Demo.SiblingOrder` | index.js:56-77 | the same orders come out of the class methods once `addEdge(A, B)` and `addEdge(A, C)` have built the graph |
| `Demo.LeafFrom` | index.js:35-55 | in any Map where `u` lists nothing and `v` lists only `u`, breadth-first search from `u` outputs [u] and from `v` outputs [v, u] |
| `Demo.ReAddTraversals` | index.js:9-11 | after edge A-B and a second `addVertex(A)`, the Map is not symmetric; from A only A is found, and from B both B and A |
| `Demo.ReAddComponents` | index.js:78-91 | after the re-add, B still reaches A, yet the count over keys A, B is 2, because A reaches nothing else |
| `Demo.ReAddIsDestructive` | index.js:9-11 | the same outcome through the class methods: re-adding a vertex discards its edges at its own end only; breadth-first search gives [A] from A and [B, A] from B, and the count is 2 |

## Left out

- `Graphs.Graph.BreadthFirstSearch` and `Graphs.Graph.DepthFirstSearch`: with a start vertex that is not a key, the source throws a `TypeError`, after pushing the start into its result array. The model returns `Err(UnknownVertex(start))` before the loop starts.
- All `console.log` output in `printGraph`, `breadthFirstSearch`, `depthFirstSearch` and `connectedComponents` is I/O and is not modelled. `printGraph` is modelled as `ListAdjacency`, which returns the (key, neighbour list) pairs. The `join(" ")` text formatting is not modelled.
- The constructor argument `numOfVertices` is stored but never read, so the model drops it.
- The visited table of both traversals is a plain object. A vertex whose name is inherited from `Object.prototype`, such as `"toString"` or `"constructor"`, therefore reads as already visited in the source, and non-string identifiers are coerced to strings. The model fixes vertices to strings and uses a true set, so neither quirk is modelled.
- The script's own graph is built with `new Graph()`, without an argument. That has no effect, for the reason given above.
