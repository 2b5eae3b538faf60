# Stepwise Kruskal over a derived graph, in Dafny

This project models the computational core of a small Kotlin/Processing sketch
(`src/Main.kt`). The sketch draws a random graph and builds its minimum
spanning tree one edge per key press with Kruskal's algorithm. The model has
four modules:

- `UnionFind` (`union_find.dfy`): the `DisjointSets` class. Its parent array is
  a Dafny `array<int>`. `Union` overwrites one slot. `FindRoot` walks to the
  root and compresses the path. The ghost theory underneath is the walk along
  parent links, acyclicity (every node reaches a self-parented node), the root
  of a node, the partition (`RootsOf`) and the set of roots (`Roots`).
- `GraphModel` (`graph_model.dfy`): the chain of N×N matrices derived from the
  directed adjacency `matrix` and the integer cell weights. These are the
  undirected projection `unimatrix`, the gated weights `C`, the presence `D`,
  the asymmetry `H`, the upper triangle `Tr`, and the symmetric derived weight
  `W`. `W` is filled by the source's nested loop (`BuildWeights`).
- `Edges` (`edges.dfy`): the `Edge` value and the stable sort by weight that
  the source gets from `sortBy`. The sort is written as an insertion sort.
- `Kruskal` (`kruskal.dfy`): the sketch's mutable state, modelled as class
  `Sketch`. It holds the acceptance matrix as an `array2<bool>`, the candidate
  list `edges` and the union-find `sets`. The class has two operations:
  - `InitKruskal` scans every cell, appends candidates, clears the acceptance
    matrix and sorts.
  - `KruskalStep` does one step. The source's tail call is modelled as mutual
    recursion between `KruskalStep` (the connectivity test) and `TakeCheapest`
    (pop the cheapest edge, then drop it and step again, or accept it with
    `Accept`).

The state-machine contract of a step is the predicate `Sketch.SteppedFrom`. It
says how the step leaves the list, the partition, the accepted cells and the
set of roots. It uses the index `FirstJoining` of the first remaining edge that
joins two different components.

Where the code and the usual reading of the program disagree, the model
follows the code:

- `initKruskal` neither clears `edges` nor resets `sets`. A second call appends
  every candidate again and sorts the whole list, and earlier unions survive.
  `Sketch.InitKruskal` states exactly that.
- A step that changes nothing visible still compresses paths. So a "no-op" step
  keeps the partition (the root of every node), not the raw parent array.

## Model

| member | source | states |
|---|---|---|
| UnionFind.DisjointSets.constructor | src/Main.kt:8-9 | every node starts as its own parent, so each node is a singleton set and the array is acyclic |
| UnionFind.DisjointSets.Union | src/Main.kt:11 | exactly one slot changes (`parents[child] := parent`). Nodes of the child's set now have the parent's root and every other root is unchanged, so the roots lose exactly `child` and the partition becomes the merge of the two sets |
| UnionFind.LinkMergesSets | src/Main.kt:11 | hanging a root `c` under a node outside its set keeps the array acyclic, re-roots exactly the nodes whose root was `c`, and removes `c` from the roots |
| UnionFind.DisjointSets.Climb | src/Main.kt:13-20 | the first loop stops at the root of `x`, and the nodes it collects are exactly the non-root nodes on the walk from `x`, all in the set of `x` |
| UnionFind.DisjointSets.FindRoot | src/Main.kt:12-25 | returns the root of `x`, which is a fixed point. Exactly the nodes on the walk from `x` now point at it and every other entry is unchanged. The root of every node, the set of roots and the partition are preserved, so a repeated call returns the same root |
| UnionFind.CompressKeepsRoots | src/Main.kt:22 | pointing one node straight at its root keeps the array acyclic and keeps every node's root and the set of roots |
| UnionFind.Walk | src/Main.kt:16-18 | following parent links never leaves the node range, and the walk does not move from a root |
| UnionFind.Root | src/Main.kt:15-20 | the root of a node is a self-parented node reached by walking parent links from it |
| UnionFind.RootIsReached | src/Main.kt:15-20 | any self-parented node the walk reaches is the root, so the root is unique |
| UnionFind.RootAlongWalk | src/Main.kt:15-20 | every node on the walk from `x` has the same root as `x` |
| UnionFind.WalkComposes | src/Main.kt:16-19 | walking `a` links and then `b` more is walking `a + b` links |
| UnionFind.WalkSettles | src/Main.kt:16 | once the walk reaches a root it stays there |
| UnionFind.RootsAreImage | src/Main.kt:9-25 | the self-parented nodes are exactly the roots of the nodes, so there is one per set and no other |
| UnionFind.SingletonRoots | src/Main.kt:9 | when every node is its own parent there are as many sets as nodes |
| UnionFind.WalkedPath | src/Main.kt:13-22 | the list the loop collects is exactly the on-path set, and each collected node shares the root of `x` |
| GraphModel.Unimatrix | src/Main.kt:50 | the projection is symmetric, contains the directed adjacency, and holds only pairs joined in some direction |
| GraphModel.GatedWeights | src/Main.kt:52 | a cell is non-zero only where the projection joins the nodes, and there it is the raw weight |
| GraphModel.Presence | src/Main.kt:53 | a presence cell is true exactly when its weight is positive |
| GraphModel.Asymmetry | src/Main.kt:54 | a cell is marked exactly when its presence differs from its mirror's; hence the matrix is symmetric and false on the diagonal |
| GraphModel.UpperTriangle | src/Main.kt:55 | false on the diagonal, exactly one of two mirror cells marked, and every `i < j` marked |
| GraphModel.PairWeight | src/Main.kt:61-66 | the value written for a pair is none, one or two times the cell weight: twice when presence and the upper-triangle asymmetry bonus both apply, once when exactly one applies, zero when the weight is zero or neither applies |
| GraphModel.DerivedWeight | src/Main.kt:56-71 | the derived weight is an N×N symmetric matrix |
| GraphModel.BuildWeights | src/Main.kt:56-71 | the nested `i <= j` loop that writes each value into both mirror cells yields exactly the derived weight |
| GraphModel.WeightAboveDiagonal | src/Main.kt:59-67 | above the diagonal, both mirror cells equal (presence + asymmetry) × weight |
| GraphModel.WeightOnDiagonal | src/Main.kt:59-67 | on the diagonal the weight is presence × weight, with no asymmetry bonus |
| GraphModel.WeightOffProjection | src/Main.kt:52-67 | every derived weight is non-negative, and it is zero wherever the projection does not join the two nodes |
| Edges.Insert | src/Main.kt:93 | inserting adds exactly the one edge (same multiset plus `x`) |
| Edges.InsertKeepsSorted | src/Main.kt:93 | inserting into a weight-sorted list keeps it sorted |
| Edges.SortByWeight | src/Main.kt:93 | the result is sorted by weight and is a permutation of the input |
| Edges.InsertIsStable | src/Main.kt:93 | insertion puts the new edge after all equal-weight edges and keeps their order |
| Edges.SortIsStable | src/Main.kt:93 | for every weight, the edges of that weight come out in their input order (stability of `sortBy`) |
| Edges.SuffixStaysSorted | src/Main.kt:99 | removing the first edge of a sorted list leaves it sorted |
| Kruskal.Scan | src/Main.kt:87-89 | the row-major enumeration of candidates up to a loop position adds at most one edge per visited cell |
| Kruskal.ScanSound | src/Main.kt:87-89 | the scan appends only pairs `i < j` joined by the projection, carrying `W[i][j]`, each before the current position |
| Kruskal.ScanComplete | src/Main.kt:87-89 | the scan appends every such pair that lies before the current position |
| Kruskal.ScanRowMajor | src/Main.kt:87-89 | the scan appends in strictly increasing row-major order, so no pair twice |
| Kruskal.SortedScanLists | src/Main.kt:87-93 | after the full scan and the sort, every pair `i < j` joined by the projection is in the list with weight `W[i][j]` |
| Kruskal.ExhaustKeepsSettled | src/Main.kt:99-105 | when no listed edge joins two sets, every projected pair that was listed lies inside one set, so emptying the list loses none |
| Kruskal.AcceptKeepsSettled | src/Main.kt:99-110 | after dropping the edges inside one set and accepting the first joining edge, every projected pair is still listed or lies inside one set of the merged partition |
| Kruskal.SortKeepsWithin | src/Main.kt:93 | sorting keeps every edge inside the node range with its smaller endpoint first |
| Kruskal.FirstJoining | src/Main.kt:99-105 | the index of the first edge whose endpoints lie in different sets: every edge before it lies inside one set |
| Kruskal.FirstJoiningSkips | src/Main.kt:105 | an edge inside one set is skipped, and the search continues from the next edge |
| Kruskal.MergeKeepsJoined | src/Main.kt:107-110 | after merging the sets of `a` and `b`, every earlier accepted pair still lies in one set, and so does `(a, b)` |
| Kruskal.Sketch.constructor | src/Main.kt:49-84 | builds the matrices by the derivations above, with no accepted cell, an empty list and singleton sets, so there are exactly N components |
| Kruskal.Sketch.ScanRow | src/Main.kt:88-91 | one pass of the inner loop appends the candidates of row `i` in order and clears exactly that row |
| Kruskal.Sketch.InitKruskal | src/Main.kt:86-94 | the list becomes the stable sort of the old list followed by every candidate in row-major order. Every acceptance cell is cleared and the union-find is untouched. Afterwards every projected pair is listed, or already inside one component |
| Kruskal.Sketch.AllShareRoot | src/Main.kt:98 | true exactly when every node's root is `root`. Only paths are compressed, so the partition and the roots are preserved |
| Kruskal.Sketch.EndRoots | src/Main.kt:103-104 | returns the roots of both ends of the edge; the compression it does keeps the partition and the components |
| Kruskal.Sketch.Accept | src/Main.kt:107-110 | marks a cell not marked before and merges the set of `b` into that of `a`. The roots lose exactly `b`'s root and all accepted cells still lie within components |
| Kruskal.Sketch.TakeCheapest | src/Main.kt:99-110 | from an unconnected state, the step outcome described by `SteppedFrom`, and a sorted list stays sorted |
| Kruskal.Sketch.KruskalStep | src/Main.kt:96-111 | when all nodes share node 0's root, the list, the partition, the accepted cells and the components are unchanged (the root lookups may still compress paths). Otherwise the leading edges inside one set are dropped. If none joins two sets, the list empties and nothing else changes. Else the first joining edge `(a, b)` (with `a < b`) is accepted: its cell is newly marked, the two components merge and the number of roots falls by exactly one. Accepted cells plus components stay constant, a sorted list stays sorted, and a state where every projected pair is listed or inside one component stays so |
| Kruskal.Sketch.StepAfterSkip | src/Main.kt:105 | the tail call after a skipped edge yields the outcome of a step on the whole list |
| Kruskal.Sketch.SteppedConserves | src/Main.kt:107-110 | a step adds one accepted cell exactly when it removes one component |
| Kruskal.Sketch.SteppedKeepsSettled | src/Main.kt:96-111 | a step from a state where every projected pair is listed or inside one component leaves such a state |
| Kruskal.Sketch.ExhaustedMeansDisconnected | src/Main.kt:97-99 | with such a state and an empty list, every projected pair lies inside one component. If the nodes are then not all connected, some node lies outside node 0's component and no projected pair crosses its boundary, so the graph itself is disconnected |
| Kruskal.Sketch.ConnectedIffOneComponent | src/Main.kt:97-98 | the test that every node shares node 0's root holds exactly when one component is left |
| Kruskal.Sketch.AcceptedWhenConnected | src/Main.kt:96-111 | starting from N singleton components with nothing accepted, a connected state has accepted exactly N - 1 cells, as many as a spanning tree has edges |

## Left out

- Rendering and input: `main`, `settings`, `setup`, `draw`, `arrow`, `keyPressed`, the `PVector` operators and `points` (src/Main.kt:1-6, 32-35, 73-76, 114-227). These are UI code and calls into the Processing library.
- Random generation: `randomSeed`, the `random(2F)` draws of `matrix` and `B`, and `ceil(B * 100)` (src/Main.kt:44-46, 49, 51-52). The directed adjacency and the integer weights are constructor parameters instead.
- The constants `VARIANT`, `n` and `k` (src/Main.kt:38-41). `N` is a positive parameter.
- The running weight sum printed after each acceptance (src/Main.kt:108-109), and the console dumps of the matrices. These are output only.
- The `directed` flag (src/Main.kt:79, 223). It only changes what is drawn.
- Weights are modelled as integers, not `Float`. Every cell of `C` is a whole number (`ceil(...)` or 0), so the sums and products in `W` are exact.
- GraphModel.BuildWeights: fills a sequence of rows, not an in-place `Array<FloatArray>`. The local array never escapes before it is complete, so no aliasing is lost.
- Edges.SortByWeight: the library `sortBy` is specified here by an insertion sort, not by its own algorithm. Only its documented outcome is modelled: sorted, a permutation, and stable.
- UnionFind.DisjointSets.Union: requires that `child` is a root and that `parent` lies outside the set of `child`. The source does not check this. `kruskalStep` is the only caller, and it always passes two distinct roots.
- Kruskal.Sketch.constructor: requires `N > 0`, as the sketch has at least ten nodes. Node 0 must exist for the connectivity test.
- Kruskal.Sketch.AcceptedWhenConnected: counts the accepted cells (N - 1) but does not state that they connect all nodes. The acceptance matrix is not tied to the partition beyond each accepted cell lying inside one component.
