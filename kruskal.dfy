/** Kruskal's algorithm run one accepted edge at a time over the derived graph:
    the candidate list, the acceptance matrix and the union-find that detects cycles. */
module Kruskal {
  import opened UnionFind
  import opened GraphModel
  import opened Edges

  /** The projection and the weights are both N×N. */
  ghost predicate Grid(N: nat, uni: seq<seq<bool>>, W: seq<seq<int>>)
  {
    IsMatrix(uni, N) && IsMatrix(W, N)
  }

  /** Every listed edge joins two distinct nodes, the smaller one first. */
  ghost predicate EdgesWithin(es: seq<Edge>, N: nat)
  {
    forall e :: e in es ==> 0 <= e.nodes.0 < e.nodes.1 < N
  }

  /** A candidate: a pair above the diagonal that the projection joins, with its derived weight. */
  ghost predicate IsCandidate(N: nat, uni: seq<seq<bool>>, W: seq<seq<int>>, e: Edge)
    requires Grid(N, uni, W)
  {
    0 <= e.nodes.0 < e.nodes.1 < N && uni[e.nodes.0][e.nodes.1] &&
    e.weight == W[e.nodes.0][e.nodes.1]
  }

  predicate PairBefore(a: (int, int), b: (int, int))
  {
    a.0 < b.0 || (a.0 == b.0 && a.1 < b.1)
  }

  /** Strictly increasing in row-major order of the endpoint pairs. */
  ghost predicate RowMajor(s: seq<Edge>)
  {
    forall k, l :: 0 <= k < l < |s| ==> PairBefore(s[k].nodes, s[l].nodes)
  }

  /** A scan position: every full row above `i`, then the first `j` cells of row `i`. */
  predicate ScanPos(N: nat, i: nat, j: nat)
  {
    (i < N && j <= N) || (i == N && j == 0)
  }

  /** The candidates the scan has met by position `(i, j)`, in the order it met them. */
  function Scan(N: nat, uni: seq<seq<bool>>, W: seq<seq<int>>, i: nat, j: nat): (r: seq<Edge>)
    requires Grid(N, uni, W) && ScanPos(N, i, j)
    ensures |r| <= i * N + j
    decreases i, j
  {
    if j == 0 then
      if i == 0 then []
      else
        assert (i - 1) * N + N == i * N;
        Scan(N, uni, W, i - 1, N)
    else
      var cell := if i < j - 1 && uni[i][j - 1] then [Edge((i, j - 1), W[i][j - 1])] else [];
      Scan(N, uni, W, i, j - 1) + cell
  }

  /** The scan lists only candidates, each met before the current position. */
  lemma {:induction false} ScanSound(N: nat, uni: seq<seq<bool>>, W: seq<seq<int>>, i: nat, j: nat, e: Edge)
    requires Grid(N, uni, W) && ScanPos(N, i, j) && e in Scan(N, uni, W, i, j)
    ensures IsCandidate(N, uni, W, e) && PairBefore(e.nodes, (i, j))
    decreases i, j
  {
    if j == 0 {
      ScanSound(N, uni, W, i - 1, N, e);
    } else {
      var front := Scan(N, uni, W, i, j - 1);
      var cell := if i < j - 1 && uni[i][j - 1] then [Edge((i, j - 1), W[i][j - 1])] else [];
      assert Scan(N, uni, W, i, j) == front + cell;
      if e in front {
        ScanSound(N, uni, W, i, j - 1, e);
      } else {
        assert e in cell;
      }
    }
  }

  /** The scan lists every candidate that lies before the current position. */
  lemma {:induction false} ScanComplete(N: nat, uni: seq<seq<bool>>, W: seq<seq<int>>, i: nat, j: nat, r: nat, k: nat)
    requires Grid(N, uni, W) && ScanPos(N, i, j)
    requires r < k < N && uni[r][k] && PairBefore((r, k), (i, j))
    ensures Edge((r, k), W[r][k]) in Scan(N, uni, W, i, j)
    decreases i, j
  {
    var e := Edge((r, k), W[r][k]);
    if j == 0 {
      ScanComplete(N, uni, W, i - 1, N, r, k);
    } else {
      var front := Scan(N, uni, W, i, j - 1);
      var cell := if i < j - 1 && uni[i][j - 1] then [Edge((i, j - 1), W[i][j - 1])] else [];
      assert Scan(N, uni, W, i, j) == front + cell;
      if r == i && k == j - 1 {
        assert cell == [e];
      } else {
        ScanComplete(N, uni, W, i, j - 1, r, k);
        assert e in front;
      }
    }
  }

  /** The scan lists its candidates in strictly increasing row-major order, so none twice. */
  lemma {:induction false} ScanRowMajor(N: nat, uni: seq<seq<bool>>, W: seq<seq<int>>, i: nat, j: nat)
    requires Grid(N, uni, W) && ScanPos(N, i, j)
    ensures RowMajor(Scan(N, uni, W, i, j))
    decreases i, j
  {
    if j == 0 {
      if i != 0 {
        ScanRowMajor(N, uni, W, i - 1, N);
      }
    } else {
      var front := Scan(N, uni, W, i, j - 1);
      ScanRowMajor(N, uni, W, i, j - 1);
      if i < j - 1 && uni[i][j - 1] {
        var s := front + [Edge((i, j - 1), W[i][j - 1])];
        forall k, l | 0 <= k < l < |s|
          ensures PairBefore(s[k].nodes, s[l].nodes)
        {
          if l == |front| {
            assert s[k] == front[k] && front[k] in front;
            ScanSound(N, uni, W, i, j - 1, front[k]);
          }
        }
      }
    }
  }

  /** Sorting keeps every edge, so it keeps them all within range. */
  lemma SortKeepsWithin(es: seq<Edge>, N: nat)
    requires EdgesWithin(es, N)
    ensures EdgesWithin(SortByWeight(es), N)
  {
    forall e | e in SortByWeight(es)
      ensures e in es
    {
      assert e in multiset(SortByWeight(es));
    }
  }

  /** The index of the first edge whose endpoints lie in different sets of the
      partition `P`, or `|es|` when every edge would close a cycle. */
  function FirstJoining(P: seq<int>, es: seq<Edge>): (m: nat)
    requires EdgesWithin(es, |P|)
    ensures m <= |es|
    ensures forall k :: 0 <= k < m ==> P[es[k].nodes.0] == P[es[k].nodes.1]
    ensures m < |es| ==> P[es[m].nodes.0] != P[es[m].nodes.1]
  {
    if es == [] || P[es[0].nodes.0] != P[es[0].nodes.1] then 0
    else
      assert EdgesWithin(es[1..], |P|) by {
        forall e | e in es[1..] ensures e in es { }
      }
      1 + FirstJoining(P, es[1..])
  }

  /** An edge inside one set is skipped: the search goes on from the next edge. */
  lemma FirstJoiningSkips(P: seq<int>, es: seq<Edge>)
    requires EdgesWithin(es, |P|) && es != [] && P[es[0].nodes.0] == P[es[0].nodes.1]
    ensures EdgesWithin(es[1..], |P|)
    ensures FirstJoining(P, es) == 1 + FirstJoining(P, es[1..])
    ensures FirstJoining(P, es) < |es| ==>
      es[1..][FirstJoining(P, es[1..]) + 1..] == es[FirstJoining(P, es) + 1..]
  {
    assert forall e :: e in es[1..] ==> e in es;
  }

  /** Every pair the projection joins is still a listed candidate or already
      lies inside one set of the partition `P`. */
  ghost predicate SettledBy(N: nat, uni: seq<seq<bool>>, W: seq<seq<int>>, es: seq<Edge>, P: seq<int>)
    requires Grid(N, uni, W) && |P| == N
  {
    forall i, j :: 0 <= i < j < N && uni[i][j] ==> Edge((i, j), W[i][j]) in es || P[i] == P[j]
  }

  /** After the full scan and the sort, every pair the projection joins is listed. */
  lemma SortedScanLists(N: nat, uni: seq<seq<bool>>, W: seq<seq<int>>, es: seq<Edge>, i: int, j: int)
    requires Grid(N, uni, W) && 0 <= i < j < N && uni[i][j]
    ensures Edge((i, j), W[i][j]) in SortByWeight(es + Scan(N, uni, W, N, 0))
  {
    ScanComplete(N, uni, W, N, 0, i, j);
    var e := Edge((i, j), W[i][j]);
    assert e in es + Scan(N, uni, W, N, 0);
    assert e in multiset(SortByWeight(es + Scan(N, uni, W, N, 0)));
  }

  /** When no listed edge joins two sets, emptying the list keeps every
      projected pair accounted for: it lies inside one set. */
  lemma ExhaustKeepsSettled(N: nat, uni: seq<seq<bool>>, W: seq<seq<int>>, es: seq<Edge>, P: seq<int>)
    requires Grid(N, uni, W) && |P| == N && EdgesWithin(es, N)
    requires SettledBy(N, uni, W, es, P) && FirstJoining(P, es) == |es|
    ensures SettledBy(N, uni, W, [], P)
  {
    forall i, j | 0 <= i < j < N && uni[i][j] && Edge((i, j), W[i][j]) in es
      ensures P[i] == P[j]
    {
      var k :| 0 <= k < |es| && es[k] == Edge((i, j), W[i][j]);
    }
  }

  /** Accepting the first joining edge and dropping everything before it keeps
      every projected pair accounted for in the merged partition. */
  lemma AcceptKeepsSettled(N: nat, uni: seq<seq<bool>>, W: seq<seq<int>>, es: seq<Edge>, P: seq<int>)
    requires Grid(N, uni, W) && |P| == N && EdgesWithin(es, N)
    requires SettledBy(N, uni, W, es, P) && FirstJoining(P, es) < |es|
    ensures var m := FirstJoining(P, es);
            var a, b := es[m].nodes.0, es[m].nodes.1;
            SettledBy(N, uni, W, es[m + 1..], Merge(P, P[a], P[b]))
  {
    var m := FirstJoining(P, es);
    var a, b := es[m].nodes.0, es[m].nodes.1;
    var Q := Merge(P, P[a], P[b]);
    forall i, j | 0 <= i < j < N && uni[i][j]
      ensures Edge((i, j), W[i][j]) in es[m + 1..] || Q[i] == Q[j]
    {
      var e := Edge((i, j), W[i][j]);
      if P[i] != P[j] {
        var k :| 0 <= k < |es| && es[k] == e;
        if k == m {
          assert Q[a] == Q[b];
        } else if k > m {
          assert es[m + 1..][k - m - 1] == e;
        }
      }
    }
  }

  /** Merging the sets of `a` and `b` keeps joined every pair that was joined,
      and joins `a` and `b`. */
  lemma MergeKeepsJoined(P: seq<int>, cells: set<(int, int)>, a: int, b: int)
    requires 0 <= a < |P| && 0 <= b < |P|
    requires forall c :: c in cells ==> 0 <= c.0 < |P| && 0 <= c.1 < |P| && P[c.0] == P[c.1]
    ensures forall c :: c in cells + {(a, b)} ==>
      Merge(P, P[a], P[b])[c.0] == Merge(P, P[a], P[b])[c.1]
  {
  }

  /** The graph, its derived matrices and the state of the stepwise spanning-tree search. */
  class Sketch {
    const N: nat
    const matrix: seq<seq<bool>>
    const unimatrix: seq<seq<bool>>
    const C: seq<seq<nat>>
    const D: seq<seq<bool>>
    const H: seq<seq<bool>>
    const Tr: seq<seq<bool>>
    const W: seq<seq<int>>

    const displayMatrix: array2<bool>
    var edges: seq<Edge>
    const sets: DisjointSets
    /** The cells of `displayMatrix` that are set. */
    ghost var accepted: set<(int, int)>

    ghost predicate Valid()
      reads this, sets, sets.parents, displayMatrix
    {
      0 < N && Grid(N, unimatrix, W) &&
      displayMatrix.Length0 == N && displayMatrix.Length1 == N &&
      sets.n == N && sets.Valid() &&
      EdgesWithin(edges, N) &&
      (forall i, j :: 0 <= i < N && 0 <= j < N ==> (displayMatrix[i, j] <==> (i, j) in accepted)) &&
      (forall c :: c in accepted ==> 0 <= c.0 < N && 0 <= c.1 < N) &&
      forall c :: c in accepted ==> RootsOf(sets.parents[..])[c.0] == RootsOf(sets.parents[..])[c.1]
    }

    /** The root of every node: the components found so far. */
    ghost function Partition(): (P: seq<int>)
      reads this, sets, sets.parents, displayMatrix
      requires Valid()
    {
      RootsOf(sets.parents[..])
    }

    /** One root per component. */
    ghost function Components(): (roots: set<int>)
      reads this, sets, sets.parents
    {
      Roots(sets.parents[..])
    }

    /** Every node shares the root of node 0. */
    ghost predicate Connected()
      reads this, sets, sets.parents, displayMatrix
      requires Valid()
    {
      forall i :: 0 <= i < N ==> Partition()[i] == Partition()[0]
    }

    /** What one step leaves behind, given the partition `P0`, the candidate list
        `es0`, the accepted cells `cells0` and the roots `roots0` it started from
        when the graph was not yet connected. */
    ghost predicate SteppedFrom(P0: seq<int>, es0: seq<Edge>, cells0: set<(int, int)>, roots0: set<int>)
      reads this, sets, sets.parents, displayMatrix
      requires Valid() && |P0| == N && EdgesWithin(es0, N)
    {
      var m := FirstJoining(P0, es0);
      if m == |es0| then
        edges == [] && Partition() == P0 && accepted == cells0 && Components() == roots0
      else
        var a, b := es0[m].nodes.0, es0[m].nodes.1;
        edges == es0[m + 1..] && P0[a] != P0[b] &&
        Partition() == Merge(P0, P0[a], P0[b]) &&
        (a, b) !in cells0 && accepted == cells0 + {(a, b)} &&
        P0[b] in roots0 && Components() == roots0 - {P0[b]}
    }

    /** A step that skipped the first edge and then stepped from the rest has
        stepped from the whole list. */
    lemma StepAfterSkip(P0: seq<int>, es0: seq<Edge>, cells0: set<(int, int)>, roots0: set<int>)
      requires Valid() && |P0| == N && EdgesWithin(es0, N)
      requires es0 != [] && P0[es0[0].nodes.0] == P0[es0[0].nodes.1]
      requires EdgesWithin(es0[1..], N) && SteppedFrom(P0, es0[1..], cells0, roots0)
      ensures SteppedFrom(P0, es0, cells0, roots0)
    {
      FirstJoiningSkips(P0, es0);
    }

    /** A step accepts one cell exactly when it removes one component, so the
        number of accepted cells plus the number of components is unchanged. */
    lemma SteppedConserves(P0: seq<int>, es0: seq<Edge>, cells0: set<(int, int)>, roots0: set<int>)
      requires Valid() && |P0| == N && EdgesWithin(es0, N)
      requires SteppedFrom(P0, es0, cells0, roots0)
      ensures |accepted| + |Components()| == |cells0| + |roots0|
    {
    }

    /** The graph is connected exactly when only one component is left. */
    lemma ConnectedIffOneComponent()
      requires Valid()
      ensures Connected() <==> Components() == {Partition()[0]}
    {
      var p := sets.parents[..];
      RootsAreImage(p);
      assert forall i :: 0 <= i < N ==> Partition()[i] == Root(p, i);
      if Components() == {Partition()[0]} {
        forall i | 0 <= i < N
          ensures Partition()[i] == Partition()[0]
        {
          assert Root(p, i) in Components();
        }
      }
    }

    /** Every pair the projection joins is either still listed or already
        inside one component. */
    ghost predicate Settled()
      reads this, sets, sets.parents, displayMatrix
      requires Valid()
    {
      SettledBy(N, unimatrix, W, edges, Partition())
    }

    /** A step from a settled state leaves a settled state. */
    lemma SteppedKeepsSettled(P0: seq<int>, es0: seq<Edge>, cells0: set<(int, int)>, roots0: set<int>)
      requires Valid() && |P0| == N && EdgesWithin(es0, N)
      requires SettledBy(N, unimatrix, W, es0, P0) && SteppedFrom(P0, es0, cells0, roots0)
      ensures Settled()
    {
      if FirstJoining(P0, es0) == |es0| {
        ExhaustKeepsSettled(N, unimatrix, W, es0, P0);
      } else {
        AcceptKeepsSettled(N, unimatrix, W, es0, P0);
      }
    }

    /** Once the list of a settled state is empty, every pair the projection
        joins lies inside one component. So if the graph is then still not
        connected, no projected pair leaves the component of node 0, while some
        node lies outside it: the projected graph itself is disconnected. */
    lemma ExhaustedMeansDisconnected()
      requires Valid() && Settled() && edges == []
      ensures forall i, j :: 0 <= i < j < N && unimatrix[i][j] ==> Partition()[i] == Partition()[j]
      ensures !Connected() ==> exists k :: 0 < k < N && Partition()[k] != Partition()[0]
      ensures !Connected() ==> forall i, j :: 0 <= i < j < N && unimatrix[i][j] ==>
        (Partition()[i] == Partition()[0] <==> Partition()[j] == Partition()[0])
    {
    }

    /** A run that started from singleton sets with nothing accepted, and kept
        accepted cells plus components at N, has accepted N - 1 cells once the
        graph is connected: as many cells as a spanning tree has edges. */
    lemma AcceptedWhenConnected()
      requires Valid() && |accepted| + |Components()| == N
      requires Connected()
      ensures |accepted| == N - 1
    {
      ConnectedIffOneComponent();
    }

    /** Builds every matrix from the directed adjacency and the raw cell weights;
        nothing is accepted yet and every node is its own set. */
    constructor (N: nat, matrix: seq<seq<bool>>, raw: seq<seq<nat>>)
      requires 0 < N && IsMatrix(matrix, N) && IsMatrix(raw, N)
      ensures Valid() && fresh(sets) && fresh(sets.parents) && fresh(displayMatrix)
      ensures this.N == N && this.matrix == matrix
      ensures unimatrix == Unimatrix(N, matrix) && C == GatedWeights(N, unimatrix, raw)
      ensures D == Presence(N, C) && H == Asymmetry(N, D) && Tr == UpperTriangle(N)
      ensures W == DerivedWeight(N, C, D, H, Tr)
      ensures edges == [] && accepted == {}
      ensures forall i :: 0 <= i < N ==> sets.parents[i] == i
      ensures |Components()| == N
    {
      var uni := Unimatrix(N, matrix);
      var c := GatedWeights(N, uni, raw);
      var d := Presence(N, c);
      var h := Asymmetry(N, d);
      var tr := UpperTriangle(N);
      var w := BuildWeights(N, c, d, h, tr);
      this.N := N;
      this.matrix := matrix;
      unimatrix, C, D, H, Tr, W := uni, c, d, h, tr, w;
      displayMatrix := new bool[N, N]((i, j) => false);
      edges := [];
      var ds := new DisjointSets(N);
      SingletonRoots(ds.parents[..]);
      sets := ds;
      accepted := {};
    }

    /** One row of the candidate scan: appends the candidates of row `i`, left to
        right, and clears that row of the acceptance matrix. */
    method ScanRow(i: nat, ghost base: seq<Edge>)
      requires Grid(N, unimatrix, W) && i < N
      requires displayMatrix.Length0 == N && displayMatrix.Length1 == N
      requires edges == base + Scan(N, unimatrix, W, i, 0)
      modifies this`edges, displayMatrix
      ensures edges == base + Scan(N, unimatrix, W, i + 1, 0)
      ensures forall r, s :: 0 <= r < N && 0 <= s < N ==>
        displayMatrix[r, s] == (r != i && old(displayMatrix[r, s]))
    {
      for j := 0 to N
        invariant edges == base + Scan(N, unimatrix, W, i, j)
        invariant forall r, s :: 0 <= r < N && 0 <= s < N ==>
          displayMatrix[r, s] == ((r != i || j <= s) && old(displayMatrix[r, s]))
      {
        if i < j && unimatrix[i][j] {
          edges := edges + [Edge((i, j), W[i][j])];
        }
        displayMatrix[i, j] := false;
      }
    }

    /** Appends every candidate, row by row, to the list, clears the acceptance
        matrix and stably sorts the list by weight. Earlier candidates and earlier
        unions are kept. */
    method InitKruskal()
      requires Valid()
      modifies this`edges, this`accepted, displayMatrix
      ensures Valid()
      ensures edges == SortByWeight(old(edges) + Scan(N, unimatrix, W, N, 0))
      ensures forall i, j :: 0 <= i < N && 0 <= j < N ==> !displayMatrix[i, j]
      ensures accepted == {}
      ensures sets.parents[..] == old(sets.parents[..])
      ensures Settled()
    {
      ghost var base := edges;
      for i := 0 to N
        invariant edges == base + Scan(N, unimatrix, W, i, 0)
        invariant forall r, s :: 0 <= r < i && 0 <= s < N ==> !displayMatrix[r, s]
      {
        ScanRow(i, base);
      }
      forall e | e in edges
        ensures 0 <= e.nodes.0 < e.nodes.1 < N
      {
        if e !in base {
          ScanSound(N, unimatrix, W, N, 0, e);
        }
      }
      SortKeepsWithin(edges, N);
      edges := SortByWeight(edges);
      accepted := {};
      forall i, j | 0 <= i < j < N && unimatrix[i][j]
        ensures Edge((i, j), W[i][j]) in edges
      {
        SortedScanLists(N, unimatrix, W, base, i, j);
      }
    }

    /** Calls the find on every node in turn, stopping at the first whose root is not `root`. */
    method AllShareRoot(root: int) returns (all: bool)
      requires Valid()
      modifies sets.parents
      ensures Valid()
      ensures Partition() == old(Partition()) && Components() == old(Components())
      ensures all <==> forall i :: 0 <= i < N ==> old(Partition())[i] == root
    {
      for i := 0 to N
        invariant Valid()
        invariant Partition() == old(Partition()) && Components() == old(Components())
        invariant forall k :: 0 <= k < i ==> old(Partition())[k] == root
      {
        var r := sets.FindRoot(i);
        if r != root {
          return false;
        }
      }
      return true;
    }

    /** Marks the edge `(a, b)` in the acceptance matrix and merges the set of
        `b` into the set of `a`; the two must lie in different sets. */
    method Accept(a: int, b: int, aRoot: int, bRoot: int)
      requires Valid() && 0 <= a < N && 0 <= b < N
      requires aRoot == Partition()[a] && bRoot == Partition()[b] && aRoot != bRoot
      modifies this`accepted, sets.parents, displayMatrix
      ensures Valid()
      ensures Partition() == Merge(old(Partition()), aRoot, bRoot)
      ensures (a, b) !in old(accepted) && accepted == old(accepted) + {(a, b)}
      ensures bRoot in old(Components()) && Components() == old(Components()) - {bRoot}
    {
      ghost var P0 := Partition();
      MergeKeepsJoined(P0, accepted, a, b);
      displayMatrix[a, b] := true;
      accepted := accepted + {(a, b)};
      assert forall i, j :: 0 <= i < N && 0 <= j < N ==> (displayMatrix[i, j] <==> (i, j) in accepted);
      ghost var pre := sets.parents[..];
      assert IsRoot(pre, aRoot);
      RootIsReached(pre, aRoot, 0);
      sets.Union(aRoot, bRoot);
      assert RootsOf(sets.parents[..]) == Merge(P0, aRoot, bRoot);
      assert sets.Valid();
    }

    /** Accepts the cheapest remaining edge that joins two components: leading
        edges that would close a cycle are dropped, the accepted one is marked
        in the acceptance matrix and its two components are merged. Nothing
        happens once every node shares the root of node 0. */
    method KruskalStep()
      requires Valid()
      modifies this`edges, this`accepted, sets.parents, displayMatrix
      ensures Valid()
      ensures old(Connected()) ==>
        edges == old(edges) && Partition() == old(Partition()) &&
        accepted == old(accepted) && Components() == old(Components())
      ensures !old(Connected()) ==>
        SteppedFrom(old(Partition()), old(edges), old(accepted), old(Components()))
      ensures |accepted| + |Components()| == old(|accepted| + |Components()|)
      ensures SortedByWeight(old(edges)) ==> SortedByWeight(edges)
      ensures old(Settled()) ==> Settled()
      decreases |edges|, 1
    {
      ghost var P0, es0, cells0, roots0 := Partition(), edges, accepted, Components();
      ghost var settled0 := Settled();
      var root := sets.FindRoot(0);
      var all := AllShareRoot(root);
      assert Partition() == P0 && root == P0[0];
      if all {
        return;
      }
      TakeCheapest();
      SteppedConserves(P0, es0, cells0, roots0);
      if settled0 {
        SteppedKeepsSettled(P0, es0, cells0, roots0);
      }
    }

    /** The roots of the two ends of an edge. Finding them compresses paths,
        which keeps the partition and the components. */
    method EndRoots(a: int, b: int) returns (aRoot: int, bRoot: int)
      requires Valid() && 0 <= a < N && 0 <= b < N
      modifies sets.parents
      ensures Valid()
      ensures Partition() == old(Partition()) && Components() == old(Components())
      ensures aRoot == Partition()[a] && bRoot == Partition()[b]
    {
      ghost var P0 := Partition();
      aRoot := sets.FindRoot(a);
      bRoot := sets.FindRoot(b);
      assert RootsOf(sets.parents[..]) == P0;
      assert Valid();
    }

    /** The part of a step after the connectivity test: takes the first edge off
        the list, drops it and steps again when both ends already share a root,
        and accepts it otherwise. */
    method TakeCheapest()
      requires Valid() && !Connected()
      modifies this`edges, this`accepted, sets.parents, displayMatrix
      ensures Valid()
      ensures SteppedFrom(old(Partition()), old(edges), old(accepted), old(Components()))
      ensures SortedByWeight(old(edges)) ==> SortedByWeight(edges)
      decreases |edges|, 0
    {
      ghost var P0, es0, cells0, roots0 := Partition(), edges, accepted, Components();
      if edges == [] {
        assert SteppedFrom(P0, es0, cells0, roots0);
        return;
      }
      var e := edges[0];
      edges := edges[1..];
      if SortedByWeight(es0) {
        SuffixStaysSorted(es0, 1);
      }
      assert EdgesWithin(edges, N) by {
        forall f | f in edges ensures f in es0 { }
      }

      var a := e.nodes.0;
      var b := e.nodes.1;
      var aRoot, bRoot := EndRoots(a, b);
      if aRoot == bRoot {
        FirstJoiningSkips(P0, es0);
        assert !Connected();
        KruskalStep();
        StepAfterSkip(P0, es0, cells0, roots0);
        return;
      }

      Accept(a, b, aRoot, bRoot);
    }
  }
}
