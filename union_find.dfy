/** Union-find over the node indices 0 .. n-1, stored as an array of parents,
    with a find that flattens every chain it walks. */
module UnionFind {

  /** Every parent is itself a node index. */
  ghost predicate InRange(p: seq<int>)
  {
    forall i :: 0 <= i < |p| ==> 0 <= p[i] < |p|
  }

  /** A root is a node that is its own parent; it names its set. */
  predicate IsRoot(p: seq<int>, i: int)
    requires 0 <= i < |p|
  {
    p[i] == i
  }

  /** The node reached from `i` by following at most `k` parent links;
      the walk stops early at a root. */
  function Walk(p: seq<int>, i: int, k: nat): (r: int)
    requires InRange(p) && 0 <= i < |p|
    ensures 0 <= r < |p|
    ensures IsRoot(p, i) ==> r == i
    decreases k
  {
    if k == 0 || p[i] == i then i else Walk(p, p[i], k - 1)
  }

  ghost predicate ReachesRoot(p: seq<int>, i: int)
    requires InRange(p) && 0 <= i < |p|
  {
    exists k: nat :: IsRoot(p, Walk(p, i, k))
  }

  /** No parent chain is a cycle: from every node some finite walk ends at a root. */
  ghost predicate Acyclic(p: seq<int>)
  {
    InRange(p) && forall i :: 0 <= i < |p| ==> ReachesRoot(p, i)
  }

  /** The root of the set that holds `i`. */
  ghost function Root(p: seq<int>, i: int): (r: int)
    requires Acyclic(p) && 0 <= i < |p|
    ensures 0 <= r < |p| && IsRoot(p, r)
    ensures exists k: nat :: r == Walk(p, i, k) && IsRoot(p, Walk(p, i, k))
  {
    assert ReachesRoot(p, i);
    var k: nat :| IsRoot(p, Walk(p, i, k));
    Walk(p, i, k)
  }

  /** The roots of all nodes, indexed by node: the partition the array encodes. */
  ghost function RootsOf(p: seq<int>): (roots: seq<int>)
    requires Acyclic(p)
    ensures |roots| == |p|
    ensures forall i :: 0 <= i < |p| ==> roots[i] == Root(p, i)
  {
    seq(|p|, i requires 0 <= i < |p| => Root(p, i))
  }

  /** The partition after the set named `drop` is merged into the set named `keep`. */
  function Merge(P: seq<int>, keep: int, drop: int): (merged: seq<int>)
    ensures |merged| == |P|
    ensures forall i :: 0 <= i < |P| ==> merged[i] == if P[i] == drop then keep else P[i]
  {
    seq(|P|, i requires 0 <= i < |P| => if P[i] == drop then keep else P[i])
  }

  /** The self-parented nodes; there is one per set (RootsAreImage). */
  ghost function Roots(p: seq<int>): (roots: set<int>)
  {
    set i | 0 <= i < |p| && p[i] == i
  }

  /** `j` is a non-root node that the walk from `x` passes through. */
  ghost predicate OnPath(p: seq<int>, x: int, j: int)
    requires InRange(p) && 0 <= x < |p|
  {
    0 <= j < |p| && p[j] != j && exists m: nat :: Walk(p, x, m) == j
  }

  /** Walking `a` links and then `b` more is walking `a + b` links. */
  lemma {:induction false} WalkComposes(p: seq<int>, i: int, a: nat, b: nat)
    requires InRange(p) && 0 <= i < |p|
    ensures Walk(p, Walk(p, i, a), b) == Walk(p, i, a + b)
    decreases a
  {
    if a != 0 && p[i] != i {
      WalkComposes(p, p[i], a - 1, b);
    }
  }

  /** Once a walk has reached a root, more steps stay there. */
  lemma WalkSettles(p: seq<int>, i: int, a: nat, b: nat)
    requires InRange(p) && 0 <= i < |p|
    requires IsRoot(p, Walk(p, i, a)) && a <= b
    ensures Walk(p, i, b) == Walk(p, i, a)
  {
    WalkComposes(p, i, a, b - a);
  }

  /** Every walk from `i` that ends at a root ends at Root(p, i): the root is unique. */
  lemma RootIsReached(p: seq<int>, i: int, k: nat)
    requires Acyclic(p) && 0 <= i < |p| && IsRoot(p, Walk(p, i, k))
    ensures Root(p, i) == Walk(p, i, k)
  {
    var root := Root(p, i);
    var k0: nat :| root == Walk(p, i, k0) && IsRoot(p, Walk(p, i, k0));
    if k0 <= k {
      WalkSettles(p, i, k0, k);
    } else {
      WalkSettles(p, i, k, k0);
    }
  }

  /** Every node on the walk from `x` lies in the set of `x`. */
  lemma RootAlongWalk(p: seq<int>, x: int, m: nat)
    requires Acyclic(p) && 0 <= x < |p|
    ensures Root(p, Walk(p, x, m)) == Root(p, x)
  {
    var root := Root(p, x);
    var k0: nat :| root == Walk(p, x, k0) && IsRoot(p, Walk(p, x, k0));
    WalkComposes(p, x, m, k0);
    WalkSettles(p, x, k0, m + k0);
    RootIsReached(p, Walk(p, x, m), k0);
  }

  /** Redirecting one node: a walk that ends at a root in `p` ends at the same node,
      which is still a root, after `j` is made to point at its own root. */
  lemma {:induction false} CompressWalk(p: seq<int>, j: int, i: int, k: nat)
    requires Acyclic(p) && 0 <= j < |p| && 0 <= i < |p|
    requires IsRoot(p, Walk(p, i, k))
    ensures InRange(p[j := Root(p, j)])
    ensures Walk(p[j := Root(p, j)], i, k) == Walk(p, i, k)
    ensures IsRoot(p[j := Root(p, j)], Walk(p, i, k))
    decreases k
  {
    var q := p[j := Root(p, j)];
    var s := Walk(p, i, k);
    if s == j {
      RootIsReached(p, j, 0);
    }
    if k == 0 || p[i] == i {
      if i == j {
        RootIsReached(p, j, 0);
      }
    } else if i != j {
      CompressWalk(p, j, p[i], k - 1);
    } else {
      RootIsReached(p, i, k);
      var r := Root(p, j);
      assert q[i] == r && r != i;
      assert Walk(q, r, k - 1) == r;
    }
  }

  /** Pointing one node straight at its root keeps the array acyclic and leaves
      the root of every node, and the set of roots, as it was. */
  lemma CompressKeepsRoots(p: seq<int>, j: int)
    requires Acyclic(p) && 0 <= j < |p|
    ensures Acyclic(p[j := Root(p, j)])
    ensures forall i :: 0 <= i < |p| ==> Root(p[j := Root(p, j)], i) == Root(p, i)
    ensures Roots(p[j := Root(p, j)]) == Roots(p)
  {
    var q := p[j := Root(p, j)];
    assert InRange(q);
    forall i | 0 <= i < |p|
      ensures ReachesRoot(q, i)
    {
      var root := Root(p, i);
      var k: nat :| root == Walk(p, i, k) && IsRoot(p, Walk(p, i, k));
      CompressWalk(p, j, i, k);
    }
    forall i | 0 <= i < |p|
      ensures Root(q, i) == Root(p, i)
    {
      var root := Root(p, i);
      var k: nat :| root == Walk(p, i, k) && IsRoot(p, Walk(p, i, k));
      CompressWalk(p, j, i, k);
      RootIsReached(q, i, k);
    }
    if p[j] == j {
      RootIsReached(p, j, 0);
      assert q == p;
    } else {
      assert q[j] != j;
      assert Roots(q) == Roots(p);
    }
  }

  /** Linking root `c` under `q`: a walk that never reaches `c` is unaffected. */
  lemma {:induction false} LinkWalkMiss(p: seq<int>, c: int, q: int, i: int, k: nat)
    requires InRange(p) && 0 <= c < |p| && 0 <= q < |p| && 0 <= i < |p|
    requires IsRoot(p, c) && Walk(p, i, k) != c
    ensures InRange(p[c := q])
    ensures Walk(p[c := q], i, k) == Walk(p, i, k)
    decreases k
  {
    if k != 0 && p[i] != i {
      LinkWalkMiss(p, c, q, p[i], k - 1);
    }
  }

  /** Linking root `c` under `q`: a walk that reaches `c` goes on to the root of `q`,
      given `e` extra steps that take `q` to its root. */
  lemma {:induction false} LinkWalkHit(p: seq<int>, c: int, q: int, i: int, k: nat, e: nat)
    requires Acyclic(p) && 0 <= c < |p| && 0 <= q < |p| && 0 <= i < |p|
    requires IsRoot(p, c) && Root(p, q) != c
    requires Walk(p, i, k) == c && IsRoot(p, Walk(p, q, e))
    ensures InRange(p[c := q])
    ensures Walk(p[c := q], i, k + 1 + e) == Walk(p, q, e)
    decreases k
  {
    var p' := p[c := q];
    if k == 0 || p[i] == i {
      RootIsReached(p, q, e);
      RootIsReached(p, c, 0);
      assert q != c;
      WalkSettles(p, q, e, k + e);
      LinkWalkMiss(p, c, q, q, k + e);
      assert Walk(p', i, k + 1 + e) == Walk(p', q, k + e);
    } else {
      LinkWalkHit(p, c, q, p[i], k - 1, e);
    }
  }

  /** Linking root `c` under a node `q` outside its set keeps the array acyclic,
      moves every node of the set of `c` into the set of `q`, leaves every other
      node's root alone, and removes exactly `c` from the roots. */
  lemma LinkMergesSets(p: seq<int>, c: int, q: int)
    requires Acyclic(p) && 0 <= c < |p| && 0 <= q < |p|
    requires IsRoot(p, c) && Root(p, q) != c
    ensures Acyclic(p[c := q])
    ensures forall i :: 0 <= i < |p| ==>
      Root(p[c := q], i) == if Root(p, i) == c then Root(p, q) else Root(p, i)
    ensures Roots(p[c := q]) == Roots(p) - {c}
  {
    var p' := p[c := q];
    var root := Root(p, q);
    var e: nat :| root == Walk(p, q, e) && IsRoot(p, Walk(p, q, e));
    RootIsReached(p, c, 0);
    assert InRange(p');
    forall i | 0 <= i < |p|
      ensures ReachesRoot(p', i)
    {
      var root := Root(p, i);
      var k: nat :| root == Walk(p, i, k) && IsRoot(p, Walk(p, i, k));
      if Walk(p, i, k) != c {
        LinkWalkMiss(p, c, q, i, k);
        var s := Walk(p, i, k);
        assert IsRoot(p, s) && s != c;
        assert p'[s] == s;
      } else {
        LinkWalkHit(p, c, q, i, k, e);
        assert IsRoot(p', Walk(p', i, k + 1 + e));
      }
    }
    forall i | 0 <= i < |p|
      ensures Root(p', i) == if Root(p, i) == c then Root(p, q) else Root(p, i)
    {
      var root := Root(p, i);
      var k: nat :| root == Walk(p, i, k) && IsRoot(p, Walk(p, i, k));
      if Walk(p, i, k) != c {
        LinkWalkMiss(p, c, q, i, k);
        var s := Walk(p, i, k);
        assert IsRoot(p, s) && s != c;
        assert p'[s] == s;
        RootIsReached(p', i, k);
      } else {
        LinkWalkHit(p, c, q, i, k, e);
        RootIsReached(p', i, k + 1 + e);
      }
    }
    assert Roots(p') == Roots(p) - {c};
  }

  /** The nodes a find collects on its way from `x` to a root are exactly the nodes
      on the path from `x`, and all of them lie in the set of `x`. */
  lemma WalkedPath(p: seq<int>, x: int, visited: seq<int>)
    requires Acyclic(p) && 0 <= x < |p| && IsRoot(p, Walk(p, x, |visited|))
    requires forall m :: 0 <= m < |visited| ==>
      visited[m] == Walk(p, x, m) && p[visited[m]] != visited[m]
    ensures Root(p, x) == Walk(p, x, |visited|)
    ensures forall j :: j in visited ==> 0 <= j < |p| && Root(p, j) == Root(p, x)
    ensures forall j :: 0 <= j < |p| ==> (OnPath(p, x, j) <==> j in visited)
  {
    RootIsReached(p, x, |visited|);
    forall m | 0 <= m < |visited|
      ensures Root(p, visited[m]) == Root(p, x)
    {
      RootAlongWalk(p, x, m);
    }
    forall j | 0 <= j < |p|
      ensures OnPath(p, x, j) <==> j in visited
    {
      if OnPath(p, x, j) {
        var m: nat :| Walk(p, x, m) == j;
        if |visited| <= m {
          WalkSettles(p, x, |visited|, m);
        }
        assert visited[m] == j;
      }
    }
  }

  /** The roots are exactly the roots of the nodes: one per set, and no other. */
  lemma RootsAreImage(p: seq<int>)
    requires Acyclic(p)
    ensures Roots(p) == set i | 0 <= i < |p| :: Root(p, i)
  {
    forall r | r in Roots(p)
      ensures r in set i | 0 <= i < |p| :: Root(p, i)
    {
      RootIsReached(p, r, 0);
    }
  }

  /** When every node is its own parent there are as many sets as nodes. */
  lemma {:induction false} SingletonRoots(p: seq<int>)
    requires forall i :: 0 <= i < |p| ==> p[i] == i
    ensures |Roots(p)| == |p|
  {
    if p != [] {
      var q := p[..|p| - 1];
      SingletonRoots(q);
      assert Roots(p) == Roots(q) + {|p| - 1};
    }
  }

  class DisjointSets {
    const n: nat
    const parents: array<int>

    ghost predicate Valid()
      reads this, parents
    {
      parents.Length == n && Acyclic(parents[..])
    }

    /** `n` singleton sets: every node is its own parent. */
    constructor (n: nat)
      ensures Valid() && this.n == n && fresh(parents)
      ensures forall i :: 0 <= i < n ==> parents[i] == i
    {
      this.n := n;
      parents := new int[n](i => i);
      new;
      forall i | 0 <= i < n
        ensures ReachesRoot(parents[..], i)
      {
        assert IsRoot(parents[..], Walk(parents[..], i, 0));
      }
    }

    /** Hangs `child` under `parent` by overwriting one slot. The caller passes a
        root as `child` and a node outside the set of `child` as `parent`. */
    method Union(parent: int, child: int)
      requires Valid()
      requires 0 <= parent < n && 0 <= child < n
      requires parents[child] == child && Root(parents[..], parent) != child
      modifies parents
      ensures Valid()
      ensures parents[..] == old(parents[..])[child := parent]
      ensures forall i :: 0 <= i < n ==>
        Root(parents[..], i) ==
          if Root(old(parents[..]), i) == child then Root(old(parents[..]), parent)
          else Root(old(parents[..]), i)
      ensures Roots(parents[..]) == Roots(old(parents[..])) - {child}
      ensures RootsOf(parents[..]) ==
        Merge(RootsOf(old(parents[..])), Root(old(parents[..]), parent), child)
    {
      LinkMergesSets(parents[..], child, parent);
      parents[child] := parent;
    }

    /** Follows parent links from `x` until a self-parented node, collecting the
        nodes it leaves on the way; changes nothing. */
    method Climb(x: int) returns (r: int, path: seq<int>)
      requires Valid() && 0 <= x < n
      ensures r == Root(parents[..], x) && parents[r] == r
      ensures forall j :: j in path ==> 0 <= j < n && parents[j] != j && Root(parents[..], j) == r
      ensures forall j :: 0 <= j < n ==> (OnPath(parents[..], x, j) <==> j in path)
      ensures x != r ==> x in path
    {
      ghost var p := parents[..];
      assert ReachesRoot(p, x);
      ghost var k0: nat :| IsRoot(p, Walk(p, x, k0));

      path := [];
      var i := x;
      while parents[i] != i
        invariant 0 <= i < n && i == Walk(p, x, |path|) && |path| <= k0
        invariant forall m :: 0 <= m < |path| ==>
          path[m] == Walk(p, x, m) && p[path[m]] != path[m]
        decreases k0 - |path|
      {
        if |path| == k0 {
          assert false;
        }
        WalkComposes(p, x, |path|, 1);
        path := path + [i];
        i := parents[i];
      }
      r := parents[i];
      WalkedPath(p, x, path);
      if x != r {
        assert path[0] == x;
      }
    }

    /** Returns the root of the set of `x` and points every node on the walk from
        `x` straight at it. */
    method FindRoot(x: int) returns (r: int)
      requires Valid() && 0 <= x < n
      modifies parents
      ensures Valid()
      ensures r == Root(old(parents[..]), x) && parents[r] == r && parents[x] == r
      ensures forall j :: 0 <= j < n ==>
        parents[j] == if OnPath(old(parents[..]), x, j) then r else old(parents[j])
      ensures forall i :: 0 <= i < n ==> Root(parents[..], i) == Root(old(parents[..]), i)
      ensures Roots(parents[..]) == Roots(old(parents[..]))
      ensures RootsOf(parents[..]) == RootsOf(old(parents[..]))
    {
      ghost var p0 := parents[..];
      var path;
      r, path := Climb(x);
      for m := 0 to |path|
        invariant parents.Length == n && Acyclic(parents[..])
        invariant forall i :: 0 <= i < n ==> Root(parents[..], i) == Root(p0, i)
        invariant forall j :: 0 <= j < n ==>
          parents[j] == if j in path[..m] then r else p0[j]
      {
        assert path[m] in path;
        CompressKeepsRoots(parents[..], path[m]);
        parents[path[m]] := r;
        assert path[..m + 1] == path[..m] + [path[m]];
      }
      assert path[..|path|] == path;
      assert Roots(parents[..]) == Roots(p0);
    }
  }
}
