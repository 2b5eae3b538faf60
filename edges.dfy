/** Candidate edges and the stable sort by weight that orders them. */
module Edges {

  /** An undirected candidate edge: its two endpoints and its derived weight. */
  datatype Edge = Edge(nodes: (int, int), weight: int)

  ghost predicate SortedByWeight(s: seq<Edge>)
  {
    forall i, j :: 0 <= i < j < |s| ==> s[i].weight <= s[j].weight
  }

  /** The edges of `s` that weigh exactly `w`, in their order in `s`. */
  function WithWeight(s: seq<Edge>, w: int): (r: seq<Edge>)
  {
    if s == [] then []
    else WithWeight(s[..|s| - 1], w) + if s[|s| - 1].weight == w then [s[|s| - 1]] else []
  }

  /** Inserts `x` into `s` behind every edge that weighs no more than it and in
      front of the trailing edges that weigh more. */
  function Insert(x: Edge, s: seq<Edge>): (r: seq<Edge>)
    ensures multiset(r) == multiset(s) + multiset{x}
  {
    if s == [] || s[|s| - 1].weight <= x.weight then s + [x]
    else
      assert s == s[..|s| - 1] + [s[|s| - 1]];
      Insert(x, s[..|s| - 1]) + [s[|s| - 1]]
  }

  /** Inserting into a sorted list keeps it sorted. */
  lemma {:induction false} InsertKeepsSorted(x: Edge, s: seq<Edge>)
    requires SortedByWeight(s)
    ensures SortedByWeight(Insert(x, s))
  {
    if s != [] && s[|s| - 1].weight > x.weight {
      var front, last := s[..|s| - 1], s[|s| - 1];
      InsertKeepsSorted(x, front);
      var r := Insert(x, front);
      forall k | 0 <= k < |r|
        ensures r[k].weight <= last.weight
      {
        assert r[k] in multiset(r);
        assert r[k] in front || r[k] == x;
      }
    }
  }

  /** The list ordered by weight, equal weights keeping their relative order:
      insertion sort, one edge at a time from the front. */
  function SortByWeight(s: seq<Edge>): (r: seq<Edge>)
    ensures SortedByWeight(r)
    ensures multiset(r) == multiset(s)
  {
    if s == [] then []
    else
      assert s == s[..|s| - 1] + [s[|s| - 1]];
      InsertKeepsSorted(s[|s| - 1], SortByWeight(s[..|s| - 1]));
      Insert(s[|s| - 1], SortByWeight(s[..|s| - 1]))
  }

  /** Inserting `x` places it behind every edge of equal weight and leaves the
      others in order. */
  lemma {:induction false} InsertIsStable(x: Edge, s: seq<Edge>, w: int)
    requires SortedByWeight(s)
    ensures WithWeight(Insert(x, s), w) ==
      if x.weight == w then WithWeight(s, w) + [x] else WithWeight(s, w)
  {
    if s == [] || s[|s| - 1].weight <= x.weight {
      assert (s + [x])[..|s|] == s;
      assert WithWeight(s + [x], w) == WithWeight(s, w) + if x.weight == w then [x] else [];
    } else {
      var front, last := s[..|s| - 1], s[|s| - 1];
      var tail := if last.weight == w then [last] else [];
      var r := Insert(x, front) + [last];
      assert Insert(x, s) == r;
      assert r[..|r| - 1] == Insert(x, front);
      assert WithWeight(r, w) == WithWeight(Insert(x, front), w) + tail;
      assert WithWeight(s, w) == WithWeight(front, w) + tail;
      InsertIsStable(x, front, w);
      if x.weight == w {
        assert tail == [];
        assert WithWeight(r, w) == WithWeight(front, w) + [x];
      }
    }
  }

  /** The sort is stable: for every weight, the edges of that weight come out in
      the order they went in. */
  lemma {:induction false} SortIsStable(s: seq<Edge>, w: int)
    ensures WithWeight(SortByWeight(s), w) == WithWeight(s, w)
  {
    if s != [] {
      SortIsStable(s[..|s| - 1], w);
      InsertIsStable(s[|s| - 1], SortByWeight(s[..|s| - 1]), w);
    }
  }

  /** Dropping edges from the front of a sorted list leaves it sorted. */
  lemma SuffixStaysSorted(s: seq<Edge>, k: nat)
    requires SortedByWeight(s) && k <= |s|
    ensures SortedByWeight(s[k..])
  {
  }
}
