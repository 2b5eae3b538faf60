/** The N×N matrices derived from the directed adjacency of the graph and the
    per-cell raw weights: the undirected projection, the gated weights, the
    presence, asymmetry and upper-triangle masks, and the symmetric derived weight. */
module GraphModel {

  /** `m` has N rows of N cells each. */
  ghost predicate IsMatrix<T>(m: seq<seq<T>>, N: nat)
  {
    |m| == N && forall i :: 0 <= i < N ==> |m[i]| == N
  }

  ghost predicate Symmetric<T>(m: seq<seq<T>>, N: nat)
    requires IsMatrix(m, N)
  {
    forall i, j :: 0 <= i < N && 0 <= j < N ==> m[i][j] == m[j][i]
  }

  /** The undirected projection: `i` and `j` are joined in at least one direction. */
  function Unimatrix(N: nat, matrix: seq<seq<bool>>): (u: seq<seq<bool>>)
    requires IsMatrix(matrix, N)
    ensures IsMatrix(u, N) && Symmetric(u, N)
    ensures forall i, j :: 0 <= i < N && 0 <= j < N && matrix[i][j] ==> u[i][j]
    ensures forall i, j :: 0 <= i < N && 0 <= j < N && u[i][j] ==> matrix[i][j] || matrix[j][i]
  {
    seq(N, i requires 0 <= i < N =>
      seq(N, j requires 0 <= j < N => matrix[i][j] || matrix[j][i]))
  }

  /** The weight of a cell: its raw weight where the projection joins the two
      nodes, and zero elsewhere. */
  function GatedWeights(N: nat, uni: seq<seq<bool>>, raw: seq<seq<nat>>): (c: seq<seq<nat>>)
    requires IsMatrix(uni, N) && IsMatrix(raw, N)
    ensures IsMatrix(c, N)
    ensures forall i, j :: 0 <= i < N && 0 <= j < N && c[i][j] != 0 ==> uni[i][j]
    ensures forall i, j :: 0 <= i < N && 0 <= j < N && uni[i][j] ==> c[i][j] == raw[i][j]
  {
    seq(N, i requires 0 <= i < N =>
      seq(N, j requires 0 <= j < N => if uni[i][j] then raw[i][j] else 0))
  }

  /** Presence: the cell carries a strictly positive weight. */
  function Presence(N: nat, c: seq<seq<nat>>): (d: seq<seq<bool>>)
    requires IsMatrix(c, N)
    ensures IsMatrix(d, N)
    ensures forall i, j :: 0 <= i < N && 0 <= j < N ==> (d[i][j] <==> c[i][j] > 0)
  {
    seq(N, i requires 0 <= i < N =>
      seq(N, j requires 0 <= j < N => c[i][j] > 0))
  }

  /** Asymmetry: presence differs between a cell and its mirror image. */
  function Asymmetry(N: nat, d: seq<seq<bool>>): (h: seq<seq<bool>>)
    requires IsMatrix(d, N)
    ensures IsMatrix(h, N) && Symmetric(h, N)
    ensures forall i :: 0 <= i < N ==> !h[i][i]
    ensures forall i, j :: 0 <= i < N && 0 <= j < N ==> (h[i][j] <==> d[i][j] != d[j][i])
  {
    seq(N, i requires 0 <= i < N =>
      seq(N, j requires 0 <= j < N => d[i][j] != d[j][i]))
  }

  /** The strict upper triangle: exactly one of two distinct cells `[i][j]` and
      `[j][i]` is marked, and no diagonal cell is. */
  function UpperTriangle(N: nat): (tr: seq<seq<bool>>)
    ensures IsMatrix(tr, N)
    ensures forall i :: 0 <= i < N ==> !tr[i][i]
    ensures forall i, j :: 0 <= i < N && 0 <= j < N && i != j ==> (tr[i][j] <==> !tr[j][i])
    ensures forall i, j :: 0 <= i < j < N ==> tr[i][j]
  {
    seq(N, i requires 0 <= i < N => seq(N, j requires 0 <= j < N => i < j))
  }

  function BoolToInt(b: bool): (n: int)
  {
    if b then 1 else 0
  }

  /** The weight the fill loop writes for the pair `i <= j`: none, once or twice
      the cell weight, counting presence once and the asymmetry bonus once. */
  function PairWeight(N: nat, c: seq<seq<nat>>, d: seq<seq<bool>>, h: seq<seq<bool>>,
                      tr: seq<seq<bool>>, i: int, j: int): (r: int)
    requires IsMatrix(c, N) && IsMatrix(d, N) && IsMatrix(h, N) && IsMatrix(tr, N)
    requires 0 <= i < N && 0 <= j < N
    ensures r == 0 || r == c[i][j] || r == 2 * c[i][j]
    ensures d[i][j] && h[i][j] && tr[i][j] ==> r == 2 * c[i][j]
    ensures c[i][j] == 0 || (!d[i][j] && !(h[i][j] && tr[i][j])) ==> r == 0
    ensures d[i][j] != (h[i][j] && tr[i][j]) ==> r == c[i][j]
  {
    (BoolToInt(d[i][j]) + BoolToInt(h[i][j]) * BoolToInt(tr[i][j])) * c[i][j]
  }

  /** The derived weight: each pair is weighed once, from its upper-triangle
      cell, and the value is mirrored, so the matrix is symmetric. */
  function DerivedWeight(N: nat, c: seq<seq<nat>>, d: seq<seq<bool>>, h: seq<seq<bool>>,
                         tr: seq<seq<bool>>): (w: seq<seq<int>>)
    requires IsMatrix(c, N) && IsMatrix(d, N) && IsMatrix(h, N) && IsMatrix(tr, N)
    ensures IsMatrix(w, N) && Symmetric(w, N)
  {
    seq(N, i requires 0 <= i < N =>
      seq(N, j requires 0 <= j < N =>
        if i <= j then PairWeight(N, c, d, h, tr, i, j) else PairWeight(N, c, d, h, tr, j, i)))
  }

  /** Fills the weight matrix by visiting every pair `i <= j` once and writing
      the value into both mirror cells. */
  method BuildWeights(N: nat, c: seq<seq<nat>>, d: seq<seq<bool>>, h: seq<seq<bool>>,
                      tr: seq<seq<bool>>) returns (w: seq<seq<int>>)
    requires IsMatrix(c, N) && IsMatrix(d, N) && IsMatrix(h, N) && IsMatrix(tr, N)
    ensures w == DerivedWeight(N, c, d, h, tr)
  {
    ghost var spec := DerivedWeight(N, c, d, h, tr);
    w := seq(N, _ => seq(N, _ => 0));
    for i := 0 to N
      invariant IsMatrix(w, N)
      invariant forall r, s :: 0 <= r < N && 0 <= s < N ==>
        w[r][s] == if r < i || s < i then spec[r][s] else 0
    {
      for j := i to N
        invariant IsMatrix(w, N)
        invariant forall r, s :: 0 <= r < N && 0 <= s < N ==>
          w[r][s] == if r < i || s < i || (r == i && s < j) || (s == i && r < j) then spec[r][s] else 0
      {
        var dd := if d[i][j] then 1 else 0;
        var hh := if h[i][j] then 1 else 0;
        var tt := if tr[i][j] then 1 else 0;
        var cc := c[i][j];
        w := w[i := w[i][j := (dd + hh * tt) * cc]];
        w := w[j := w[j][i := w[i][j]]];
      }
    }
    forall r | 0 <= r < N
      ensures w[r] == spec[r]
    {
    }
  }

  /** Above the diagonal the asymmetry bonus applies in full. */
  lemma WeightAboveDiagonal(N: nat, matrix: seq<seq<bool>>, raw: seq<seq<nat>>, i: int, j: int)
    requires IsMatrix(matrix, N) && IsMatrix(raw, N) && 0 <= i < j < N
    ensures var uni := Unimatrix(N, matrix);
            var c := GatedWeights(N, uni, raw);
            var d := Presence(N, c);
            var h := Asymmetry(N, d);
            var w := DerivedWeight(N, c, d, h, UpperTriangle(N));
            w[i][j] == w[j][i] == (BoolToInt(d[i][j]) + BoolToInt(h[i][j])) * c[i][j]
  {
  }

  /** On the diagonal there is no asymmetry bonus: only presence times weight. */
  lemma WeightOnDiagonal(N: nat, matrix: seq<seq<bool>>, raw: seq<seq<nat>>, i: int)
    requires IsMatrix(matrix, N) && IsMatrix(raw, N) && 0 <= i < N
    ensures var uni := Unimatrix(N, matrix);
            var c := GatedWeights(N, uni, raw);
            var d := Presence(N, c);
            var w := DerivedWeight(N, c, d, Asymmetry(N, d), UpperTriangle(N));
            w[i][i] == BoolToInt(d[i][i]) * c[i][i]
  {
  }

  /** Two nodes the projection does not join have weight zero between them,
      and every derived weight is a non-negative whole number. */
  lemma WeightOffProjection(N: nat, matrix: seq<seq<bool>>, raw: seq<seq<nat>>)
    requires IsMatrix(matrix, N) && IsMatrix(raw, N)
    ensures var uni := Unimatrix(N, matrix);
            var c := GatedWeights(N, uni, raw);
            var d := Presence(N, c);
            var w := DerivedWeight(N, c, d, Asymmetry(N, d), UpperTriangle(N));
            forall i, j :: 0 <= i < N && 0 <= j < N ==>
              w[i][j] >= 0 && (!uni[i][j] ==> w[i][j] == 0)
  {
  }
}
