/**
 * The adjacency matrix of the n-by-n grid graph (`AdjacencyMatrix.__init__`).
 *
 * The matrix is an `n*n`-by-`n*n` sequence of rows holding 0 or 1. Row `v`
 * is filled by trying the four candidate neighbours `v - 1`, `v + 1`,
 * `v - n`, `v + n` under the guards of module `Grid`; the result is proved
 * to be the indicator of `Grid.Adjacent`, and to hold `4n(n-1)` ones.
 */
module Adjacency {
  import opened Grid

  type Matrix = seq<seq<int>>

  /** A row of `size` zeros: what `[0] * vertex_total` builds. */
  function Zeros(size: nat): (r: seq<int>)
    ensures |r| == size
    ensures forall i :: 0 <= i < size ==> r[i] == 0
  {
    seq(size, _ => 0)
  }

  /** `m` is square of side `n*n`. */
  predicate IsSquare(n: nat, m: Matrix) {
    && |m| == n * n
    && forall u :: 0 <= u < |m| ==> |m[u]| == n * n
  }

  /** `m` is exactly the 0/1 indicator of grid adjacency. */
  predicate IsGridMatrix(n: nat, m: Matrix) {
    && IsSquare(n, m)
    && forall u, w :: 0 <= u < n * n && 0 <= w < n * n ==>
         m[u][w] == (if Adjacent(n, u, w) then 1 else 0)
  }

  /** One pass of the vertex loop: starting from a row of zeros, set the
      entries of the neighbours the four guards allow. The result is the
      indicator of `v`'s grid neighbours. */
  method FillRow(n: nat, vertex: nat, row0: seq<int>) returns (row: seq<int>)
    requires n > 0 && vertex < n * n
    requires row0 == Zeros(n * n)
    ensures |row| == n * n
    ensures forall w :: 0 <= w < n * n ==> row[w] == (if Adjacent(n, vertex, w) then 1 else 0)
  {
    var total := n * n;
    LinkGuards(n, vertex);
    row := row0;
    // square to the left, if on the same row
    var adj := vertex - 1;
    if adj / n == vertex / n {
      row := row[adj := 1];
    }
    // square to the right, if on the same row
    adj := vertex + 1;
    if adj / n == vertex / n {
      row := row[adj := 1];
    }
    // square above, if it exists
    adj := vertex - n;
    if 0 <= adj {
      row := row[adj := 1];
    }
    // square below, if it exists
    adj := vertex + n;
    if adj < total {
      row := row[adj := 1];
    }
  }

  /** Builds the matrix as the source does: start from all zeros, then fill
      each vertex's row in turn. */
  method BuildMatrix(n: nat) returns (m: Matrix)
    ensures IsGridMatrix(n, m)
  {
    var total := n * n;
    m := seq(total, _ => Zeros(total));
    var vertex := 0;
    while vertex < total
      invariant 0 <= vertex <= total
      invariant IsSquare(n, m)
      invariant forall u, w :: 0 <= u < total && 0 <= w < total ==>
        m[u][w] == (if u < vertex && Adjacent(n, u, w) then 1 else 0)
    {
      assert m[vertex] == Zeros(total);
      var row := FillRow(n, vertex, m[vertex]);
      m := m[vertex := row];
      vertex := vertex + 1;
    }
  }

  /** The matrix of the grid is symmetric, 0/1-valued and has a zero diagonal. */
  lemma GridMatrixShape(n: nat, m: Matrix)
    requires IsGridMatrix(n, m)
    ensures forall u, w :: 0 <= u < n * n && 0 <= w < n * n ==> m[u][w] == m[w][u]
    ensures forall u :: 0 <= u < n * n ==> m[u][u] == 0
    ensures forall u, w :: 0 <= u < n * n && 0 <= w < n * n ==> m[u][w] == 0 || m[u][w] == 1
  {
  }

  /** The matrix entry is 1 exactly for numbers one apart in the same row or
      one row width apart. */
  lemma GridMatrixByNumbers(n: nat, m: Matrix, u: nat, w: nat)
    requires IsGridMatrix(n, m)
    requires u < n * n && w < n * n
    ensures m[u][w] == 1 <==>
      (u / n == w / n && (u - w == 1 || w - u == 1)) || u - w == n || w - u == n
  {
    AdjacentByNumbers(n, u, w);
  }

  /** Number of ones in a row. */
  function RowOnes(r: seq<int>): nat {
    if |r| == 0 then 0 else RowOnes(r[..|r| - 1]) + (if r[|r| - 1] == 1 then 1 else 0)
  }

  /** Number of ones in a matrix. */
  function MatrixOnes(m: Matrix): nat {
    if |m| == 0 then 0 else MatrixOnes(m[..|m| - 1]) + RowOnes(m[|m| - 1])
  }

  /** The set of positions holding a one. */
  function OnesAt(r: seq<int>): set<int> {
    set w | 0 <= w < |r| && r[w] == 1
  }

  lemma {:induction false} RowOnesCountsPositions(r: seq<int>)
    ensures RowOnes(r) == |OnesAt(r)|
  {
    if |r| > 0 {
      var k := |r| - 1;
      var p := r[..k];
      RowOnesCountsPositions(p);
      if r[k] == 1 {
        assert OnesAt(r) == OnesAt(p) + {k};
      } else {
        assert OnesAt(r) == OnesAt(p);
      }
    }
  }

  /** The neighbours of `v`, listed by direction. */
  function NeighbourSet(n: nat, v: int): set<int>
    requires n > 0
  {
    var left := if Col(n, v) > 0 then {v - 1} else {};
    var right := if Col(n, v) < n - 1 then left + {v + 1} else left;
    var up := if Row(n, v) > 0 then right + {v - n} else right;
    if Row(n, v) < n - 1 then up + {v + n} else up
  }

  lemma NeighbourSetSize(n: nat, v: int)
    requires n > 0 && IsVertex(n, v)
    ensures |NeighbourSet(n, v)| == Degree(n, v)
  {
    CellInRange(n, v);
    var c, r := Col(n, v), Row(n, v);
    var left: set<int> := if c > 0 then {v - 1} else {};
    var right := if c < n - 1 then left + {v + 1} else left;
    assert v + 1 !in left;
    var up := if r > 0 then right + {v - n} else right;
    assert c > 0 ==> n > 1;
    assert v - n !in right;
    var down := if r < n - 1 then up + {v + n} else up;
    assert v + n !in up;
    assert down == NeighbourSet(n, v);
  }

  lemma NeighbourSetMembers(n: nat, v: int)
    requires n > 0 && IsVertex(n, v)
    ensures forall w :: w in NeighbourSet(n, v) <==> Adjacent(n, v, w)
  {
    LinkGuards(n, v);
  }

  /** Row `v` of the grid matrix holds `Degree(n, v)` ones. */
  lemma GridRowOnes(n: nat, m: Matrix, v: nat)
    requires n > 0
    requires IsGridMatrix(n, m)
    requires v < n * n
    ensures RowOnes(m[v]) == Degree(n, v)
  {
    RowOnesCountsPositions(m[v]);
    NeighbourSetSize(n, v);
    NeighbourSetMembers(n, v);
    assert OnesAt(m[v]) == NeighbourSet(n, v);
  }

  /** The degree of each vertex, as a function of the vertex number. */
  function DegreeAt(n: nat): int -> nat
    requires n > 0
  {
    v => Degree(n, v)
  }

  /** Sum of `f` over the first `k` vertices. */
  function SumTo(f: int -> nat, k: nat): nat {
    if k == 0 then 0 else SumTo(f, k - 1) + f(k - 1)
  }

  /** Sum of `f` over the first `c` vertices of grid row `r`. */
  function RowSum(f: int -> nat, n: nat, r: nat, c: nat): nat {
    if c == 0 then 0 else RowSum(f, n, r, c - 1) + f(r * n + c - 1)
  }

  /** Sum of `f` over the first `r` grid rows. */
  function RowsSum(f: int -> nat, n: nat, r: nat): nat {
    if r == 0 then 0 else RowsSum(f, n, r - 1) + RowSum(f, n, r - 1, n)
  }

  /** Neighbours of an index `i` in `[0, n)` along one axis. */
  function Step(n: nat, i: int): nat {
    (if i > 0 then 1 else 0) + (if i < n - 1 then 1 else 0)
  }

  /** Closed form of the sum of `Step(n, i)` for `i < c`. */
  function StepSum(n: nat, c: nat): nat
    requires 0 < n && c <= n
  {
    (if c > 0 then c - 1 else 0) + (if c < n then c else n - 1)
  }

  lemma DegreeOfCell(n: nat, r: nat, c: nat)
    requires 0 < n && r < n && c < n
    ensures Degree(n, r * n + c) == Step(n, c) + Step(n, r)
  {
    CellOf(n, r, c);
  }

  lemma {:induction false} RowSumClosed(n: nat, r: nat, c: nat)
    requires 0 < n && r < n && c <= n
    ensures RowSum(DegreeAt(n), n, r, c) == StepSum(n, c) + c * Step(n, r)
  {
    if c > 0 {
      RowSumClosed(n, r, c - 1);
      DegreeOfCell(n, r, c - 1);
      Distrib(c - 1, 1, Step(n, r));
    }
  }

  lemma RowsSumArithmetic(n: int, r: int, a: int, s: int)
    ensures (2 * (n - 1) * (r - 1) + n * a) + (2 * (n - 1) + n * s)
         == 2 * (n - 1) * r + n * (a + s)
  {
  }

  lemma {:induction false} RowsSumClosed(n: nat, r: nat)
    requires 0 < n && r <= n
    ensures RowsSum(DegreeAt(n), n, r) == 2 * (n - 1) * r + n * StepSum(n, r)
  {
    if r > 0 {
      RowsSumClosed(n, r - 1);
      RowSumClosed(n, r - 1, n);
      var a, s := StepSum(n, r - 1), Step(n, r - 1);
      assert RowSum(DegreeAt(n), n, r - 1, n) == 2 * (n - 1) + n * s;
      assert StepSum(n, r) == a + s;
      RowsSumArithmetic(n, r, a, s);
    }
  }

  /** Summing over the vertices in numbering order is summing row by row. */
  lemma {:induction false} SumByRows(f: int -> nat, n: nat, r: nat, c: nat)
    requires c <= n
    ensures SumTo(f, r * n + c) == RowsSum(f, n, r) + RowSum(f, n, r, c)
  {
    if c > 0 {
      SumByRows(f, n, r, c - 1);
    } else if r > 0 {
      SumByRows(f, n, r - 1, n);
      Distrib(r - 1, 1, n);
    }
  }

  lemma {:induction false} MatrixOnesIsSumDegree(n: nat, m: Matrix, k: nat)
    requires n > 0
    requires IsGridMatrix(n, m)
    requires k <= n * n
    ensures MatrixOnes(m[..k]) == SumTo(DegreeAt(n), k)
  {
    if k > 0 {
      assert m[..k][..k - 1] == m[..k - 1];
      MatrixOnesIsSumDegree(n, m, k - 1);
      GridRowOnes(n, m, k - 1);
    }
  }

  lemma TwoRowsOfEdges(n: int)
    ensures 2 * (n - 1) * n + n * (2 * (n - 1)) == 4 * n * (n - 1)
  {
  }

  /** The grid matrix holds `4n(n-1)` ones: `2n(n-1)` undirected edges, each
      stored in both directions. */
  lemma GridMatrixOnes(n: nat, m: Matrix)
    requires IsGridMatrix(n, m)
    ensures MatrixOnes(m) == 4 * n * (n - 1)
  {
    if n > 0 {
      var total := n * n;
      MatrixOnesIsSumDegree(n, m, total);
      assert m[..total] == m;
      Distrib(n - 1, 1, n);
      assert (n - 1) * n + n == total;
      SumByRows(DegreeAt(n), n, n - 1, n);
      assert SumTo(DegreeAt(n), total) == RowsSum(DegreeAt(n), n, n);
      RowsSumClosed(n, n);
      assert StepSum(n, n) == 2 * (n - 1);
      TwoRowsOfEdges(n);
    }
  }
}
