/**
 * Vertices of an n-by-n grid graph and the arithmetic that places them.
 *
 * Vertex `v` of an n-by-n grid sits in row `v / n` and column `v % n`
 * (row-major numbering). `Adjacent` is the reference notion of orthogonal
 * neighbourhood, stated on cells; the four `...Link` predicates are the
 * guards the matrix builder actually evaluates, stated on vertex numbers.
 * `LinkGuards` ties the two together.
 */
module Grid {

  /** A tree edge `(from, to)`: `from` is the vertex absorbed by the step, `to`
      the already-visited vertex it hangs from. */
  datatype Edge = Edge(from: nat, to: nat)

  predicate IsVertex(n: nat, v: int) {
    0 <= v < n * n
  }

  function Row(n: nat, v: int): int
    requires n > 0
  {
    v / n
  }

  function Col(n: nat, v: int): int
    requires n > 0
  {
    v % n
  }

  /** Orthogonal neighbours: same row and neighbouring columns, or same column
      and neighbouring rows. No diagonals, no wrap-around. */
  predicate Adjacent(n: nat, u: int, v: int) {
    && n > 0
    && IsVertex(n, u)
    && IsVertex(n, v)
    && ( (Row(n, u) == Row(n, v) && (Col(n, u) - Col(n, v) == 1 || Col(n, v) - Col(n, u) == 1))
      || (Col(n, u) == Col(n, v) && (Row(n, u) - Row(n, v) == 1 || Row(n, v) - Row(n, u) == 1)))
  }

  /** The guards the builder evaluates for vertex `v` (floor division agrees
      with Dafny's `/` because the divisor is positive). */
  predicate LeftLink(n: nat, v: int)
    requires n > 0
  {
    (v - 1) / n == v / n
  }

  predicate RightLink(n: nat, v: int)
    requires n > 0
  {
    (v + 1) / n == v / n
  }

  predicate UpLink(n: nat, v: int) {
    0 <= v - n
  }

  predicate DownLink(n: nat, v: int) {
    v + n < n * n
  }

  /** Number of orthogonal neighbours of `v`, counted on its cell. */
  function Degree(n: nat, v: int): nat
    requires n > 0
  {
    (if Col(n, v) > 0 then 1 else 0) + (if Col(n, v) < n - 1 then 1 else 0)
    + (if Row(n, v) > 0 then 1 else 0) + (if Row(n, v) < n - 1 then 1 else 0)
  }

  lemma MulLe(a: int, b: int, n: int)
    requires n > 0 && a <= b
    ensures a * n <= b * n
  {
  }

  lemma Distrib(a: int, b: int, n: int)
    ensures (a + b) * n == a * n + b * n
  {
  }

  lemma MulLt(a: int, b: int, n: int)
    requires n > 0 && a < b
    ensures a * n + n <= b * n
  {
    MulLe(a + 1, b, n);
    Distrib(a, 1, n);
  }

  /** Division by a positive divisor is determined by quotient and remainder. */
  lemma DivModUnique(x: int, n: int, q: int, r: int)
    requires n > 0
    requires 0 <= r < n
    requires x == q * n + r
    ensures x / n == q
    ensures x % n == r
  {
    var q', r' := x / n, x % n;
    assert x == q' * n + r';
    if q > q' {
      MulLt(q', q, n);
    } else if q < q' {
      MulLt(q, q', n);
    }
  }

  /** A vertex's row and column both lie in `[0, n)`. */
  lemma CellInRange(n: nat, v: int)
    requires n > 0
    requires IsVertex(n, v)
    ensures 0 <= Row(n, v) < n
    ensures 0 <= Col(n, v) < n
    ensures v == Row(n, v) * n + Col(n, v)
  {
    var r := v / n;
    assert v == r * n + v % n;
    if r >= n {
      MulLe(n, r, n);
    }
  }

  /** The cell `(r, c)` is vertex `r * n + c`. */
  lemma CellOf(n: nat, r: int, c: int)
    requires n > 0
    requires 0 <= r < n && 0 <= c < n
    ensures IsVertex(n, r * n + c)
    ensures Row(n, r * n + c) == r && Col(n, r * n + c) == c
  {
    DivModUnique(r * n + c, n, r, c);
    MulLt(r, n, n);
    MulLe(0, r, n);
  }

  lemma LeftGuard(n: nat, v: int)
    requires n > 0 && IsVertex(n, v)
    ensures LeftLink(n, v) <==> Col(n, v) > 0
    ensures LeftLink(n, v) ==> Adjacent(n, v, v - 1)
  {
    var r, c := Row(n, v), Col(n, v);
    CellInRange(n, v);
    if c > 0 {
      CellOf(n, r, c - 1);
      assert v - 1 == r * n + (c - 1);
    } else {
      Distrib(r, -1, n);
      DivModUnique(v - 1, n, r - 1, n - 1);
    }
  }

  lemma RightGuard(n: nat, v: int)
    requires n > 0 && IsVertex(n, v)
    ensures RightLink(n, v) <==> Col(n, v) < n - 1
    ensures RightLink(n, v) ==> Adjacent(n, v, v + 1)
  {
    var r, c := Row(n, v), Col(n, v);
    CellInRange(n, v);
    if c < n - 1 {
      CellOf(n, r, c + 1);
      assert v + 1 == r * n + (c + 1);
    } else {
      Distrib(r, 1, n);
      DivModUnique(v + 1, n, r + 1, 0);
    }
  }

  lemma UpGuard(n: nat, v: int)
    requires n > 0 && IsVertex(n, v)
    ensures UpLink(n, v) <==> Row(n, v) > 0
    ensures UpLink(n, v) ==> Adjacent(n, v, v - n)
  {
    var r, c := Row(n, v), Col(n, v);
    CellInRange(n, v);
    Distrib(r, -1, n);
    if r > 0 {
      CellOf(n, r - 1, c);
      assert v - n == (r - 1) * n + c;
    } else {
      assert r * n == 0;
    }
  }

  lemma DownGuard(n: nat, v: int)
    requires n > 0 && IsVertex(n, v)
    ensures DownLink(n, v) <==> Row(n, v) < n - 1
    ensures DownLink(n, v) ==> Adjacent(n, v, v + n)
  {
    var r, c := Row(n, v), Col(n, v);
    CellInRange(n, v);
    Distrib(r, 1, n);
    if r < n - 1 {
      CellOf(n, r + 1, c);
      assert v + n == (r + 1) * n + c;
    } else {
      assert r + 1 == n;
      assert v + n >= n * n;
    }
  }

  /** Every neighbour of `v` is one of the four candidates the builder tries,
      on the side where `v`'s cell has room for it. */
  lemma NeighbourCandidates(n: nat, v: int, w: int)
    requires n > 0 && IsVertex(n, v)
    requires Adjacent(n, v, w)
    ensures || (w == v - 1 && Col(n, v) > 0)
            || (w == v + 1 && Col(n, v) < n - 1)
            || (w == v - n && Row(n, v) > 0)
            || (w == v + n && Row(n, v) < n - 1)
  {
    CellInRange(n, v);
    CellInRange(n, w);
    var r, c := Row(n, v), Col(n, v);
    var rw, cw := Row(n, w), Col(n, w);
    if rw != r {
      assert cw == c;
      if rw == r + 1 {
        Distrib(r, 1, n);
      } else {
        Distrib(rw, 1, n);
      }
    }
  }

  /** Each of the builder's guards holds exactly when the corresponding
      neighbouring cell exists, and the neighbours of `v` are exactly the
      candidates whose guard holds. */
  lemma LinkGuards(n: nat, v: int)
    requires n > 0
    requires IsVertex(n, v)
    ensures LeftLink(n, v) <==> Col(n, v) > 0
    ensures RightLink(n, v) <==> Col(n, v) < n - 1
    ensures UpLink(n, v) <==> Row(n, v) > 0
    ensures DownLink(n, v) <==> Row(n, v) < n - 1
    ensures LeftLink(n, v) ==> Adjacent(n, v, v - 1)
    ensures RightLink(n, v) ==> Adjacent(n, v, v + 1)
    ensures UpLink(n, v) ==> Adjacent(n, v, v - n)
    ensures DownLink(n, v) ==> Adjacent(n, v, v + n)
    ensures forall w :: Adjacent(n, v, w) <==>
      || (w == v - 1 && LeftLink(n, v))
      || (w == v + 1 && RightLink(n, v))
      || (w == v - n && UpLink(n, v))
      || (w == v + n && DownLink(n, v))
  {
    LeftGuard(n, v);
    RightGuard(n, v);
    UpGuard(n, v);
    DownGuard(n, v);
    forall w | Adjacent(n, v, w)
      ensures || (w == v - 1 && LeftLink(n, v))
              || (w == v + 1 && RightLink(n, v))
              || (w == v - n && UpLink(n, v))
              || (w == v + n && DownLink(n, v))
    {
      NeighbourCandidates(n, v, w);
    }
  }

  /** The adjacency test as vertex arithmetic: same row and consecutive
      numbers, or numbers exactly one row width apart. */
  lemma AdjacentByNumbers(n: nat, u: int, v: int)
    requires n > 0
    requires IsVertex(n, u) && IsVertex(n, v)
    ensures Adjacent(n, u, v) <==>
      (u / n == v / n && (u - v == 1 || v - u == 1)) || u - v == n || v - u == n
  {
    LinkGuards(n, u);
    LinkGuards(n, v);
  }
}
