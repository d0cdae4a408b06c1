/**
 * Randomised Prim's spanning tree over the grid matrix
 * (`AdjacencyMatrix.random_prims`).
 *
 * Starting from vertex 0, each step lists every live matrix entry
 * `(row, column)` whose column is already visited, picks one of them at
 * random, records it as a tree edge, clears the chosen row and marks it
 * visited. `random.choice` is modelled by a nondeterministic pick
 * (`:|`), so every property proved here holds for every sequence of
 * random choices.
 */
module Prims {
  import opened Grid
  import opened Adjacency

  predicate Distinct(s: seq<nat>) {
    forall i, j :: 0 <= i < j < |s| ==> s[i] != s[j]
  }

  predicate AllBelow(s: seq<nat>, bound: nat) {
    forall i :: 0 <= i < |s| ==> s[i] < bound
  }

  /** The live entries of one column, in increasing row order: the inner
      comprehension over `range(vertex_total)`. */
  function ColumnHits(m: Matrix, column: nat, rows: nat): (r: seq<Edge>)
    requires rows <= |m|
    requires forall u :: 0 <= u < |m| ==> column < |m[u]|
    ensures forall i :: 0 <= i < |r| ==>
      r[i].to == column && r[i].from < rows && m[r[i].from][column] == 1
    ensures forall row :: 0 <= row < rows && m[row][column] == 1 ==> Edge(row, column) in r
  {
    if rows == 0 then []
    else
      ColumnHits(m, column, rows - 1)
      + (if m[rows - 1][column] == 1 then [Edge(rows - 1, column)] else [])
  }

  /** `available_vertices`: for each visited column in visiting order, the
      rows holding a one in that column. */
  function Available(m: Matrix, visited: seq<nat>): (r: seq<Edge>)
    requires forall u :: 0 <= u < |m| ==> |m[u]| == |m|
    requires AllBelow(visited, |m|)
    ensures forall i :: 0 <= i < |r| ==>
      r[i].to in visited && r[i].from < |m| && m[r[i].from][r[i].to] == 1
    ensures forall row, column :: 0 <= row < |m| && column in visited && m[row][column] == 1 ==>
      Edge(row, column) in r
  {
    if |visited| == 0 then []
    else
      var rest := visited[..|visited| - 1];
      var column := visited[|visited| - 1];
      assert forall c :: c in visited ==> c in rest || c == column;
      Available(m, rest) + ColumnHits(m, column, |m|)
  }

  /** Each recorded edge attaches the vertex absorbed at step `k + 1` to a
      vertex absorbed earlier, along a grid edge. */
  predicate GrowthOrder(n: nat, edges: seq<Edge>, visited: seq<nat>) {
    && |edges| + 1 == |visited|
    && forall k :: 0 <= k < |edges| ==>
         && edges[k].from == visited[k + 1]
         && edges[k].to in visited[..k + 1]
         && Adjacent(n, edges[k].from, edges[k].to)
  }

  /** The state `random_prims` keeps between two steps: visited rows are
      cleared, the others still hold their grid adjacency row. */
  predicate PrimsState(n: nat, grid: Matrix, m: Matrix, visited: seq<nat>, edges: seq<Edge>) {
    && n >= 1
    && IsGridMatrix(n, grid)
    && IsSquare(n, m)
    && 1 <= |visited| <= n * n
    && visited[0] == 0
    && Distinct(visited)
    && AllBelow(visited, n * n)
    && (forall v :: 0 <= v < n * n && v in visited ==> m[v] == Zeros(n * n))
    && (forall v :: 0 <= v < n * n && v !in visited ==> m[v] == grid[v])
    && GrowthOrder(n, edges, visited)
  }

  /** The candidates are exactly the frontier: pairs whose column is
      visited, whose row is not, and which are grid neighbours. */
  lemma AvailableIsFrontier(n: nat, grid: Matrix, m: Matrix, visited: seq<nat>, edges: seq<Edge>)
    requires PrimsState(n, grid, m, visited, edges)
    ensures forall i :: 0 <= i < |Available(m, visited)| ==>
      var e := Available(m, visited)[i];
      e.to in visited && e.from < n * n && e.from !in visited && Adjacent(n, e.from, e.to)
    ensures forall u, w :: 0 <= u < n * n && u !in visited && w in visited && Adjacent(n, u, w) ==>
      Edge(u, w) in Available(m, visited)
  {
    var avail := Available(m, visited);
    assert forall i :: 0 <= i < |avail| ==> avail[i].from !in visited;
    forall u, w | 0 <= u < n * n && u !in visited && w in visited && Adjacent(n, u, w)
      ensures Edge(u, w) in avail
    {
      assert m[u][w] == grid[u][w] == 1;
    }
  }

  /** Absorbing an unvisited vertex keeps the visiting order free of
      repetitions and within the grid; there was room for it. */
  lemma VisitedGrows(n: nat, visited: seq<nat>, u: nat)
    requires Distinct(visited) && AllBelow(visited, n * n)
    requires u < n * n && u !in visited
    ensures |visited| < n * n
    ensures Distinct(visited + [u]) && AllBelow(visited + [u], n * n)
  {
    DistinctElements(visited);
    SubsetSize(Elements(visited), Below(n * n) - {u});
  }

  /** Recording a frontier edge extends the growth order by its new vertex. */
  lemma GrowthStep(n: nat, edges: seq<Edge>, visited: seq<nat>, e: Edge)
    requires GrowthOrder(n, edges, visited)
    requires e.to in visited && Adjacent(n, e.from, e.to)
    ensures GrowthOrder(n, edges + [e], visited + [e.from])
  {
    var edges', visited' := edges + [e], visited + [e.from];
    forall k | 0 <= k < |edges'|
      ensures edges'[k].from == visited'[k + 1]
      ensures edges'[k].to in visited'[..k + 1]
      ensures Adjacent(n, edges'[k].from, edges'[k].to)
    {
      assert visited'[..k + 1] == visited[..k + 1];
      if k == |edges| {
        assert visited[..k + 1] == visited;
      }
    }
  }

  /** One step of the main loop keeps the state: clearing the chosen row and
      marking its vertex visited. */
  lemma PrimsStep(n: nat, grid: Matrix, m: Matrix, visited: seq<nat>, edges: seq<Edge>, chosen: Edge)
    requires PrimsState(n, grid, m, visited, edges)
    requires chosen in Available(m, visited)
    ensures |visited| < n * n
    ensures PrimsState(n, grid, m[chosen.from := Zeros(n * n)], visited + [chosen.from], edges + [chosen])
  {
    AvailableIsFrontier(n, grid, m, visited, edges);
    var total := n * n;
    var m', visited' := m[chosen.from := Zeros(total)], visited + [chosen.from];
    assert chosen.from < total && chosen.from !in visited;
    assert chosen.to in visited && Adjacent(n, chosen.from, chosen.to);
    VisitedGrows(n, visited, chosen.from);
    GrowthStep(n, edges, visited, chosen);
    forall v | 0 <= v < total
      ensures v in visited' ==> m'[v] == Zeros(total)
      ensures v !in visited' ==> m'[v] == grid[v]
    {
      assert v in visited' <==> v in visited || v == chosen.from;
    }
  }

  /** The finite set `{0, ..., bound - 1}`. */
  function Below(bound: nat): (r: set<nat>)
    ensures forall v :: v in r <==> 0 <= v < bound
    ensures |r| == bound
  {
    if bound == 0 then {} else Below(bound - 1) + {bound - 1}
  }

  function Elements(s: seq<nat>): set<nat> {
    set x | x in s
  }

  lemma {:induction false} DistinctElements(s: seq<nat>)
    requires Distinct(s)
    ensures |Elements(s)| == |s|
  {
    if |s| > 0 {
      var p := s[..|s| - 1];
      DistinctElements(p);
      assert s == p + [s[|s| - 1]];
      assert Elements(s) == Elements(p) + {s[|s| - 1]};
    }
  }

  lemma {:induction false} SubsetSize(a: set<nat>, b: set<nat>)
    requires a <= b
    ensures |a| <= |b|
    decreases |a|
  {
    if a != {} {
      var x :| x in a;
      SubsetSize(a - {x}, b - {x});
    }
  }

  /** A repetition-free list of vertices that is shorter than the grid
      misses some vertex. */
  lemma MissingVertex(s: seq<nat>, bound: nat) returns (u: nat)
    requires Distinct(s) && AllBelow(s, bound)
    requires |s| < bound
    ensures u < bound && u !in s
  {
    DistinctElements(s);
    if forall v :: 0 <= v < bound ==> v in s {
      assert Below(bound) <= Elements(s);
      SubsetSize(Below(bound), Elements(s));
      assert false;
    }
    var v :| 0 <= v < bound && v !in s;
    u := v;
  }

  /** A repetition-free list of `bound` vertices below `bound` lists them all. */
  lemma AllVertices(s: seq<nat>, bound: nat)
    requires Distinct(s) && AllBelow(s, bound)
    requires |s| == bound
    ensures forall v :: 0 <= v < bound ==> v in s
  {
    DistinctElements(s);
    forall v | 0 <= v < bound
      ensures v in s
    {
      if v !in s {
        assert Elements(s) <= Below(bound) - {v};
        SubsetSize(Elements(s), Below(bound) - {v});
        assert false;
      }
    }
  }

  lemma {:induction false} SmallestMissing(s: seq<nat>, u: nat) returns (w: nat)
    requires u !in s
    ensures w <= u && w !in s
    ensures forall j :: 0 <= j < w ==> j in s
    decreases u
  {
    if forall j :: 0 <= j < u ==> j in s {
      w := u;
    } else {
      var j :| 0 <= j < u && j !in s;
      w := SmallestMissing(s, j);
    }
  }

  /** While some vertex is unvisited, the frontier is not empty: the
      smallest unvisited vertex has its left neighbour visited, or, at the
      start of a row, the vertex above it. So `random.choice` never raises. */
  lemma FrontierEdge(n: nat, visited: seq<nat>) returns (u: nat, w: nat)
    requires n >= 1
    requires 1 <= |visited| < n * n
    requires visited[0] == 0
    requires Distinct(visited) && AllBelow(visited, n * n)
    ensures u < n * n && u !in visited && w in visited
    ensures Adjacent(n, u, w)
    ensures forall j :: 0 <= j < u ==> j in visited
    ensures w == (if Col(n, u) > 0 then u - 1 else u - n)
  {
    var missing := MissingVertex(visited, n * n);
    u := SmallestMissing(visited, missing);
    assert u != 0;
    LeftGuard(n, u);
    UpGuard(n, u);
    CellInRange(n, u);
    if Col(n, u) > 0 {
      w := u - 1;
    } else {
      assert Row(n, u) > 0;
      w := u - n;
    }
  }

  /** `random_prims`: grows the spanning tree one vertex per step and
      returns the edge list, the visiting order and the cleared matrix. */
  method RandomPrims(n: nat, grid: Matrix) returns (edges: seq<Edge>, visited: seq<nat>, m: Matrix)
    requires n >= 1
    requires IsGridMatrix(n, grid)
    ensures |edges| == n * n - 1
    ensures |visited| == n * n && visited[0] == 0 && Distinct(visited)
    ensures forall v :: 0 <= v < n * n ==> v in visited
    ensures AllBelow(visited, n * n)
    ensures GrowthOrder(n, edges, visited)
    ensures IsSquare(n, m)
    ensures forall v :: 0 <= v < n * n ==> m[v] == Zeros(n * n)
  {
    var total := n * n;
    visited := [0];
    m := grid[0 := Zeros(total)];
    edges := [];
    var count := 0;
    while count < total - 1
      invariant count == |edges| <= total - 1
      invariant PrimsState(n, grid, m, visited, edges)
    {
      var u, w := FrontierEdge(n, visited);
      AvailableIsFrontier(n, grid, m, visited, edges);
      var available := Available(m, visited);
      assert Edge(u, w) in available;
      var k :| 0 <= k < |available|;
      var chosen := available[k];
      PrimsStep(n, grid, m, visited, edges, chosen);
      edges := edges + [chosen];
      m := m[chosen.from := Zeros(total)];
      visited := visited + [chosen.from];
      count := count + 1;
    }
    AllVertices(visited, total);
  }

  /** A row is cleared exactly when its vertex has been visited. */
  lemma ClearedRowsAreVisited(n: nat, grid: Matrix, m: Matrix, visited: seq<nat>, edges: seq<Edge>)
    requires PrimsState(n, grid, m, visited, edges)
    ensures forall v :: 0 <= v < n * n ==> (m[v] == Zeros(n * n) <==> v in visited)
  {
    forall v | 0 <= v < n * n && v !in visited
      ensures m[v] != Zeros(n * n)
    {
      if n == 1 {
        // the only vertex is 0, the root, which is visited from the start
        assert false;
      }
      LeftGuard(n, v);
      RightGuard(n, v);
      var w := if Col(n, v) > 0 then v - 1 else v + 1;
      assert m[v][w] == grid[v][w] == 1;
    }
  }

  /** The recorded edges absorb each vertex other than 0 exactly once: their
      `from` ends are pairwise distinct and never the root, and each `to` end
      was absorbed strictly before the matching `from` end. */
  lemma TreeEdgesFresh(n: nat, edges: seq<Edge>, visited: seq<nat>)
    requires GrowthOrder(n, edges, visited)
    requires Distinct(visited) && |visited| > 0 && visited[0] == 0
    ensures forall i, j :: 0 <= i < j < |edges| ==> edges[i].from != edges[j].from
    ensures forall k :: 0 <= k < |edges| ==> edges[k].from != 0
    ensures forall k :: 0 <= k < |edges| ==> edges[k].to != edges[k].from
  {
    forall k | 0 <= k < |edges|
      ensures edges[k].to != edges[k].from
    {
      var j :| 0 <= j <= k && visited[j] == edges[k].to;
    }
  }

  /** Two vertices are joined by a recorded edge, in either direction. */
  ghost predicate Joined(edges: seq<Edge>, a: nat, b: nat) {
    exists k :: 0 <= k < |edges| && (edges[k] == Edge(a, b) || edges[k] == Edge(b, a))
  }

  /** A walk along recorded edges. */
  ghost predicate IsWalk(edges: seq<Edge>, p: seq<nat>) {
    && |p| > 0
    && forall i :: 0 <= i < |p| - 1 ==> Joined(edges, p[i], p[i + 1])
  }

  /** Every absorbed vertex reaches vertex 0 along recorded edges: the maze
      is connected. */
  lemma {:induction false} WalkToRoot(n: nat, edges: seq<Edge>, visited: seq<nat>, i: nat) returns (p: seq<nat>)
    requires GrowthOrder(n, edges, visited)
    requires i < |visited| && visited[0] == 0
    ensures IsWalk(edges, p) && p[0] == visited[i] && p[|p| - 1] == 0
    decreases i
  {
    if i == 0 {
      p := [0];
    } else {
      var e := edges[i - 1];
      assert e.to in visited[..i];
      var j :| 0 <= j < i && visited[j] == e.to;
      var q := WalkToRoot(n, edges, visited, j);
      p := [visited[i]] + q;
      assert Joined(edges, p[0], p[1]) by {
        assert edges[i - 1] == Edge(p[0], p[1]);
      }
      forall t | 0 <= t < |p| - 1
        ensures Joined(edges, p[t], p[t + 1])
      {
        if t > 0 {
          assert p[t] == q[t - 1] && p[t + 1] == q[t];
        }
      }
    }
  }

  /** Vertex `v` has a walk to vertex 0 along recorded edges. */
  ghost predicate ReachesRoot(edges: seq<Edge>, v: nat) {
    exists p :: IsWalk(edges, p) && p[0] == v && p[|p| - 1] == 0
  }

  /** The maze returned by `RandomPrims` spans the grid: every vertex has a
      walk to vertex 0 along tree edges, using `n * n - 1` edges in all. */
  lemma MazeSpansGrid(n: nat, edges: seq<Edge>, visited: seq<nat>, v: nat) returns (p: seq<nat>)
    requires GrowthOrder(n, edges, visited)
    requires |visited| > 0 && visited[0] == 0
    requires forall u :: 0 <= u < n * n ==> u in visited
    requires v < n * n
    ensures IsWalk(edges, p) && p[0] == v && p[|p| - 1] == 0
  {
    assert v in visited;
    var i :| 0 <= i < |visited| && visited[i] == v;
    p := WalkToRoot(n, edges, visited, i);
  }
}
