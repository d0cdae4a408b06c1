# Random maze game — verified model of the maze pipeline

This project models, in Dafny, the core of a small maze game written in
Python with pygame (`main.py`). The game builds a perfect maze on an
n-by-n grid and lets a square player walk along its corridors. The model
covers four pieces.

1. **Grid adjacency matrix** (`AdjacencyMatrix.__init__`). This is an
   `n²`-by-`n²` 0/1 matrix. Vertex `v` links to `v ± 1` when the neighbour
   has the same `v // n`. It links to `v ± n` when the neighbour lies in
   `[0, n²)`. Modules `Grid` and `Adjacency`.
2. **Randomised Prim's spanning tree** (`AdjacencyMatrix.random_prims`).
   It starts from vertex 0. Each step lists every live matrix entry
   `(row, column)` with a visited column and picks one at random. It then
   records that entry as the edge `(from, to)`, clears row `from` and marks
   `from` visited. Module `Prims`. `random.choice` is a nondeterministic
   pick (`:|`), so each result holds for every run of the generator.
3. **Tile layout** (`Game.create_grid`). There are `n²` base tiles, and
   the grid ROW goes on the x axis, as in the source. The last base tile
   is the goal. Each tree edge adds one connector tile at the midpoint of
   its two ends. Module `Layout`.
4. **Per-axis collision resolution** (`Player.move`, `Player.gen_corners`)
   and the player's start position. Module `Movement`. Module `Maze`
   composes the pieces the way `Game.__init__` does.

Geometry uses Dafny's exact `real`. The window width is 900, the base
spacing is `900 / n` and every tile's side is half of that. The player's
hitbox margin is 1.

Point-in-tile is ASSUMED to be the half-open test
`x <= px < x + side` (and the same for y). The real test is pygame's
`Rect.collidepoint`, and pygame's code is not part of this model.

Facts about the code that the model keeps:
- The code does not check the grid side. Side 1 gives a single tile that
  is both the start and the goal, and the model accepts it. With side 0,
  `Game(0)` stops at main.py:139 with `ZeroDivisionError`, before the maze
  is built. Called on its own with side 0, `random_prims` raises
  `IndexError` at main.py:115. Every operation that places tiles, grows the
  tree or divides by `n` therefore requires `n >= 1`. `BuildMatrix` accepts
  `n = 0` and returns the empty matrix, as the code does.
- The first component of each edge is the newly absorbed vertex, although
  the comment at main.py:129 calls it the 'to' vertex. The model names the
  two components `from` (new) and `to` (already visited), as the tuple
  comment at main.py:118 does.
- Base tiles put the row index on x and the column index on y.

## Model

| member | source | states |
|---|---|---|
| Grid.LinkGuards | main.py:65-84 | Each of the builder's four guards (`(v-1)//n == v//n`, `(v+1)//n == v//n`, `0 <= v-n`, `v+n < n²`) holds exactly when the matching neighbouring cell exists. The neighbours of `v` are exactly the candidates whose guard holds. |
| Grid.AdjacentByNumbers | main.py:65-84 | Two vertices are grid neighbours iff they are one apart with the same `v // n`, or exactly `n` apart. |
| Adjacency.BuildMatrix | main.py:56-84 | The matrix built by the vertex loop is square of side `n²`, and entry `[u][w]` is 1 exactly when `u` and `w` are orthogonal neighbours on the grid (0 otherwise). |
| Adjacency.FillRow | main.py:65-84 | One pass of the vertex loop turns a row of zeros into the exact 0/1 indicator of that vertex's grid neighbours. |
| Adjacency.GridMatrixShape | main.py:65-84 | The grid matrix is symmetric, has a zero diagonal and holds only 0 and 1. |
| Adjacency.GridMatrixByNumbers | main.py:65-84 | A matrix entry is 1 iff the two vertex numbers are one apart in the same row or one row width apart. |
| Adjacency.GridMatrixOnes | main.py:52-84 | The matrix holds exactly `4n(n-1)` ones. These are the `n(2n-2)` undirected edges the comment promises, each stored in both directions. |
| Adjacency.GridRowOnes | main.py:65-84 | Row `v` holds as many ones as cell `v` has neighbours (2 at a corner, 3 on a side, 4 inside). |
| Prims.ColumnHits | main.py:122-123 | The hits of one column are exactly the pairs `(row, column)` whose entry is 1, and nothing else. |
| Prims.Available | main.py:120-123 | `available_vertices` contains every pair `(row, column)` with `column` visited and a 1 at `[row][column]`, and only such pairs. |
| Prims.AvailableIsFrontier | main.py:119-126 | In every reachable state, the candidate pairs are exactly the frontier. The column is visited, the row is not, and the two are grid neighbours. Every such frontier pair is a candidate. |
| Prims.FrontierEdge | main.py:119-126 | While fewer than `n²` vertices are visited, some unvisited vertex has a visited neighbour, so `random.choice` never sees an empty list. The smallest unvisited vertex has its left neighbour visited, or the vertex above it when it starts a row. |
| Prims.PrimsStep | main.py:126-131 | Absorbing any candidate keeps the loop state. Visited vertices stay distinct, visited rows are cleared, unvisited rows keep their adjacency row, and the new edge joins the new vertex to an earlier one. |
| Prims.RandomPrims | main.py:107-131 | On return there are exactly `n²-1` edges. The visiting order is a permutation of `0..n²-1` starting at 0. Edge `k` joins the vertex absorbed at step `k+1` to an earlier-absorbed grid neighbour. Every matrix row is cleared. |
| Prims.ClearedRowsAreVisited | main.py:114-131 | In every loop state, a matrix row is all zero iff its vertex is visited. |
| Prims.TreeEdgesFresh | main.py:127-131 | The `from` ends of the edges are pairwise distinct and never vertex 0. No edge is a loop. |
| Prims.WalkToRoot | main.py:114-131 | Every absorbed vertex has a walk along recorded edges back to vertex 0. |
| Prims.MazeSpansGrid | main.py:114-131 | Every vertex of the grid is joined to vertex 0 by a walk along the maze's edges, so the `n²-1` edges connect all `n²` cells. |
| Prims.MissingVertex | main.py:119-126 | A repetition-free list of vertices shorter than `n²` misses some vertex, so an unvisited vertex exists while the loop runs. |
| Prims.AllVertices | main.py:114-131 | A repetition-free list of `n²` vertices below `n²` contains all of them: the final `visited` is a permutation. |
| Layout.CreateGrid | main.py:167-191 | The grid is produced iff each edge names tiles that exist when it is processed (otherwise the code raises `IndexError`). Then there are `n² + |edges|` tiles. Base tile `i` sits at `((i//n)·base + small, (i%n)·base + small)`, using the row/column counters. Only tile `n²-1` is the goal. Tile `n²+k` is the midpoint tile `Connector` of the two tiles edge `k` names. |
| Layout.BaseTiles | main.py:169-180 | The running row/column counters put base tile `i` on cell `(i//n, i%n)`, that is at `((i//n)·base + small, (i%n)·base + small)`, with side `small`, for every `i < n²`. |
| Layout.ConnectorBridges | main.py:186-191 | For two neighbouring cells, the connector abuts both base tiles. It is aligned with them on one axis and one tile side away on the other, so it fills the gap between them. |
| Layout.MazeCorridors | main.py:186-191 | In a maze layout, every connector abuts the base tiles of both ends of its edge. |
| Movement.Move | main.py:404-455 | The scan with early-exit flags commits `next_x` iff all four inset corners of the body at `(next_x, y)` lie in some tile. The corners come from `Corners`, which models `gen_corners` and lists them in its order, each inset by the margin of 1. The scan commits `next_y` iff the same holds at `(x, next_y)`. Both tests use the original position. The flags do not change the outcome. |
| Movement.TryCorner | main.py:423-437 | One corner test of one axis keeps the scan's bookkeeping exact. A flag is set only for a corner found in a tile seen so far, and while the axis is incomplete every such corner is flagged. The axis is complete iff all four flags are set, and once complete nothing changes. |
| Movement.StandingStill | main.py:410-446 | With zero displacement the position is unchanged, whatever the tiles. |
| Movement.NoInputNoDrift | main.py:404-448 | Any number of successive zero-displacement moves leaves the body where it was. |
| Movement.SingleAxisStaysOnPath | main.py:412-446 | When exactly one axis commits, all four inset corners at the new position lie in some tile. |
| Movement.BlockedAxisSlides | main.py:441-446 | If x is blocked and y is open, the body keeps its x and takes the new y in the same call. |
| Movement.MoveWithinTile | main.py:412-446 | If the hitbox is inside one tile both before and after a displacement, both axes commit, and the body ends at the target inside that tile. |
| Movement.StartOnPath | main.py:153-159 | The start body `StartBody` (the arithmetic here, repeated for a restart at main.py:254-258) is a quarter of a tile wide and centred in the first tile. All its inset corners lie in that tile, so the player starts on the path. |
| Movement.StartOffPath | main.py:153-159 | From side 282 on, the near inset corner of the start body lies at or past the first tile's far edge. The bound 281 of `StartOnPath` is therefore exact. |
| Maze.NewGame | main.py:134-159 | A new level of side `n` has `n²-1` tree edges between grid neighbours and `2n²-1` tiles. The goal is only on tile `n²-1`, every connector bridges its two cells, every cell has a walk to the first cell along tree edges, and the player starts on the first tile. |

## Left out

- Rendering, fonts and colours beyond the goal/path tag are left out: `Square.draw`, `Player.draw`, `draw_path`, the centring `offset`, and window setup.
- The menu, the end screen and `main()` are left out. They are UI, the event loop and process lifecycle.
- `game_loop`, `get_delta_time`, the `perf_counter` timing and the skip of frames longer than 0.06 s are left out. They depend on wall-clock time. The win test `end_square.rect.contains(player.rect)` runs inside this loop and is left out with it.
- Input-vector normalisation and `velocity * delta_time` integration are left out because they use floating point and `sqrt`. `Move` takes the target `(next_x, next_y)` as an input instead.
- `AdjacencyMatrix.__str__` is left out. It is debug output.
- `matrix_offset_list` is left out. It is never used, and it holds `±squares_total` where `±squares_across` was presumably meant.
- Movement.Move: pygame converts `Rect` coordinates to integers, and pygame's `collidepoint` is not part of this model. The model uses exact reals and the assumed half-open point-in-tile test.
- Layout.CreateGrid: Python also accepts negative list indices. Edge ends are `nat` here, so that case is not represented. The generator never produces such indices.
- Prims.RandomPrims: the model proves `n²-1` edges, each attaching a fresh vertex to an earlier one, plus a walk from every vertex to vertex 0. It has no separate lemma that the edge set has no cycle. That follows from connectivity with `n²-1` edges on `n²` vertices.
- Movement.StartOnPath: proved for grid sides up to 281, which covers the offered sides 5, 10 and 15. From side 282 on, `StartOffPath` shows that the near inset corner falls outside the first tile.
- Tile-level reachability (every tile reachable from the first through touching tiles) is not stated as one lemma. `Maze.NewGame` states its two ingredients: every cell has a walk to the first cell along tree edges, and every connector abuts the tiles of both its ends.
