/**
 * Placement of the path tiles (`Game.create_grid`).
 *
 * The window is 900 units wide. For grid side `n`, base cells are
 * `900 / n` apart and every tile is a square of half that side. Base tile
 * `i` is placed with its grid ROW on the x axis and its COLUMN on the
 * y axis, exactly as the source does. Tile `n*n - 1` is the goal. Each tree
 * edge then adds a connector tile at the midpoint of its two end tiles.
 */
module Layout {
  import opened Grid
  import opened Wrappers

  const WinWidth: real := 900.0

  /** Distance between neighbouring base tiles (`base_square`). */
  function BaseSpacing(n: nat): real
    requires n >= 1
  {
    WinWidth / (n as real)
  }

  /** Side of every path tile (`small_square`). */
  function TileSide(n: nat): real
    requires n >= 1
  {
    BaseSpacing(n) / 2.0
  }

  datatype Colour = Path | Goal

  /** An axis-aligned square path tile with top-left corner `(x, y)`. */
  datatype Tile = Tile(x: real, y: real, side: real, colour: Colour)

  /** Where base tile `i` belongs: row on x, column on y. */
  function BaseX(n: nat, i: int): real
    requires n >= 1
  {
    (Row(n, i) as real) * BaseSpacing(n) + TileSide(n)
  }

  function BaseY(n: nat, i: int): real
    requires n >= 1
  {
    (Col(n, i) as real) * BaseSpacing(n) + TileSide(n)
  }

  predicate IsBaseTile(n: nat, i: int, t: Tile)
    requires n >= 1
  {
    t.x == BaseX(n, i) && t.y == BaseY(n, i) && t.side == TileSide(n)
  }

  /** The connector tile for an edge between tiles `a` and `b`. */
  function Connector(a: Tile, b: Tile, side: real): Tile {
    Tile(0.5 * (a.x + b.x), 0.5 * (a.y + b.y), side, Path)
  }

  /** What `create_grid` produces from a tree edge list. */
  predicate IsLayout(n: nat, edges: seq<Edge>, tiles: seq<Tile>)
    requires n >= 1
  {
    && |tiles| == n * n + |edges|
    && (forall i :: 0 <= i < n * n ==> IsBaseTile(n, i, tiles[i]))
    && (forall i :: 0 <= i < |tiles| ==> tiles[i].side == TileSide(n))
    && (forall i :: 0 <= i < |tiles| ==> (tiles[i].colour == Goal <==> i == n * n - 1))
    && EdgesIndexTiles(n, edges)
    && forall k :: 0 <= k < |edges| ==>
         tiles[n * n + k] == Connector(tiles[edges[k].from], tiles[edges[k].to], TileSide(n))
  }

  /** Indexing `path_squares` raises unless both ends of every edge name a
      tile that exists when the edge is processed. */
  predicate EdgesIndexTiles(n: nat, edges: seq<Edge>) {
    forall k :: 0 <= k < |edges| ==> edges[k].from < n * n + k && edges[k].to < n * n + k
  }

  lemma RealDistrib(a: real, b: real, c: real)
    ensures (a + b) * c == a * c + b * c
  {
  }

  /** The base tiles, laid out with running row and column counters as the
      source does: the column counter wraps to 0 and the row counter steps
      once `n` tiles have been placed. Tile `i` lands on cell `(i / n, i % n)`. */
  method BaseTiles(n: nat) returns (tiles: seq<Tile>)
    requires n >= 1
    ensures |tiles| == n * n
    ensures forall j :: 0 <= j < n * n ==> IsBaseTile(n, j, tiles[j]) && tiles[j].colour == Path
  {
    var total := n * n;
    var base, small := BaseSpacing(n), TileSide(n);
    tiles := [];
    var row: nat, column: nat := 0, 0;
    var i := 0;
    while i < total
      invariant 0 <= i <= total && |tiles| == i
      invariant column <= n && row * n + column == i
      invariant forall j :: 0 <= j < i ==> IsBaseTile(n, j, tiles[j]) && tiles[j].colour == Path
    {
      if column == n {
        Distrib(row, 1, n);
        column := 0;
        row := row + 1;
      }
      DivModUnique(i, n, row, column);
      tiles := tiles + [Tile(row as real * base + small, column as real * base + small, small, Path)];
      column := column + 1;
      i := i + 1;
    }
  }

  /** Builds the tiles as the source does: the base tiles, the goal colour on
      the last base tile, then one connector per edge. `None` stands for the
      `IndexError` raised when an edge names a tile that does not exist yet. */
  method CreateGrid(n: nat, edges: seq<Edge>) returns (r: Option<seq<Tile>>)
    requires n >= 1
    ensures r.Some? <==> EdgesIndexTiles(n, edges)
    ensures r.Some? ==> IsLayout(n, edges, r.value)
  {
    var total := n * n;
    var small := TileSide(n);
    var tiles := BaseTiles(n);
    // the last base tile is the goal
    tiles := tiles[total - 1 := tiles[total - 1].(colour := Goal)];
    var k := 0;
    while k < |edges|
      invariant 0 <= k <= |edges| && |tiles| == total + k
      invariant EdgesIndexTiles(n, edges[..k])
      invariant forall j :: 0 <= j < total ==> IsBaseTile(n, j, tiles[j])
      invariant forall j :: 0 <= j < |tiles| ==> tiles[j].side == small
      invariant forall j :: 0 <= j < |tiles| ==> (tiles[j].colour == Goal <==> j == total - 1)
      invariant forall j :: 0 <= j < k ==>
        tiles[total + j] == Connector(tiles[edges[j].from], tiles[edges[j].to], small)
    {
      var e := edges[k];
      if !(e.from < |tiles| && e.to < |tiles|) {
        r := None;
        return;
      }
      tiles := tiles + [Connector(tiles[e.from], tiles[e.to], small)];
      k := k + 1;
    }
    assert edges[..k] == edges;
    r := Some(tiles);
  }

  /** Two tiles of equal side touch edge to edge: aligned on one axis and
      exactly one side apart on the other. */
  predicate Abuts(a: Tile, b: Tile) {
    || (a.x == b.x && (b.y - a.y == a.side || a.y - b.y == a.side))
    || (a.y == b.y && (b.x - a.x == a.side || a.x - b.x == a.side))
  }

  /** The connector of two neighbouring cells fills the gap between their
      base tiles: it abuts both, so the corridor is one unbroken strip. */
  lemma ConnectorBridges(n: nat, u: int, v: int, a: Tile, b: Tile)
    requires n >= 1
    requires Adjacent(n, u, v)
    requires IsBaseTile(n, u, a) && IsBaseTile(n, v, b)
    ensures Abuts(a, Connector(a, b, TileSide(n)))
    ensures Abuts(b, Connector(a, b, TileSide(n)))
  {
    var base, small := BaseSpacing(n), TileSide(n);
    assert base == 2.0 * small;
    var ru, rv := Row(n, u) as real, Row(n, v) as real;
    var cu, cv := Col(n, u) as real, Col(n, v) as real;
    if Row(n, u) == Row(n, v) {
      if Col(n, v) == Col(n, u) + 1 {
        RealDistrib(cu, 1.0, base);
      } else {
        RealDistrib(cv, 1.0, base);
      }
    } else {
      if Row(n, v) == Row(n, u) + 1 {
        RealDistrib(ru, 1.0, base);
      } else {
        RealDistrib(rv, 1.0, base);
      }
    }
  }

  /** Every connector of a maze layout abuts the base tiles of both ends of
      its edge. */
  lemma MazeCorridors(n: nat, edges: seq<Edge>, tiles: seq<Tile>)
    requires n >= 1
    requires IsLayout(n, edges, tiles)
    requires forall k :: 0 <= k < |edges| ==> Adjacent(n, edges[k].from, edges[k].to)
    ensures forall k :: 0 <= k < |edges| ==>
      Abuts(tiles[edges[k].from], tiles[n * n + k]) && Abuts(tiles[edges[k].to], tiles[n * n + k])
  {
    forall k | 0 <= k < |edges|
      ensures Abuts(tiles[edges[k].from], tiles[n * n + k]) && Abuts(tiles[edges[k].to], tiles[n * n + k])
    {
      var e := edges[k];
      ConnectorBridges(n, e.from, e.to, tiles[e.from], tiles[e.to]);
    }
  }
}
