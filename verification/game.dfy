/**
 * Setting up one level (`Game.__init__` and `Game.back_to_start`): build the
 * grid matrix, grow a random spanning tree, lay out the tiles and place the
 * player on the first tile.
 */
module Maze {
  import opened Grid
  import opened Adjacency
  import opened Prims
  import opened Wrappers
  import opened Layout
  import opened Movement

  /** A new level of side `n`: `2n^2 - 1` tiles (one per cell plus one per
      tree edge), the goal on the last cell only, every connector bridging
      two neighbouring cells, every cell joined to the first by tree edges,
      and the player standing on the first tile. */
  method NewGame(n: nat) returns (tiles: seq<Tile>, player: Body, edges: seq<Edge>)
    requires n >= 1
    ensures |edges| == n * n - 1
    ensures forall k :: 0 <= k < |edges| ==> Adjacent(n, edges[k].from, edges[k].to)
    ensures IsLayout(n, edges, tiles)
    ensures |tiles| == 2 * n * n - 1
    ensures forall i :: 0 <= i < |tiles| ==> (tiles[i].colour == Goal <==> i == n * n - 1)
    ensures forall k :: 0 <= k < |edges| ==>
      Abuts(tiles[edges[k].from], tiles[n * n + k]) && Abuts(tiles[edges[k].to], tiles[n * n + k])
    ensures forall v: nat :: v < n * n ==> ReachesRoot(edges, v)
    ensures player == StartBody(n, tiles[0])
    ensures n <= 281 ==> WithinTile(tiles[0], player.pos, player.width)
  {
    var grid := BuildMatrix(n);
    var visited, cleared;
    edges, visited, cleared := RandomPrims(n, grid);
    assert EdgesIndexTiles(n, edges) by {
      forall k | 0 <= k < |edges|
        ensures edges[k].from < n * n && edges[k].to < n * n
      {
        var j :| 0 <= j <= k && visited[j] == edges[k].to;
      }
    }
    forall v: nat | v < n * n
      ensures ReachesRoot(edges, v)
    {
      var p := MazeSpansGrid(n, edges, visited, v);
    }
    var laid := CreateGrid(n, edges);
    tiles := laid.value;
    MazeCorridors(n, edges, tiles);
    player := StartBody(n, tiles[0]);
    if n <= 281 {
      StartOnPath(n, tiles[0]);
    }
  }
}
