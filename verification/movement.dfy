/**
 * Per-axis collision resolution of the player (`Player.move`,
 * `Player.gen_corners`) and the player's start position.
 *
 * The player is a square body of side `width` with top-left corner `pos`.
 * Its hitbox corners are inset by a margin of 1. A move to `next` is split
 * per axis: the candidate x is tested at `(next.x, pos.y)` and the
 * candidate y at `(pos.x, next.y)`, both from the ORIGINAL position, and an
 * axis is committed only when each of the four inset corners lies in some
 * tile. The displacement `next` is an input; how it is derived from the
 * keys, the velocity and the frame time is not part of this model.
 *
 * Point-in-tile is the half-open test `x <= px < x + side` on each axis.
 */
module Movement {
  import opened Layout

  datatype Point = Point(x: real, y: real)

  /** The player: top-left corner and side. */
  datatype Body = Body(pos: Point, width: real)

  /** Inset of the hitbox corners (`collide_margin`). */
  const CollideMargin: real := 1.0

  predicate InTile(t: Tile, p: Point) {
    t.x <= p.x < t.x + t.side && t.y <= p.y < t.y + t.side
  }

  /** The four inset corners of a body of side `width` at `at`, in the order
      the source lists them. */
  function Corners(at: Point, width: real): (r: seq<Point>)
    ensures |r| == 4
  {
    var near, far := CollideMargin, width - CollideMargin;
    [ Point(at.x + far, at.y + near), Point(at.x + near, at.y + near),
      Point(at.x + near, at.y + far), Point(at.x + far, at.y + far) ]
  }

  /** Some tile among the first `count` contains `p`. */
  predicate CoveredUpTo(tiles: seq<Tile>, count: nat, p: Point)
    requires count <= |tiles|
  {
    count > 0 && (CoveredUpTo(tiles, count - 1, p) || InTile(tiles[count - 1], p))
  }

  /** Some tile contains `p`. */
  predicate OnPath(tiles: seq<Tile>, p: Point) {
    exists i :: 0 <= i < |tiles| && InTile(tiles[i], p)
  }

  lemma {:induction false} CoveredUpToMeansSomeTile(tiles: seq<Tile>, count: nat, p: Point)
    requires count <= |tiles|
    ensures CoveredUpTo(tiles, count, p) <==> exists i :: 0 <= i < count && InTile(tiles[i], p)
  {
    if count > 0 {
      CoveredUpToMeansSomeTile(tiles, count - 1, p);
    }
  }

  /** Each of the four inset corners of a body at `at` lies in some tile. */
  predicate FitsAt(tiles: seq<Tile>, at: Point, width: real) {
    forall c :: 0 <= c < 4 ==> OnPath(tiles, Corners(at, width)[c])
  }

  /** The intended outcome of one move: each axis independently. */
  function Resolve(tiles: seq<Tile>, body: Body, next: Point): Body {
    var x := if FitsAt(tiles, Point(next.x, body.pos.y), body.width) then next.x else body.pos.x;
    var y := if FitsAt(tiles, Point(body.pos.x, next.y), body.width) then next.y else body.pos.y;
    Body(Point(x, y), body.width)
  }

  const AllTrue: seq<bool> := [true, true, true, true]

  /** What the scan over the first `count` tiles has established for one
      axis: `on[c]` records that corner `c` was found in a tile, and the
      axis is complete exactly when all four were. Once complete, the flags
      stop changing. */
  predicate ScanState(tiles: seq<Tile>, count: nat, corners: seq<Point>, on: seq<bool>, done: bool)
    requires count <= |tiles|
  {
    && |corners| == 4 && |on| == 4
    && (done <==> on == AllTrue)
    && (forall c :: 0 <= c < 4 && on[c] ==> CoveredUpTo(tiles, count, corners[c]))
    && (!done ==> forall c :: 0 <= c < 4 && CoveredUpTo(tiles, count, corners[c]) ==> on[c])
  }

  /** What the scan has established for one axis part-way through tile `i`,
      after its first `c` corners were tried against that tile. */
  predicate TileScan(tiles: seq<Tile>, i: nat, c: nat, corners: seq<Point>, on: seq<bool>, done: bool)
    requires i < |tiles|
  {
    && |corners| == 4 && |on| == 4
    && (done <==> on == AllTrue)
    && (forall j :: 0 <= j < 4 && on[j] ==> CoveredUpTo(tiles, i + 1, corners[j]))
    && (!done ==> forall j :: 0 <= j < 4 ==>
          (CoveredUpTo(tiles, i, corners[j]) || (j < c && InTile(tiles[i], corners[j]))) ==> on[j])
  }

  /** One corner test of one axis inside the scan: unless the axis is already
      complete, record whether corner `c` lies in tile `i`, and mark the axis
      complete once all four corners have been found. */
  method TryCorner(tiles: seq<Tile>, i: nat, c: nat, corners: seq<Point>, on: seq<bool>, done: bool)
    returns (on': seq<bool>, done': bool)
    requires i < |tiles| && c < 4
    requires TileScan(tiles, i, c, corners, on, done)
    ensures TileScan(tiles, i, c + 1, corners, on', done')
    ensures done ==> on' == on && done'
  {
    on', done' := on, done;
    if !done {
      if InTile(tiles[i], corners[c]) {
        on' := on'[c := true];
      }
      if on' == AllTrue {
        done' := true;
      }
    }
  }

  /** `Player.move` with the early-exit flags of the source. Commits x iff the
      body fits at `(next.x, pos.y)` and y iff it fits at `(pos.x, next.y)`. */
  method Move(tiles: seq<Tile>, body: Body, next: Point) returns (moved: Body)
    ensures moved.width == body.width
    ensures moved.pos.x == (if FitsAt(tiles, Point(next.x, body.pos.y), body.width) then next.x else body.pos.x)
    ensures moved.pos.y == (if FitsAt(tiles, Point(body.pos.x, next.y), body.width) then next.y else body.pos.y)
    ensures moved == Resolve(tiles, body, next)
  {
    var cornersX := Corners(Point(next.x, body.pos.y), body.width);
    var cornersY := Corners(Point(body.pos.x, next.y), body.width);
    var onX, onY := [false, false, false, false], [false, false, false, false];
    var xDone, yDone := false, false;
    var i := 0;
    while i < |tiles|
      invariant 0 <= i <= |tiles|
      invariant ScanState(tiles, i, cornersX, onX, xDone)
      invariant ScanState(tiles, i, cornersY, onY, yDone)
    {
      var c := 0;
      while c < 4
        invariant 0 <= c <= 4
        invariant TileScan(tiles, i, c, cornersX, onX, xDone)
        invariant TileScan(tiles, i, c, cornersY, onY, yDone)
      {
        onX, xDone := TryCorner(tiles, i, c, cornersX, onX, xDone);
        onY, yDone := TryCorner(tiles, i, c, cornersY, onY, yDone);
        c := c + 1;
      }
      i := i + 1;
    }
    forall j | 0 <= j < 4
      ensures CoveredUpTo(tiles, |tiles|, cornersX[j]) <==> OnPath(tiles, cornersX[j])
      ensures CoveredUpTo(tiles, |tiles|, cornersY[j]) <==> OnPath(tiles, cornersY[j])
    {
      CoveredUpToMeansSomeTile(tiles, |tiles|, cornersX[j]);
      CoveredUpToMeansSomeTile(tiles, |tiles|, cornersY[j]);
    }
    var pos := body.pos;
    if xDone {
      pos := Point(next.x, pos.y);
    }
    if yDone {
      pos := Point(pos.x, next.y);
    }
    moved := Body(pos, body.width);
  }

  /** With no displacement the body does not move, whatever the tiles. */
  lemma StandingStill(tiles: seq<Tile>, body: Body)
    ensures Resolve(tiles, body, body.pos) == body
  {
  }

  /** Successive moves towards `targets[0]`, `targets[1]`, ..., one per frame. */
  function MoveMany(tiles: seq<Tile>, body: Body, targets: seq<Point>): Body
    decreases |targets|
  {
    if |targets| == 0 then body
    else MoveMany(tiles, Resolve(tiles, body, targets[0]), targets[1..])
  }

  /** Any number of frames with zero input leave the body where it is. */
  lemma {:induction false} NoInputNoDrift(tiles: seq<Tile>, body: Body, targets: seq<Point>)
    requires forall i :: 0 <= i < |targets| ==> targets[i] == body.pos
    ensures MoveMany(tiles, body, targets) == body
  {
    if |targets| > 0 {
      StandingStill(tiles, body);
      NoInputNoDrift(tiles, body, targets[1..]);
    }
  }

  /** When exactly one axis commits, the body ends where that axis was
      tested, so its four inset corners lie on the path. */
  lemma SingleAxisStaysOnPath(tiles: seq<Tile>, body: Body, next: Point)
    requires FitsAt(tiles, Point(next.x, body.pos.y), body.width)
             != FitsAt(tiles, Point(body.pos.x, next.y), body.width)
    ensures FitsAt(tiles, Resolve(tiles, body, next).pos, body.width)
  {
  }

  /** Sliding along a wall: a blocked axis keeps its coordinate while the
      open axis moves in the same call. */
  lemma BlockedAxisSlides(tiles: seq<Tile>, body: Body, next: Point)
    requires !FitsAt(tiles, Point(next.x, body.pos.y), body.width)
    requires FitsAt(tiles, Point(body.pos.x, next.y), body.width)
    ensures Resolve(tiles, body, next).pos == Point(body.pos.x, next.y)
  {
  }

  /** All four inset corners of a body at `at` lie in the one tile `t`. */
  predicate WithinTile(t: Tile, at: Point, width: real) {
    forall c :: 0 <= c < 4 ==> InTile(t, Corners(at, width)[c])
  }

  /** A move that starts and ends with the hitbox inside one tile commits
      the full displacement on both axes and stays inside that tile: tiles
      are convex, so both one-axis test positions lie in it as well. */
  lemma MoveWithinTile(tiles: seq<Tile>, k: nat, body: Body, next: Point)
    requires k < |tiles|
    requires WithinTile(tiles[k], body.pos, body.width)
    requires WithinTile(tiles[k], next, body.width)
    ensures Resolve(tiles, body, next) == Body(next, body.width)
    ensures WithinTile(tiles[k], Resolve(tiles, body, next).pos, body.width)
  {
    var t, w := tiles[k], body.width;
    var cp, cn := Corners(body.pos, w), Corners(next, w);
    var cx, cy := Corners(Point(next.x, body.pos.y), w), Corners(Point(body.pos.x, next.y), w);
    assert InTile(t, cp[1]) && InTile(t, cp[3]) && InTile(t, cn[1]) && InTile(t, cn[3]);
    forall c | 0 <= c < 4
      ensures InTile(t, cx[c]) && InTile(t, cy[c])
    {
    }
    forall c | 0 <= c < 4
      ensures OnPath(tiles, cx[c]) && OnPath(tiles, cy[c])
    {
      assert InTile(tiles[k], cx[c]) && InTile(tiles[k], cy[c]);
    }
  }

  /** The player created at the start of a level (or by a restart): a body a
      quarter of a tile wide, centred in the first tile. */
  function StartBody(n: nat, first: Tile): Body
    requires n >= 1
  {
    var width := TileSide(n) / 4.0;
    Body(Point(first.x + (TileSide(n) - width) / 2.0, first.y + (TileSide(n) - width) / 2.0), width)
  }

  lemma TileSideBound(n: nat)
    requires 1 <= n <= 281
    ensures TileSide(n) > 1.6
  {
  }

  /** The start body's inset corners all lie in the first tile, so the
      player starts on the path (for every grid up to side 281, which
      covers the sides 5, 10 and 15 the game offers). */
  lemma StartOnPath(n: nat, first: Tile)
    requires 1 <= n <= 281
    requires first.side == TileSide(n)
    ensures WithinTile(first, StartBody(n, first).pos, StartBody(n, first).width)
  {
    TileSideBound(n);
  }

  /** Beyond side 281 the tile is too small for the start body: the near
      inset corner lies at or past the tile's far edge, so the bound of
      `StartOnPath` is exact. */
  lemma StartOffPath(n: nat, first: Tile)
    requires n >= 282
    requires first.side == TileSide(n)
    ensures !WithinTile(first, StartBody(n, first).pos, StartBody(n, first).width)
  {
    var nr := n as real;
    assert nr * TileSide(n) == 450.0;
    assert TileSide(n) < 1.6;
    var b := StartBody(n, first);
    assert !InTile(first, Corners(b.pos, b.width)[1]);
  }
}
