/**
 * Line of sight between two tiles: `Tile.hasLineOfSightTo`
 * (TileExtensions.kt) and `Projection.hasLineOfSight` (Projection.java).
 *
 * Both guard on floor, equality and distance, then walk the Bresenham line
 * from the source to the target and fail on the first tile whose collision
 * flag blocks movement in the walk's direction.  The collision map
 * (`collisionFlag`) and `CollisionFlags.checkFlag` are parameters.  The only
 * difference between the two is the full-block test: Projection.java returns
 * on it, while TileExtensions.kt evaluates it and discards the result.
 *
 * The walk is specified by its error recurrence: after i steps along the
 * major axis it has taken MinorSteps(i) steps along the minor axis, and the
 * lemmas show that this is the line rounded to the nearest tile with the
 * error term left in [0, major).
 */
module Sight {
  import opened Tiles

  /** The CollisionFlags bits the walk tests. */
  datatype FlagBit =
    | Solid | Blocked | Closed
    | EastWall | WestWall | NorthWall | SouthWall
    | NorthEast | SouthEast | NorthWest | SouthWest

  /** The collision map: `collisionFlag` at (x, y, plane), and `checkFlag(flag, bit)`. */
  datatype Collision = Collision(flagAt: (int, int, int) -> int, has: (int, FlagBit) -> bool)

  /** `Int.sign` in Kotlin, `Integer.compare(x1, x0)` in Java. */
  function Sign(v: int): int {
    if v > 0 then 1 else if v < 0 then -1 else 0
  }

  /** isBlockedFull: SOLID, BLOCKED or CLOSED. */
  predicate BlockedFull(c: Collision, flag: int) {
    c.has(flag, Solid) || c.has(flag, Blocked) || c.has(flag, Closed)
  }

  /**
   * isBlockedDirectional for a step (sx, sy): the wall on the side the walk
   * leaves by, or the corner it crosses; and the full block when `full` holds.
   */
  predicate BlockedDirectional(c: Collision, flag: int, sx: int, sy: int, full: bool) {
    (full && BlockedFull(c, flag)) ||
    (sx > 0 && c.has(flag, EastWall)) ||
    (sx < 0 && c.has(flag, WestWall)) ||
    (sy > 0 && c.has(flag, NorthWall)) ||
    (sy < 0 && c.has(flag, SouthWall)) ||
    (sx > 0 && sy > 0 && c.has(flag, NorthEast)) ||
    (sx > 0 && sy < 0 && c.has(flag, SouthEast)) ||
    (sx < 0 && sy > 0 && c.has(flag, NorthWest)) ||
    (sx < 0 && sy < 0 && c.has(flag, SouthWest))
  }

  // ---------------------------------------------------------------------
  // The Bresenham line

  /** The walk's progress along the minor axis: steps taken and the error term. */
  datatype Progress = Progress(steps: int, err: int)

  /**
   * The error walk over i major-axis steps: the error starts at major / 2,
   * drops by minor on every step and, whenever it goes negative, a minor-axis
   * step adds major back.
   */
  function Bres(i: nat, major: nat, minor: nat): Progress
    decreases i
  {
    if i == 0 then Progress(0, major / 2)
    else
      var p := Bres(i - 1, major, minor);
      if p.err - minor < 0 then Progress(p.steps + 1, p.err - minor + major)
      else Progress(p.steps, p.err - minor)
  }

  /** Minor-axis steps taken after i major-axis steps. */
  function MinorSteps(i: nat, major: nat, minor: nat): int {
    Bres(i, major, minor).steps
  }

  /** The error term always stays in [0, major). */
  lemma {:induction false} ErrInRange(i: nat, major: nat, minor: nat)
    requires 0 < major && minor <= major
    ensures 0 <= Bres(i, major, minor).err < major
  {
    if i > 0 {
      ErrInRange(i - 1, major, minor);
    }
  }

  /**
   * The minor coordinate is the line rounded to the nearest tile, halves
   * towards the start: (i·minor + major - 1 - major / 2) / major.
   */
  lemma {:induction false} Rounding(i: nat, major: nat, minor: nat)
    requires 0 < major && minor <= major
    ensures MinorSteps(i, major, minor) == (i * minor - major / 2 + major - 1) / major
  {
    RoundingRemainder(i, major, minor);
    ErrInRange(i, major, minor);
    var p := Bres(i, major, minor);
    DivMod(i * minor - major / 2 + major - 1, major, p.steps, major - 1 - p.err);
  }

  /** The error term is what the rounding leaves over. */
  lemma {:induction false} RoundingRemainder(i: nat, major: nat, minor: nat)
    requires 0 < major && minor <= major
    ensures var p := Bres(i, major, minor);
      p.steps * major + major / 2 - p.err == i * minor
  {
    if i > 0 {
      RoundingRemainder(i - 1, major, minor);
      var p := Bres(i - 1, major, minor);
      MulSucc(i - 1, minor);
      MulSucc(p.steps, major);
    }
  }

  /** The walk starts with no minor step and ends with all of them. */
  lemma MinorEnds(major: nat, minor: nat)
    requires 0 < major && minor <= major
    ensures MinorSteps(0, major, minor) == 0
    ensures MinorSteps(major, major, minor) == minor
  {
    Rounding(major, major, minor);
    var h := major - 1 - major / 2;
    assert major * minor - major / 2 + major - 1 == minor * major + h;
    DivMod(minor * major + h, major, minor, h);
  }

  /** On a perfect diagonal every step is also a minor step. */
  lemma {:induction false} Diagonal(i: nat, m: nat)
    requires m > 0
    ensures Bres(i, m, m) == Progress(i, m / 2)
  {
    if i > 0 {
      Diagonal(i - 1, m);
    }
  }

  function Steps(from: Tile, to: Tile): nat {
    Max(Abs(to.x - from.x), Abs(to.y - from.y))
  }

  /** k tiles in the direction of d: `sign(d) * k`. */
  function Toward(d: int, k: int): int {
    if d > 0 then k else if d < 0 then -k else 0
  }

  /** The i-th tile of the line from `from` to `to`, on from's floor. */
  function LinePoint(from: Tile, to: Tile, i: nat): Tile {
    var dx, dy := to.x - from.x, to.y - from.y;
    if dx == 0 && dy == 0 then from
    else if Abs(dx) >= Abs(dy) then
      Tile(from.x + Toward(dx, i), from.y + Toward(dy, MinorSteps(i, Abs(dx), Abs(dy))), from.floor)
    else
      Tile(from.x + Toward(dx, MinorSteps(i, Abs(dy), Abs(dx))), from.y + Toward(dy, i), from.floor)
  }

  /** The line runs from the source to the target's position in Steps king moves. */
  lemma LineEnds(from: Tile, to: Tile)
    ensures LinePoint(from, to, 0) == from
    ensures var e := LinePoint(from, to, Steps(from, to)); e.x == to.x && e.y == to.y
  {
    var dx, dy := to.x - from.x, to.y - from.y;
    if Abs(dx) >= Abs(dy) && dx != 0 {
      MinorEnds(Abs(dx), Abs(dy));
    } else if Abs(dy) > Abs(dx) {
      MinorEnds(Abs(dy), Abs(dx));
    }
  }

  /** Each step of the line is a king move: one tile along the major axis, at most one along the other. */
  lemma LineKingMoves(from: Tile, to: Tile, i: nat)
    requires from.x != to.x || from.y != to.y
    ensures Cheb(LinePoint(from, to, i), LinePoint(from, to, i + 1)) == 1
  {
    var dx, dy := to.x - from.x, to.y - from.y;
    if Abs(dx) >= Abs(dy) {
      assert Bres(i + 1, Abs(dx), Abs(dy)).steps - Bres(i, Abs(dx), Abs(dy)).steps in {0, 1};
    } else {
      assert Bres(i + 1, Abs(dy), Abs(dx)).steps - Bres(i, Abs(dy), Abs(dx)).steps in {0, 1};
    }
  }

  // ---------------------------------------------------------------------
  // The specification

  /** The line's i-th tile blocks the walk. */
  predicate BlockedOnLine(c: Collision, from: Tile, to: Tile, i: nat, full: bool) {
    BlockedAt(c, LinePoint(from, to, i), Sign(to.x - from.x), Sign(to.y - from.y), full)
  }

  /** The flag of tile p blocks a step (sx, sy). */
  predicate BlockedAt(c: Collision, p: Tile, sx: int, sy: int, full: bool) {
    BlockedDirectional(c, c.flagAt(p.x, p.y, p.floor), sx, sy, full)
  }

  /** No tile of the line, the source included, blocks. */
  predicate LineClear(c: Collision, from: Tile, to: Tile, full: bool) {
    forall i: nat :: i <= Steps(from, to) ==> !BlockedOnLine(c, from, to, i, full)
  }

  /** `sqrt(dx·dx + dy·dy) > maxTiles`, stated on integers. */
  predicate TooFar(dx: int, dy: int, maxTiles: int) {
    maxTiles < 0 || dx * dx + dy * dy > maxTiles * maxTiles
  }

  /** What both line-of-sight functions compute once the arguments are tiles. */
  predicate SightSpec(c: Collision, from: Tile, to: Tile, maxTiles: int, full: bool) {
    if from.floor != to.floor then false
    else if from == to then true
    else if TooFar(to.x - from.x, to.y - from.y, maxTiles) then false
    else LineClear(c, from, to, full)
  }

  // ---------------------------------------------------------------------
  // The walk

  /** The tiles 0 .. i of the line are clear, as the walk checks them one by one. */
  predicate ClearUpTo(c: Collision, from: Tile, to: Tile, full: bool, i: nat)
    decreases i
  {
    !BlockedOnLine(c, from, to, i, full) && (i == 0 || ClearUpTo(c, from, to, full, i - 1))
  }

  /** A clear line stays clear on every prefix. */
  lemma {:induction false} ClearUpToPrefix(c: Collision, from: Tile, to: Tile, full: bool, i: nat, j: nat)
    requires i <= j
    ensures ClearUpTo(c, from, to, full, j) ==> ClearUpTo(c, from, to, full, i)
    decreases j
  {
    if i < j {
      ClearUpToPrefix(c, from, to, full, i, j - 1);
    }
  }

  /** Checking the tiles one by one is checking all of them. */
  lemma {:induction false} ClearUpToAll(c: Collision, from: Tile, to: Tile, full: bool, i: nat)
    ensures ClearUpTo(c, from, to, full, i) <==> forall j: nat :: j <= i ==> !BlockedOnLine(c, from, to, j, full)
  {
    if i > 0 {
      ClearUpToAll(c, from, to, full, i - 1);
    }
  }

  /** The Bresenham traversal, from the start flag check to `return true`. */
  method Walk(c: Collision, from: Tile, to: Tile, full: bool) returns (clear: bool)
    ensures clear == LineClear(c, from, to, full)
  {
    var dx, dy := to.x - from.x, to.y - from.y;
    var absDx, absDy := Abs(dx), Abs(dy);
    var sx, sy := Sign(dx), Sign(dy);
    LineEnds(from, to);

    var startFlag := c.flagAt(from.x, from.y, from.floor);
    if BlockedDirectional(c, startFlag, sx, sy, full) {
      assert BlockedOnLine(c, from, to, 0, full);
      return false;
    }
    ClearUpToAll(c, from, to, full, Steps(from, to));
    if absDx > absDy {
      clear := WalkAlongX(c, from, to, full);
    } else if absDy > absDx {
      clear := WalkAlongY(c, from, to, full);
    } else {
      clear := WalkDiagonal(c, from, to, full);
    }
  }

  /** One x-major iteration: one tile along x and, when the error term goes negative, one along y. */
  lemma StepAlongX(from: Tile, to: Tile, i: nat)
    requires Abs(to.x - from.x) > Abs(to.y - from.y)
    ensures var dx, dy := to.x - from.x, to.y - from.y;
      var p, q := LinePoint(from, to, i), LinePoint(from, to, i + 1);
      var e := Bres(i, Abs(dx), Abs(dy)).err - Abs(dy);
      q.x == p.x + Sign(dx) && q.floor == p.floor == from.floor &&
      if e < 0 then q.y == p.y + Sign(dy) && Bres(i + 1, Abs(dx), Abs(dy)).err == e + Abs(dx)
      else q.y == p.y && Bres(i + 1, Abs(dx), Abs(dy)).err == e
  {
  }

  /** One y-major iteration: one tile along y and, when the error term goes negative, one along x. */
  lemma StepAlongY(from: Tile, to: Tile, i: nat)
    requires Abs(to.y - from.y) > Abs(to.x - from.x)
    ensures var dx, dy := to.x - from.x, to.y - from.y;
      var p, q := LinePoint(from, to, i), LinePoint(from, to, i + 1);
      var e := Bres(i, Abs(dy), Abs(dx)).err - Abs(dx);
      q.y == p.y + Sign(dy) && q.floor == p.floor == from.floor &&
      if e < 0 then q.x == p.x + Sign(dx) && Bres(i + 1, Abs(dy), Abs(dx)).err == e + Abs(dy)
      else q.x == p.x && Bres(i + 1, Abs(dy), Abs(dx)).err == e
  {
  }

  /** The perfect diagonal: the i-th tile is i steps along both axes. */
  lemma DiagonalPoints(from: Tile, to: Tile, i: nat)
    requires Abs(to.x - from.x) == Abs(to.y - from.y)
    ensures var p := LinePoint(from, to, i);
      p == Tile(from.x + Toward(to.x - from.x, i), from.y + Toward(to.y - from.y, i), from.floor)
  {
    if to.x != from.x {
      Diagonal(i, Abs(to.x - from.x));
    }
  }

  /** The x-major loop: one x step per iteration, a y step when the error term goes negative. */
  method WalkAlongX(c: Collision, from: Tile, to: Tile, full: bool) returns (clear: bool)
    requires Abs(to.x - from.x) > Abs(to.y - from.y)
    requires !BlockedOnLine(c, from, to, 0, full)
    ensures clear == ClearUpTo(c, from, to, full, Steps(from, to))
  {
    var plane := from.floor;
    var curX, curY := from.x, from.y;
    var absDx, absDy := Abs(to.x - from.x), Abs(to.y - from.y);
    var sx, sy := Sign(to.x - from.x), Sign(to.y - from.y);
    MinorEnds(absDx, absDy);
    var err: int := absDx / 2;
    ghost var i: nat := 0;
    while curX != to.x
      invariant i <= absDx
      invariant Tile(curX, curY, plane) == LinePoint(from, to, i)
      invariant err == Bres(i, absDx, absDy).err
      invariant ClearUpTo(c, from, to, full, i)
      decreases absDx - i
    {
      StepAlongX(from, to, i);
      curX := curX + sx;
      err := err - absDy;
      if err < 0 {
        curY := curY + sy;
        err := err + absDx;
      }
      i := i + 1;
      assert LinePoint(from, to, i) == Tile(curX, curY, plane);
      var flag := c.flagAt(curX, curY, plane);
      if BlockedDirectional(c, flag, sx, sy, full) {
        assert BlockedOnLine(c, from, to, i, full);
        ClearUpToPrefix(c, from, to, full, i, Steps(from, to));
        return false;
      }
      assert !BlockedOnLine(c, from, to, i, full);
    }
    assert curX == from.x + Toward(to.x - from.x, i);
    assert i == absDx == Steps(from, to);
    return true;
  }

  /** The y-major loop, with the axes exchanged. */
  method WalkAlongY(c: Collision, from: Tile, to: Tile, full: bool) returns (clear: bool)
    requires Abs(to.y - from.y) > Abs(to.x - from.x)
    requires !BlockedOnLine(c, from, to, 0, full)
    ensures clear == ClearUpTo(c, from, to, full, Steps(from, to))
  {
    var plane := from.floor;
    var curX, curY := from.x, from.y;
    var absDx, absDy := Abs(to.x - from.x), Abs(to.y - from.y);
    var sx, sy := Sign(to.x - from.x), Sign(to.y - from.y);
    MinorEnds(absDy, absDx);
    var err: int := absDy / 2;
    ghost var i: nat := 0;
    while curY != to.y
      invariant i <= absDy
      invariant Tile(curX, curY, plane) == LinePoint(from, to, i)
      invariant err == Bres(i, absDy, absDx).err
      invariant ClearUpTo(c, from, to, full, i)
      decreases absDy - i
    {
      StepAlongY(from, to, i);
      curY := curY + sy;
      err := err - absDx;
      if err < 0 {
        curX := curX + sx;
        err := err + absDy;
      }
      i := i + 1;
      assert LinePoint(from, to, i) == Tile(curX, curY, plane);
      var flag := c.flagAt(curX, curY, plane);
      if BlockedDirectional(c, flag, sx, sy, full) {
        assert BlockedOnLine(c, from, to, i, full);
        ClearUpToPrefix(c, from, to, full, i, Steps(from, to));
        return false;
      }
      assert !BlockedOnLine(c, from, to, i, full);
    }
    assert curY == from.y + Toward(to.y - from.y, i);
    assert i == absDy == Steps(from, to);
    return true;
  }

  /** The perfect diagonal: both coordinates step every iteration. */
  method WalkDiagonal(c: Collision, from: Tile, to: Tile, full: bool) returns (clear: bool)
    requires Abs(to.x - from.x) == Abs(to.y - from.y)
    requires !BlockedOnLine(c, from, to, 0, full)
    ensures clear == ClearUpTo(c, from, to, full, Steps(from, to))
  {
    var plane := from.floor;
    var curX, curY := from.x, from.y;
    var n := Abs(to.x - from.x);
    var sx, sy := Sign(to.x - from.x), Sign(to.y - from.y);
    ghost var i: nat := 0;
    while curX != to.x || curY != to.y
      invariant i <= n
      invariant curX == from.x + Toward(to.x - from.x, i) && curY == from.y + Toward(to.y - from.y, i)
      invariant ClearUpTo(c, from, to, full, i)
      decreases n - i
    {
      curX := curX + sx;
      curY := curY + sy;
      i := i + 1;
      DiagonalPoints(from, to, i);
      assert LinePoint(from, to, i) == Tile(curX, curY, plane);
      var flag := c.flagAt(curX, curY, plane);
      if BlockedDirectional(c, flag, sx, sy, full) {
        assert BlockedOnLine(c, from, to, i, full);
        ClearUpToPrefix(c, from, to, full, i, Steps(from, to));
        return false;
      }
      assert !BlockedOnLine(c, from, to, i, full);
    }
    return true;
  }

  /** The guards both functions share: floor, equality, distance cap. */
  method GuardedWalk(c: Collision, from: Tile, to: Tile, maxTiles: int, full: bool) returns (b: bool)
    ensures b == SightSpec(c, from, to, maxTiles, full)
  {
    if from.floor != to.floor {
      return false;
    }
    if from == to {
      return true;
    }
    var dx, dy := to.x - from.x, to.y - from.y;
    if TooFar(dx, dy, maxTiles) {
      return false;
    }
    b := Walk(c, from, to, full);
  }

  // ---------------------------------------------------------------------
  // TileExtensions.kt

  const KotlinDefaultMaxTiles := 32

  /**
   * Tile.hasLineOfSightTo (TileExtensions.kt:37-118) as written: the
   * full-block test on line 61 is a discarded expression, so only the
   * directional walls and corners block.
   */
  method HasLineOfSightTo(c: Collision, from: Tile, to: Tile, maxTiles: int) returns (b: bool)
    ensures b == SightSpec(c, from, to, maxTiles, false)
  {
    b := GuardedWalk(c, from, to, maxTiles, false);
  }

  /** hasLineOfSightTo with the evidently intended `return true` on a full block. */
  method HasLineOfSightToCorrected(c: Collision, from: Tile, to: Tile, maxTiles: int) returns (b: bool)
    ensures b == SightSpec(c, from, to, maxTiles, true)
  {
    b := GuardedWalk(c, from, to, maxTiles, true);
  }

  // ---------------------------------------------------------------------
  // Projection.java

  /** An actor, seen through its `trueTile()`. */
  datatype Actor = Actor(trueTile: Tile)

  const JavaDefaultMaxTiles := 64

  /** hasLineOfSight(Tile, Tile, int) (Projection.java:29-145); `None` is null. */
  method HasLineOfSight(c: Collision, from: Option<Tile>, to: Option<Tile>, maxTiles: int) returns (b: bool)
    ensures from.None? || to.None? ==> !b
    ensures from.Some? && to.Some? ==> b == SightSpec(c, from.value, to.value, maxTiles, true)
  {
    if from.None? || to.None? {
      return false;
    }
    b := GuardedWalk(c, from.value, to.value, maxTiles, true);
  }

  /** hasLineOfSight(Actor, Actor, int) (Projection.java:15-23). */
  method ActorsHaveLineOfSight(c: Collision, source: Option<Actor>, target: Option<Actor>, maxTiles: int) returns (b: bool)
    ensures source.None? || target.None? ==> !b
    ensures source.Some? && target.Some? ==>
      b == SightSpec(c, source.value.trueTile, target.value.trueTile, maxTiles, true)
  {
    if source.None? || target.None? {
      return false;
    }
    b := HasLineOfSight(c, Some(source.value.trueTile), Some(target.value.trueTile), maxTiles);
  }

  /** hasLineOfSight(Actor, Actor) (Projection.java:25-27): a cap of 64 tiles. */
  method ActorsHaveLineOfSightNear(c: Collision, source: Option<Actor>, target: Option<Actor>) returns (b: bool)
    ensures source.None? || target.None? ==> !b
    ensures source.Some? && target.Some? ==>
      b == SightSpec(c, source.value.trueTile, target.value.trueTile, JavaDefaultMaxTiles, true)
  {
    b := ActorsHaveLineOfSight(c, source, target, JavaDefaultMaxTiles);
  }

  // ---------------------------------------------------------------------
  // Properties

  /** A fully blocked tile on the line, the target included, stops Projection's walk. */
  lemma FullBlockStops(c: Collision, from: Tile, to: Tile, maxTiles: int, i: nat)
    requires from != to && i <= Steps(from, to)
    requires var p := LinePoint(from, to, i); BlockedFull(c, c.flagAt(p.x, p.y, from.floor))
    ensures !SightSpec(c, from, to, maxTiles, true)
  {
    assert BlockedOnLine(c, from, to, i, true);
  }

  /** Wherever Projection sees, hasLineOfSightTo sees too: it only ignores more flags. */
  lemma ExtensionSeesAtLeast(c: Collision, from: Tile, to: Tile, maxTiles: int)
    ensures SightSpec(c, from, to, maxTiles, true) ==> SightSpec(c, from, to, maxTiles, false)
  {
    if LineClear(c, from, to, true) {
      forall i: nat | i <= Steps(from, to) ensures !BlockedOnLine(c, from, to, i, false) {
        assert !BlockedOnLine(c, from, to, i, true);
      }
    }
  }

  /** A wall or corner on the walk's side of the source tile blocks, whatever the target. */
  lemma BlockedStart(c: Collision, from: Tile, to: Tile, maxTiles: int, full: bool)
    requires from != to
    requires BlockedDirectional(c, c.flagAt(from.x, from.y, from.floor), Sign(to.x - from.x), Sign(to.y - from.y), full)
    ensures !SightSpec(c, from, to, maxTiles, full)
  {
    LineEnds(from, to);
    assert BlockedOnLine(c, from, to, 0, full);
  }

  /** With no flag set anywhere, sight is exactly: same floor, and within the distance cap or the same tile. */
  lemma OpenField(c: Collision, from: Tile, to: Tile, maxTiles: int, full: bool)
    requires forall flag: int, bit: FlagBit :: !c.has(flag, bit)
    ensures SightSpec(c, from, to, maxTiles, full) <==>
      from.floor == to.floor && (from == to || !TooFar(to.x - from.x, to.y - from.y, maxTiles))
  {
    forall i: nat | i <= Steps(from, to) ensures !BlockedOnLine(c, from, to, i, full) {
      var p := LinePoint(from, to, i);
      var flag := c.flagAt(p.x, p.y, from.floor);
      assert !BlockedFull(c, flag);
    }
  }

  /** A negative cap hides every tile but the source itself. */
  lemma NegativeCap(c: Collision, from: Tile, to: Tile, maxTiles: int, full: bool)
    requires maxTiles < 0
    ensures SightSpec(c, from, to, maxTiles, full) <==> from == to
  {
  }

  /** The line to the east neighbour visits the source and the target only. */
  lemma EastNeighbour(c: Collision, from: Tile, maxTiles: int, full: bool)
    requires maxTiles >= 1
    ensures var to := Tile(from.x + 1, from.y, from.floor);
      SightSpec(c, from, to, maxTiles, full) <==>
        !BlockedDirectional(c, c.flagAt(from.x, from.y, from.floor), 1, 0, full) &&
        !BlockedDirectional(c, c.flagAt(from.x + 1, from.y, from.floor), 1, 0, full)
  {
    var to := Tile(from.x + 1, from.y, from.floor);
    assert Steps(from, to) == 1;
    assert MinorSteps(0, 1, 0) == 0 && MinorSteps(1, 1, 0) == 0;
    assert LinePoint(from, to, 0) == from;
    assert LinePoint(from, to, 1) == to;
    if LineClear(c, from, to, full) {
      assert !BlockedOnLine(c, from, to, 0, full) && !BlockedOnLine(c, from, to, 1, full);
    } else {
      var i: nat :| i <= 1 && BlockedOnLine(c, from, to, i, full);
      assert i == 0 || i == 1;
    }
  }

  /**
   * The discarded full-block test: a SOLID tile right next to the source
   * stops Projection's walk, and hasLineOfSightTo sees through it.
   */
  lemma SolidIgnored()
    ensures SightSpec(SolidAtOne(), Tile(0, 0, 0), Tile(1, 0, 0), KotlinDefaultMaxTiles, false)
    ensures !SightSpec(SolidAtOne(), Tile(0, 0, 0), Tile(1, 0, 0), KotlinDefaultMaxTiles, true)
  {
    var c := SolidAtOne();
    EastNeighbour(c, Tile(0, 0, 0), KotlinDefaultMaxTiles, false);
    EastNeighbour(c, Tile(0, 0, 0), KotlinDefaultMaxTiles, true);
  }

  /** A collision map with only SOLID set, on the column x = 1. */
  function SolidAtOne(): (c: Collision)
    ensures c.flagAt(0, 0, 0) == 0 && c.flagAt(1, 0, 0) == 1
    ensures forall bit :: !c.has(0, bit) && (c.has(1, bit) <==> bit == Solid)
  {
    Collision((x: int, y: int, z: int) => if x == 1 then 1 else 0, (flag: int, bit: FlagBit) => flag == 1 && bit == Solid)
  }
}
