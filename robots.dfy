/** The room and robot bookkeeping of PS6/robots.py: a table of clean and
    dirty tiles updated in place, its counts, the in-room test, and one
    time step of the two movement strategies with the candidate next
    position and the random direction supplied by the caller. */
module Robots {
  import opened Wrappers

  /** A point of the room; the source uses floats, the model exact reals. */
  datatype Position = Position(x: real, y: real)

  /** A tile is named by the integer coordinates of its corner. */
  type Tile = (int, int)

  /** Python's `int(r)` on a float: truncation toward zero. */
  function Trunc(r: real): (n: int)
    ensures 0.0 <= r ==> n as real <= r < n as real + 1.0
    ensures r < 0.0 ==> r <= n as real < r + 1.0
  {
    if r >= 0.0 then r.Floor else -((-r).Floor)
  }

  /** The tile under a position. */
  function TileOf(pos: Position): Tile {
    (Trunc(pos.x), Trunc(pos.y))
  }

  /** The tiles of a `width` by `height` room, as the constructor's nested
      `range` loops produce them. */
  function Grid(width: int, height: int): set<Tile> {
    set x: int, y: int | 0 <= x < width && 0 <= y < height :: (x, y)
  }

  /** `isPositionInRoom`. */
  predicate InRoom(width: int, height: int, pos: Position) {
    0.0 <= pos.x < width as real && 0.0 <= pos.y < height as real
  }

  /** The table after `cleanTileAtPosition(pos)`. */
  function Cleaned(tiles: map<Tile, bool>, pos: Position): map<Tile, bool> {
    tiles[TileOf(pos) := true]
  }

  /** The tiles whose stored state is clean. */
  function CleanTiles(tiles: map<Tile, bool>): set<Tile> {
    set t | t in tiles && tiles[t]
  }

  // ---------------------------------------------------------------------
  // Properties of the tile table

  lemma GridColumn(x: int, height: int)
    requires 0 <= x
    ensures Grid(x, height) + (set y | 0 <= y < height :: (x, y)) == Grid(x + 1, height)
    ensures Grid(x, height) !! (set y | 0 <= y < height :: (x, y))
  {
  }

  lemma {:induction false} ColumnSize(x: int, height: nat)
    ensures |set y | 0 <= y < height :: (x, y)| == height
  {
    if height > 0 {
      ColumnSize(x, height - 1);
      assert (set y | 0 <= y < height :: (x, y)) ==
             (set y | 0 <= y < height - 1 :: (x, y)) + {(x, height - 1)};
    }
  }

  /** A room has width times height tiles, and none when a side is not positive. */
  lemma {:induction false} GridSize(width: int, height: int)
    ensures |Grid(width, height)| == if width <= 0 || height <= 0 then 0 else width * height
    decreases if width < 0 then 0 else width
  {
    if 0 < width && 0 < height {
      GridSize(width - 1, height);
      GridColumn(width - 1, height);
      ColumnSize(width - 1, height);
      assert |Grid(width, height)| == |Grid(width - 1, height)| + height;
      OneMoreColumn(width - 1, height);
    }
  }

  lemma OneMoreColumn(w: int, h: int)
    ensures (w + 1) * h == w * h + h
  {
  }

  /** An in-room position lies on one of the room's tiles. */
  lemma InRoomTile(width: int, height: int, pos: Position)
    requires InRoom(width, height, pos)
    ensures TileOf(pos) in Grid(width, height)
  {
    var (x, y) := TileOf(pos);
    assert 0 <= x < width && 0 <= y < height;
  }

  /** Cleaning sets the one tile under the position and leaves every other
      entry as it was. */
  lemma CleanedChangesOneTile(tiles: map<Tile, bool>, pos: Position, t: Tile)
    ensures TileOf(pos) in CleanTiles(Cleaned(tiles, pos))
    ensures t != TileOf(pos) ==> (t in Cleaned(tiles, pos) <==> t in tiles)
    ensures t != TileOf(pos) && t in tiles ==> Cleaned(tiles, pos)[t] == tiles[t]
  {
  }

  /** Cleaning the same position twice is cleaning it once. */
  lemma CleanIdempotent(tiles: map<Tile, bool>, pos: Position)
    ensures Cleaned(Cleaned(tiles, pos), pos) == Cleaned(tiles, pos)
  {
  }

  /** Cleaning a position inside the room keeps the room's set of tiles. */
  lemma InRoomCleanKeepsTiles(width: int, height: int, tiles: map<Tile, bool>, pos: Position)
    requires tiles.Keys == Grid(width, height) && InRoom(width, height, pos)
    ensures Cleaned(tiles, pos).Keys == Grid(width, height)
  {
    InRoomTile(width, height, pos);
  }

  /** The clean count never exceeds the number of tiles. */
  lemma CleanCountBounded(tiles: map<Tile, bool>)
    ensures |CleanTiles(tiles)| <= |tiles|
  {
    SubsetSize(CleanTiles(tiles), tiles.Keys);
  }

  lemma {:induction false} SubsetSize<T>(a: set<T>, b: set<T>)
    requires a <= b
    ensures |a| <= |b|
    decreases |b|
  {
    if a != {} {
      var x :| x in a;
      SubsetSize(a - {x}, b - {x});
    }
  }

  /** Cleaning a tile of the table adds it to the clean tiles and changes
      nothing else: the count grows by one when that tile was dirty and
      stays when it was already clean. */
  lemma CleanCountStep(tiles: map<Tile, bool>, pos: Position)
    requires TileOf(pos) in tiles
    ensures CleanTiles(Cleaned(tiles, pos)) == CleanTiles(tiles) + {TileOf(pos)}
    ensures |CleanTiles(Cleaned(tiles, pos))| == |CleanTiles(tiles)| + (if tiles[TileOf(pos)] then 0 else 1)
  {
    var t := TileOf(pos);
    assert CleanTiles(Cleaned(tiles, pos)) == CleanTiles(tiles) + {t};
    if tiles[t] {
      assert CleanTiles(tiles) + {t} == CleanTiles(tiles);
    }
  }

  // ---------------------------------------------------------------------
  // Start positions

  /** Python 2's `round(r, 1)`: to the nearest tenth, halves away from zero. */
  function Round1(r: real): real {
    if r >= 0.0 then ((r * 10.0 + 0.5).Floor as real) / 10.0
    else -((((-r) * 10.0 + 0.5).Floor as real) / 10.0)
  }

  /** `getRandomPosition` as written, given the two draws of
      `random.uniform(0, width)` and `random.uniform(0, height)`. */
  function RandomPosition(u: real, v: real): Position {
    Position(Round1(u), Round1(v))
  }

  /** A draw just below the width rounds up onto the far wall: the position
      is outside the room, and cleaning it adds a tile the room never had. */
  lemma RoundedStartLeavesRoom(width: int, height: int, tiles: map<Tile, bool>)
    requires 1 <= width && 1 <= height && tiles.Keys == Grid(width, height)
    ensures var pos := RandomPosition(width as real - 0.01, 0.0);
            !InRoom(width, height, pos) &&
            |Cleaned(tiles, pos)| == width * height + 1
  {
    var u := width as real - 0.01;
    var f := (u * 10.0 + 0.5).Floor;
    assert f == 10 * width;
    var pos := RandomPosition(u, 0.0);
    assert pos.x == width as real;
    assert TileOf(pos) == (width, 0);
    assert TileOf(pos) !in tiles;
    GridSize(width, height);
  }

  /** `r` rounded down to a tenth. */
  function Floor1(r: real): real {
    ((r * 10.0).Floor as real) / 10.0
  }

  /** A start position inside the room: draws from the half-open ranges,
      rounded down to a tenth. */
  function StartPosition(u: real, v: real): Position {
    Position(Floor1(u), Floor1(v))
  }

  /** Start positions built this way lie inside the room, so cleaning the
      start tile keeps the room's tiles. */
  lemma StartPositionInRoom(width: int, height: int, tiles: map<Tile, bool>, u: real, v: real)
    requires 0.0 <= u < width as real && 0.0 <= v < height as real
    requires tiles.Keys == Grid(width, height)
    ensures InRoom(width, height, StartPosition(u, v))
    ensures Cleaned(tiles, StartPosition(u, v)).Keys == Grid(width, height)
  {
    Floor1Below(u, width);
    Floor1Below(v, height);
    InRoomCleanKeepsTiles(width, height, tiles, StartPosition(u, v));
  }

  lemma Floor1Below(r: real, n: int)
    requires 0.0 <= r < n as real
    ensures 0.0 <= Floor1(r) < n as real
  {
    var f := (r * 10.0).Floor;
    assert f as real <= r * 10.0 < 10.0 * n as real;
    assert f < 10 * n;
  }

  // ---------------------------------------------------------------------
  // The room

  class RectangularRoom {
    var width: int
    var height: int
    var tiles: map<Tile, bool>

    /** `RectangularRoom(width, height)`: every tile of the grid, all dirty. */
    constructor(width: int, height: int)
      ensures this.width == width && this.height == height
      ensures tiles.Keys == Grid(width, height)
      ensures forall t :: t in tiles ==> !tiles[t]
    {
      this.width := width;
      this.height := height;
      tiles := map[];
      new;
      var x := 0;
      while x < width
        invariant 0 <= x <= if width < 0 then 0 else width
        invariant this.width == width && this.height == height
        invariant tiles.Keys == Grid(x, height)
        invariant forall t :: t in tiles ==> !tiles[t]
      {
        var y := 0;
        while y < height
          invariant 0 <= y <= if height < 0 then 0 else height
          invariant this.width == width && this.height == height
          invariant tiles.Keys == Grid(x, height) + (set j | 0 <= j < y :: (x, j))
          invariant forall t :: t in tiles ==> !tiles[t]
        {
          tiles := tiles[(x, y) := false];
          y := y + 1;
        }
        GridColumn(x, height);
        if height <= 0 {
          assert (set j | 0 <= j < y :: (x, j)) == (set j | 0 <= j < height :: (x, j));
        }
        x := x + 1;
      }
      if width < 0 {
        assert Grid(x, height) == Grid(width, height);
      }
    }

    /** `cleanTileAtPosition(pos)`: marks the tile under `pos` clean. A
        position outside the room adds its tile to the table. */
    method CleanTileAtPosition(pos: Position)
      modifies this
      ensures width == old(width) && height == old(height)
      ensures tiles == Cleaned(old(tiles), pos)
    {
      var x := Trunc(pos.x);
      var y := Trunc(pos.y);
      tiles := tiles[(x, y) := true];
    }

    /** `isTileCleaned(m, n)`; a tile missing from the table raises `KeyError`. */
    function IsTileCleaned(m: int, n: int): (r: Option<bool>)
      reads this
      ensures r.Some? <==> (m, n) in tiles
      ensures r.Some? ==> (r.value <==> (m, n) in CleanTiles(tiles))
    {
      if (m, n) in tiles then Some(tiles[(m, n)]) else None
    }

    /** `getNumTiles()`: the size of the table, width times height for a
        table holding exactly the room's tiles. */
    function GetNumTiles(): (n: nat)
      reads this
      ensures tiles.Keys == Grid(width, height) ==>
                n == if width <= 0 || height <= 0 then 0 else width * height
    {
      GridSize(width, height);
      |tiles|
    }

    /** `getNumCleanedTiles()`: counts the clean entries. */
    method GetNumCleanedTiles() returns (n: nat)
      ensures n == |CleanTiles(tiles)|
      ensures n <= |tiles|
    {
      n := 0;
      var todo := tiles.Keys;
      while todo != {}
        invariant todo <= tiles.Keys
        invariant n == |CleanTiles(tiles) - todo|
        decreases |todo|
      {
        var t :| t in todo;
        CountStep(tiles, todo, t);
        if tiles[t] {
          n := n + 1;
        }
        todo := todo - {t};
      }
      assert CleanTiles(tiles) - {} == CleanTiles(tiles);
      CleanCountBounded(tiles);
    }

    /** `isPositionInRoom(pos)`. */
    predicate IsPositionInRoom(pos: Position)
      reads this
    {
      InRoom(width, height, pos)
    }
  }

  /** Taking one tile out of the tiles still to visit adds it to the count
      exactly when it is clean. */
  lemma CountStep(tiles: map<Tile, bool>, todo: set<Tile>, t: Tile)
    requires t in todo && todo <= tiles.Keys
    ensures |CleanTiles(tiles) - (todo - {t})| == |CleanTiles(tiles) - todo| + (if tiles[t] then 1 else 0)
  {
    var done := CleanTiles(tiles) - todo;
    assert t !in done;
    if tiles[t] {
      assert CleanTiles(tiles) - (todo - {t}) == done + {t};
    } else {
      assert CleanTiles(tiles) - (todo - {t}) == done;
    }
  }

  // ---------------------------------------------------------------------
  // Robots

  class Robot {
    var room: RectangularRoom
    var speed: real
    var position: Position
    var direction: int

    /** `Robot(room, speed)`, given the draws `u`, `v` for the start position
        and the drawn direction; the start position is `getRandomPosition`
        as written, `RandomPosition(u, v)`, which can lie on the far wall
        (see `RoundedStartLeavesRoom`), and the robot cleans its start tile. */
    constructor(room: RectangularRoom, speed: real, u: real, v: real, direction: int)
      modifies room
      ensures this.room == room && this.speed == speed
      ensures position == RandomPosition(u, v) && this.direction == direction
      ensures room.width == old(room.width) && room.height == old(room.height)
      ensures room.tiles == Cleaned(old(room.tiles), position)
    {
      this.room := room;
      this.speed := speed;
      position := RandomPosition(u, v);
      this.direction := direction;
      new;
      room.CleanTileAtPosition(position);
    }

    /** `StandardRobot.updatePositionAndClean`, given the position one step
        ahead in the current direction and the direction drawn on hitting a
        wall: move and clean when that position is in the room, otherwise
        stay and turn. */
    method UpdateStandard(next: Position, newDirection: int)
      modifies this, room
      ensures room == old(room) && speed == old(speed)
      ensures room.width == old(room.width) && room.height == old(room.height)
      ensures InRoom(old(room.width), old(room.height), next) ==>
                position == next && direction == old(direction) &&
                room.tiles == Cleaned(old(room.tiles), next)
      ensures !InRoom(old(room.width), old(room.height), next) ==>
                position == old(position) && direction == newDirection &&
                room.tiles == old(room.tiles)
    {
      if room.IsPositionInRoom(next) {
        position := next;
        room.CleanTileAtPosition(position);
      } else {
        direction := newDirection;
      }
    }

    /** `RandomWalkRobot.updatePositionAndClean`, given the drawn direction
        and the position one step ahead in it: always turn, then move and
        clean only when that position is in the room. */
    method UpdateRandomWalk(newDirection: int, next: Position)
      modifies this, room
      ensures room == old(room) && speed == old(speed)
      ensures room.width == old(room.width) && room.height == old(room.height)
      ensures direction == newDirection
      ensures InRoom(old(room.width), old(room.height), next) ==>
                position == next && room.tiles == Cleaned(old(room.tiles), next)
      ensures !InRoom(old(room.width), old(room.height), next) ==>
                position == old(position) && room.tiles == old(room.tiles)
    {
      direction := newDirection;
      if room.IsPositionInRoom(next) {
        position := next;
        room.CleanTileAtPosition(next);
      }
    }
  }
}
