/** The `Bug` class of src/screensaver.js: a prey on a path cell that is eaten by the
    hunter and respawns a few seconds later, preferring a cell no other bug holds. */
module Prey {
  import opened Grid
  import opened Oracle
  import opened Geometry
  import Keys
  import opened Mazes

  /** The most cells `spawn` draws before it settles for an occupied one. */
  const SPAWN_ATTEMPTS: nat := 60

  /** The key of a cell, as `spawn` checks it. */
  function CellKey(x: Cell): string
  {
    Keys.Key(x.row, x.col)
  }

  /** The state of the loop of `spawn` after a draw: `cell` is the last of 1 to 60 draws
      from `pool`, all but the last of them occupied. */
  ghost predicate Drawing(pool: seq<Cell>, occupied: set<string>, draws: seq<Cell>, cell: Cell)
  {
    && 1 <= |draws| <= SPAWN_ATTEMPTS
    && cell == draws[|draws| - 1]
    && (forall i :: 0 <= i < |draws| ==> draws[i] in pool)
    && (forall i :: 0 <= i < |draws| - 1 ==> CellKey(draws[i]) in occupied)
  }

  /** What the draws of `spawn` are: the loop's state on leaving it, so the last draw is
      free unless all 60 draws were made. */
  ghost predicate FreeDraws(pool: seq<Cell>, occupied: set<string>, draws: seq<Cell>)
  {
    && |draws| >= 1
    && Drawing(pool, occupied, draws, draws[|draws| - 1])
    && (|draws| < SPAWN_ATTEMPTS ==> CellKey(draws[|draws| - 1]) !in occupied)
  }

  /** The do-while loop of `spawn`: the cell it settles on is its last draw. */
  method DrawCell(maze: Maze, occupied: Keys.KeySet, rng: Random, ghost pool: seq<Cell>)
    returns (cell: Cell, ghost draws: seq<Cell>)
    requires maze.Drawable() && rng.Valid() && pool == maze.pathCells
    modifies rng
    ensures rng.Valid()
    ensures FreeDraws(pool, occupied.members, draws) && cell == draws[|draws| - 1]
  {
    ghost var taken := occupied.members;
    cell, draws := Redraw(maze, rng, pool, taken, []);
    var attempts := 1;
    while occupied.Has(CellKey(cell)) && attempts < SPAWN_ATTEMPTS
      invariant rng.Valid() && pool == maze.pathCells && taken == occupied.members
      invariant attempts == |draws| && Drawing(pool, taken, draws, cell)
      decreases SPAWN_ATTEMPTS - attempts
    {
      AllOccupied(pool, taken, draws, cell);
      cell, draws := Redraw(maze, rng, pool, taken, draws);
      attempts := attempts + 1;
    }
  }

  /** One draw of the loop of `spawn`, appended to the earlier ones, which were all
      among the keys `taken`. */
  method Redraw(maze: Maze, rng: Random, ghost pool: seq<Cell>, ghost taken: set<string>, ghost before: seq<Cell>)
    returns (cell: Cell, ghost draws: seq<Cell>)
    requires maze.Drawable() && rng.Valid() && pool == maze.pathCells && |before| < SPAWN_ATTEMPTS
    requires forall i :: 0 <= i < |before| ==> before[i] in pool
    requires forall i :: 0 <= i < |before| ==> CellKey(before[i]) in taken
    modifies rng
    ensures rng.Valid() && draws == before + [cell] && Drawing(pool, taken, draws, cell)
  {
    cell := maze.GetRandomPathCell(rng);
    draws := before + [cell];
    assert forall i :: 0 <= i < |before| ==> draws[i] == before[i];
  }

  /** When the last draw is occupied too, every draw is. */
  lemma AllOccupied(pool: seq<Cell>, occupied: set<string>, draws: seq<Cell>, cell: Cell)
    requires Drawing(pool, occupied, draws, cell) && CellKey(cell) in occupied
    ensures forall i :: 0 <= i < |draws| ==> CellKey(draws[i]) in occupied
  {
    var last := |draws| - 1;
    assert draws == draws[..last] + [cell];
    forall i | 0 <= i < |draws|
      ensures CellKey(draws[i]) in occupied
    {
      if i < last {
        assert CellKey(draws[..last][i]) in occupied;
      }
    }
  }

  class Bug {
    var row: int
    var col: int
    var eaten: bool
    var respawnAt: real
    const tileSize: real
    var position: Point
    /** The cells the last `spawn` drew, in order. */
    ghost var draws: seq<Cell>

    /** The bug sits on a path cell of `maze`, drawn at the centre of its tile. */
    ghost predicate PlacedIn(maze: Maze)
      reads this
    {
      maze.Drawable() && Cell(row, col) in maze.pathCells && position == TileCenter(col, row, tileSize)
    }

    /** `get key()`: the occupancy key of the bug's cell (no other cell shares it, by
        `Keys.KeyInjective`). */
    function Key(): string
      reads this
    {
      CellKey(Cell(row, col))
    }

    /** Two bugs share a key exactly when they share a cell. */
    lemma SameKey(other: Bug)
      ensures Key() == other.Key() <==> row == other.row && col == other.col
    {
      if Key() == other.Key() {
        Keys.KeyInjective(row, col, other.row, other.col);
      }
    }

    /** The constructor: a bug at `(0, 0)` that spawns at once, sharing `occupied` with the
        bugs built before it. */
    constructor (maze: Maze, occupied: Keys.KeySet, rng: Random)
      requires maze.Drawable() && rng.Valid()
      modifies occupied, rng
      ensures rng.Valid() && PlacedIn(maze) && !eaten && respawnAt == 0.0 && tileSize == 24.0
      ensures FreeDraws(maze.pathCells, old(occupied.members), draws) && Cell(row, col) == draws[|draws| - 1]
      ensures occupied.members == old(occupied.members) + {Key()}
    {
      row, col, eaten, respawnAt := 0, 0, false, 0.0;
      tileSize := 24.0;
      position := Point(0.0, 0.0);
      draws := [];
      new;
      Spawn(maze, occupied, rng);
    }

    /** `updatePosition`: the centre of the bug's tile. */
    method UpdatePosition()
      modifies this`position
      ensures position == TileCenter(col, row, tileSize)
    {
      position := TileCenter(col, row, tileSize);
    }

    /** `markEaten(time)`: eaten, and due back between 4 and 10 seconds later. */
    method MarkEaten(time: real, rng: Random)
      requires rng.Valid()
      modifies this`eaten, this`respawnAt, rng
      ensures rng.Valid()
      ensures eaten && time + 4.0 <= respawnAt < time + 10.0
    {
      eaten := true;
      var u := rng.Next();
      respawnAt := time + 4.0 + u * 6.0;
    }

    /** `spawn`: draw pool cells until one is not in `occupied` or 60 were drawn, settle
        on the last draw and add its key to `occupied`. */
    method Spawn(maze: Maze, occupied: Keys.KeySet, rng: Random)
      requires maze.Drawable() && rng.Valid()
      modifies this, occupied, rng
      ensures rng.Valid()
      ensures FreeDraws(maze.pathCells, old(occupied.members), draws)
      ensures Cell(row, col) == draws[|draws| - 1]
      ensures PlacedIn(maze) && !eaten && respawnAt == 0.0
      ensures occupied.members == old(occupied.members) + {Key()}
    {
      var cell;
      ghost var drawn;
      cell, drawn := DrawCell(maze, occupied, rng, maze.pathCells);
      Place(cell, drawn);
      occupied.Add(Key());
    }

    /** The end of `spawn`: the bug moves to `cell`, uneaten and centred on its tile. */
    method Place(cell: Cell, ghost drawn: seq<Cell>)
      modifies this
      ensures row == cell.row && col == cell.col && !eaten && respawnAt == 0.0 && draws == drawn
      ensures position == TileCenter(col, row, tileSize)
    {
      row, col, eaten, respawnAt, draws := cell.row, cell.col, false, 0.0, drawn;
      UpdatePosition();
    }

    /** `update`: respawn once the bug is eaten and its time has come, then re-centre. */
    method Update(delta: real, time: real, maze: Maze, occupied: Keys.KeySet, rng: Random)
      requires rng.Valid() && PlacedIn(maze)
      modifies this, occupied, rng
      ensures rng.Valid() && PlacedIn(maze)
      ensures old(eaten) && time >= old(respawnAt) ==>
                !eaten && respawnAt == 0.0 && occupied.members == old(occupied.members) + {Key()} &&
                FreeDraws(maze.pathCells, old(occupied.members), draws) && Cell(row, col) == draws[|draws| - 1]
      ensures !(old(eaten) && time >= old(respawnAt)) ==>
                row == old(row) && col == old(col) && eaten == old(eaten) && respawnAt == old(respawnAt) &&
                occupied.members == old(occupied.members)
    {
      if eaten && time >= respawnAt {
        Spawn(maze, occupied, rng);
      }
      UpdatePosition();
    }
  }
}
