/** The `Screensaver` class of src/screensaver.js, reduced to its simulation: one
    19 x 19 maze, the hunter and 18 bugs, stepped frame by frame. */
module Screen {
  import opened Grid
  import opened Oracle
  import opened Geometry
  import Keys
  import opened Mazes
  import opened Prey
  import opened Hunter

  const MAZE_ROWS: int := 19
  const MAZE_COLS: int := 19
  const BUG_COUNT: nat := 18

  /** The keys of the cells of the bugs that are not eaten: the set `update` rebuilds
      before it updates the bugs. */
  function FreeKeys(v: seq<Sighting>): (keys: set<string>)
    ensures forall i :: 0 <= i < |v| && !v[i].eaten ==> Keys.Key(v[i].row, v[i].col) in keys
  {
    if v == [] then {}
    else
      var rest := v[..|v| - 1];
      var last := v[|v| - 1];
      assert forall i :: 0 <= i < |rest| ==> rest[i] == v[i];
      var here: set<string> := if last.eaten then {} else {Keys.Key(last.row, last.col)};
      FreeKeys(rest) + here
  }

  /** Every key of the set belongs to a bug that is not eaten. */
  lemma {:induction false} FreeKeysOnly(v: seq<Sighting>, k: string)
    requires k in FreeKeys(v)
    ensures exists i :: 0 <= i < |v| && !v[i].eaten && Keys.Key(v[i].row, v[i].col) == k
  {
    var last := v[|v| - 1];
    if !last.eaten && k == Keys.Key(last.row, last.col) {
      assert !v[|v| - 1].eaten;
    } else {
      FreeKeysOnly(v[..|v| - 1], k);
      var i :| 0 <= i < |v| - 1 && !v[..|v| - 1][i].eaten && Keys.Key(v[..|v| - 1][i].row, v[..|v| - 1][i].col) == k;
      assert v[..|v| - 1][i] == v[i];
    }
  }

  /** One bug as the hunter and the other bugs see it. */
  function Sight(b: Bug): (s: Sighting)
    reads b
    ensures s.row == b.row && s.col == b.col && s.eaten == b.eaten && s.respawnAt == b.respawnAt
  {
    Sighting(b.row, b.col, b.position, b.eaten, b.respawnAt)
  }

  /** The test of `Bug.update`: eaten, and its time has come. */
  predicate Due(s: Sighting, time: real)
  {
    s.eaten && time >= s.respawnAt
  }

  /** A bug eaten at `eatenAt` is not due before 4 seconds have passed, and is due once
      10 have. */
  lemma DueWindow(s: Sighting, eatenAt: real, time: real)
    requires s.eaten && eatenAt + 4.0 <= s.respawnAt < eatenAt + 10.0
    ensures time < eatenAt + 4.0 ==> !Due(s, time)
    ensures time >= eatenAt + 10.0 ==> Due(s, time)
  {
  }

  /** `Bug.update` seen from one bug: a due bug is back and not eaten, any other bug is as
      it was. */
  ghost predicate RenewedBug(before: Sighting, after: Sighting, time: real)
  {
    if Due(before, time) then !after.eaten && after.respawnAt == 0.0 else after == before
  }

  /** For each bug, whether its last `spawn` found a free cell before its 60 draws ran out
      (and so certainly avoided the occupied cells). */
  ghost function Spreads(bugs: seq<Bug>): (v: seq<bool>)
    reads bugs
    ensures |v| == |bugs| && forall i :: 0 <= i < |bugs| ==> v[i] == (|bugs[i].draws| < SPAWN_ATTEMPTS)
  {
    seq(|bugs|, i reads bugs requires 0 <= i < |bugs| => |bugs[i].draws| < SPAWN_ATTEMPTS)
  }

  /** The state of the loop of `update` over the bugs before bug `k`, all sharing one set
      that held `keys0` when the loop began and holds `keys` now: the bugs before `k` are
      updated and the rest untouched; each due bug before `k` has its key in the set and,
      unless its draws ran out, a cell whose key was not in `keys0` and that no earlier
      due bug took. */
  ghost predicate RenewedUpTo(before: seq<Sighting>, now: seq<Sighting>, spread: seq<bool>, keys0: set<string>,
                              keys: set<string>, time: real, k: nat)
  {
    && k <= |before| && |now| == |before| && |spread| == |before| && keys >= keys0
    && (forall i :: 0 <= i < k ==> RenewedBug(before[i], now[i], time))
    && (forall i :: k <= i < |before| ==> now[i] == before[i])
    && (forall i :: 0 <= i < k && Due(before[i], time) ==> CellKey(Cell(now[i].row, now[i].col)) in keys)
    && (forall i :: 0 <= i < k && Due(before[i], time) && spread[i] ==> CellKey(Cell(now[i].row, now[i].col)) !in keys0)
    && (forall j, i :: 0 <= j < i < k && Due(before[j], time) && Due(before[i], time) && spread[i] ==>
          Cell(now[i].row, now[i].col) != Cell(now[j].row, now[j].col))
  }

  /** One bug update of the loop: bug `k`, which was due or not, is updated; a due bug
      adds its key, drawn away from the set as it was unless its draws ran out. */
  lemma RenewStep(before: seq<Sighting>, was: seq<Sighting>, now: seq<Sighting>, wasSpread: seq<bool>, spread: seq<bool>,
                  keys0: set<string>, keysWas: set<string>, keys: set<string>, time: real, k: nat)
    requires RenewedUpTo(before, was, wasSpread, keys0, keysWas, time, k) && k < |before|
    requires |now| == |was| && |spread| == |wasSpread|
    requires forall i :: 0 <= i < |was| && i != k ==> now[i] == was[i] && spread[i] == wasSpread[i]
    requires RenewedBug(was[k], now[k], time)
    requires keys == keysWas + if Due(was[k], time) then {CellKey(Cell(now[k].row, now[k].col))} else {}
    requires Due(was[k], time) && spread[k] ==> CellKey(Cell(now[k].row, now[k].col)) !in keysWas
    ensures RenewedUpTo(before, now, spread, keys0, keys, time, k + 1)
  {
    assert was[k] == before[k];
    forall j, i | 0 <= j < i < k + 1 && Due(before[j], time) && Due(before[i], time) && spread[i]
      ensures Cell(now[i].row, now[i].col) != Cell(now[j].row, now[j].col)
    {
      if i == k {
        assert CellKey(Cell(now[j].row, now[j].col)) in keysWas;
      }
    }
  }

  /** The loop of `update` at its end, read back on the bugs themselves. */
  lemma RenewedAll(bugs: seq<Bug>, before: seq<Sighting>, keys0: set<string>, keys: set<string>, time: real)
    requires RenewedUpTo(before, Sightings(bugs), Spreads(bugs), keys0, keys, time, |bugs|)
    ensures Renewed(before, Sightings(bugs), time) && keys >= keys0
    ensures forall i :: 0 <= i < |bugs| && Due(before[i], time) && |bugs[i].draws| < SPAWN_ATTEMPTS ==>
              CellKey(Cell(bugs[i].row, bugs[i].col)) !in keys0
    ensures forall i :: 0 <= i < |bugs| && Due(before[i], time) ==> CellKey(Cell(bugs[i].row, bugs[i].col)) in keys
    ensures forall j, i :: 0 <= j < i < |bugs| && Due(before[j], time) && Due(before[i], time) && |bugs[i].draws| < SPAWN_ATTEMPTS ==>
              Cell(bugs[i].row, bugs[i].col) != Cell(bugs[j].row, bugs[j].col)
  {
    var now, spread := Sightings(bugs), Spreads(bugs);
    forall j, i | 0 <= j < i < |bugs| && Due(before[j], time) && Due(before[i], time) && |bugs[i].draws| < SPAWN_ATTEMPTS
      ensures Cell(bugs[i].row, bugs[i].col) != Cell(bugs[j].row, bugs[j].col)
    {
      assert spread[i] && Cell(now[i].row, now[i].col) != Cell(now[j].row, now[j].col);
    }
  }

  /** `Bug.update` for every bug. */
  ghost predicate Renewed(before: seq<Sighting>, after: seq<Sighting>, time: real)
  {
    |after| == |before| && forall i :: 0 <= i < |before| ==> RenewedBug(before[i], after[i], time)
  }

  /** A bug the hunter eats in a frame is still eaten at the end of it: it is due back at
      least 4 seconds later, so the bug updates of the same frame leave it alone. */
  lemma CaughtStayEaten(start: seq<Sighting>, hunted: seq<Sighting>, now: seq<Sighting>, time: real, radius: real,
                        spots: seq<Point>, caught: seq<nat>)
    requires Feeding(start, hunted, time, radius, spots, caught) && Renewed(hunted, now, time)
    ensures forall i :: i in caught ==> 0 <= i < |now| && now[i].eaten && now[i].respawnAt >= time + 4.0
  {
    forall i | i in caught
      ensures 0 <= i < |now| && now[i].eaten && now[i].respawnAt >= time + 4.0
    {
      assert !start[i].eaten && hunted[i].eaten;
      assert hunted[i].respawnAt >= time + 4.0;
      assert !Due(hunted[i], time) && RenewedBug(hunted[i], now[i], time);
    }
  }

  /** The loop of the constructor: 18 bugs spawned one after the other into one shared
      `seeded` set, so that a bug avoids the cells of the bugs built before it unless all
      its 60 draws hit them. */
  method SpawnBugs(maze: Maze, rng: Random) returns (bugs: seq<Bug>)
    requires maze.Drawable() && rng.Valid()
    modifies rng
    ensures rng.Valid() && |bugs| == BUG_COUNT
    ensures forall i :: 0 <= i < |bugs| ==> fresh(bugs[i])
    ensures forall i, j :: 0 <= i < j < |bugs| ==> bugs[i] != bugs[j]
    ensures forall i :: 0 <= i < |bugs| ==> bugs[i].PlacedIn(maze) && !bugs[i].eaten
    ensures forall j, k :: 0 <= j < k < |bugs| && |bugs[k].draws| < SPAWN_ATTEMPTS ==>
              Cell(bugs[j].row, bugs[j].col) != Cell(bugs[k].row, bugs[k].col)
  {
    var seeded := new Keys.KeySet();
    bugs := [];
    ghost var cells: seq<Cell> := [];
    while |bugs| < BUG_COUNT
      invariant rng.Valid() && |cells| == |bugs| <= BUG_COUNT
      invariant forall i :: 0 <= i < |bugs| ==> fresh(bugs[i])
      invariant forall i, j :: 0 <= i < j < |bugs| ==> bugs[i] != bugs[j]
      invariant forall i :: 0 <= i < |bugs| ==> bugs[i].PlacedIn(maze) && !bugs[i].eaten && cells[i] == Cell(bugs[i].row, bugs[i].col)
      invariant seeded.members == set c | c in cells :: CellKey(c)
      invariant forall j, k :: 0 <= j < k < |bugs| && |bugs[k].draws| < SPAWN_ATTEMPTS ==> cells[j] != cells[k]
      decreases BUG_COUNT - |bugs|
    {
      var bug := SpawnOne(maze, seeded, rng, cells);
      bugs := bugs + [bug];
      cells := cells + [Cell(bug.row, bug.col)];
    }
  }

  /** One bug of the constructor's loop: it avoids the cells already seeded unless all its
      60 draws hit them, and seeds its own cell. */
  method SpawnOne(maze: Maze, seeded: Keys.KeySet, rng: Random, ghost cells: seq<Cell>) returns (bug: Bug)
    requires maze.Drawable() && rng.Valid() && seeded.members == set c | c in cells :: CellKey(c)
    modifies seeded, rng
    ensures fresh(bug) && rng.Valid() && bug.PlacedIn(maze) && !bug.eaten
    ensures seeded.members == set c | c in cells + [Cell(bug.row, bug.col)] :: CellKey(c)
    ensures |bug.draws| < SPAWN_ATTEMPTS ==> Cell(bug.row, bug.col) !in cells
  {
    ghost var taken := seeded.members;
    bug := new Bug(maze, seeded, rng);
    assert seeded.members == taken + {CellKey(Cell(bug.row, bug.col))};
    if |bug.draws| < SPAWN_ATTEMPTS {
      assert CellKey(Cell(bug.row, bug.col)) !in taken;
    }
  }

  /** The loop of `update` that rebuilds `occupied` from the bugs that are not eaten. */
  method CollectOccupied(bugs: seq<Bug>) returns (occupied: Keys.KeySet)
    ensures fresh(occupied) && occupied.members == FreeKeys(Sightings(bugs))
  {
    occupied := new Keys.KeySet();
    ghost var seen := Sightings(bugs);
    var k := 0;
    while k < |bugs|
      invariant 0 <= k <= |bugs| && fresh(occupied)
      invariant occupied.members == FreeKeys(seen[..k])
    {
      assert seen[..k + 1][..k] == seen[..k];
      if !bugs[k].eaten {
        occupied.Add(bugs[k].Key());
      }
      k := k + 1;
    }
    assert seen[..k] == seen;
  }

  class Screensaver {
    const rng: Random
    const maze: Maze
    const debugger: Debugger
    const bugs: seq<Bug>
    var elapsed: real

    /** The simulation between two frames. The maze itself is never changed after the
        constructor, which establishes `maze.Valid()`. */
    ghost predicate Valid()
      reads this, rng, maze.walls, debugger, bugs
    {
      && rng.Valid() && maze.rows == MAZE_ROWS && maze.cols == MAZE_COLS
      && debugger.maze == maze && debugger.Valid()
      && |bugs| == BUG_COUNT
      && (forall i, j :: 0 <= i < j < |bugs| ==> bugs[i] != bugs[j])
      && (forall i :: 0 <= i < |bugs| ==> bugs[i].PlacedIn(maze))
    }

    /** The constructor: the 19 x 19 maze, the hunter, and the bugs of `SpawnBugs`. */
    constructor (rng: Random)
      requires rng.Valid()
      modifies rng
      ensures Valid() && maze.Valid() && this.rng == rng && elapsed == 0.0
      ensures fresh(maze) && fresh(maze.walls) && fresh(debugger) && forall i :: 0 <= i < |bugs| ==> fresh(bugs[i])
      ensures forall i :: 0 <= i < |bugs| ==> !bugs[i].eaten
      ensures forall j, k :: 0 <= j < k < |bugs| && |bugs[k].draws| < SPAWN_ATTEMPTS ==>
                Cell(bugs[j].row, bugs[j].col) != Cell(bugs[k].row, bugs[k].col)
    {
      var m := new Maze(MAZE_ROWS, MAZE_COLS, rng);
      m.ValidWalkable();
      var d := new Debugger(m, rng);
      var made := SpawnBugs(m, rng);
      this.rng := rng;
      maze := m;
      debugger := d;
      bugs := made;
      elapsed := 0.0;
    }

    /** The loop of `update` that updates every bug in turn, all sharing `occupied`: a due
        bug respawns on a cell whose key was not in `occupied` unless all its 60 draws hit
        occupied cells, and adds its key, so a later due bug avoids it too. */
    method UpdateBugs(delta: real, time: real, occupied: Keys.KeySet)
      requires rng.Valid()
      requires forall i, j :: 0 <= i < j < |bugs| ==> bugs[i] != bugs[j]
      requires forall i :: 0 <= i < |bugs| ==> bugs[i].PlacedIn(maze)
      modifies bugs, occupied, rng
      ensures rng.Valid() && forall i :: 0 <= i < |bugs| ==> bugs[i].PlacedIn(maze)
      ensures Renewed(old(Sightings(bugs)), Sightings(bugs), time)
      ensures occupied.members >= old(occupied.members) && unchanged(debugger, maze.walls)
      ensures forall i :: 0 <= i < |bugs| && old(Due(Sight(bugs[i]), time)) && |bugs[i].draws| < SPAWN_ATTEMPTS ==>
                CellKey(Cell(bugs[i].row, bugs[i].col)) !in old(occupied.members)
      ensures forall i :: 0 <= i < |bugs| && old(Due(Sight(bugs[i]), time)) ==>
                CellKey(Cell(bugs[i].row, bugs[i].col)) in occupied.members
      ensures forall j, i :: 0 <= j < i < |bugs| && old(Due(Sight(bugs[j]), time)) && old(Due(Sight(bugs[i]), time)) && |bugs[i].draws| < SPAWN_ATTEMPTS ==>
                Cell(bugs[i].row, bugs[i].col) != Cell(bugs[j].row, bugs[j].col)
    {
      ghost var before := Sightings(bugs);
      ghost var keys0 := occupied.members;
      var k := 0;
      while k < |bugs|
        invariant 0 <= k <= |bugs| && rng.Valid() && unchanged(debugger, maze.walls)
        invariant forall i :: 0 <= i < |bugs| ==> bugs[i].PlacedIn(maze)
        invariant RenewedUpTo(before, Sightings(bugs), Spreads(bugs), keys0, occupied.members, time, k)
      {
        ghost var was, spread, keys := Sightings(bugs), Spreads(bugs), occupied.members;
        RenewAt(k, delta, time, occupied);
        RenewStep(before, was, Sightings(bugs), spread, Spreads(bugs), keys0, keys, occupied.members, time, k);
        k := k + 1;
      }
      RenewedAll(bugs, before, keys0, occupied.members, time);
    }

    /** The update of bug `k` in the loop of `update`: the other bugs are left as they are. */
    method RenewAt(k: nat, delta: real, time: real, occupied: Keys.KeySet)
      requires k < |bugs| && rng.Valid() && bugs[k].PlacedIn(maze)
      requires forall i, j :: 0 <= i < j < |bugs| ==> bugs[i] != bugs[j]
      modifies bugs[k], occupied, rng
      ensures forall i :: 0 <= i < |bugs| && i != k ==> unchanged(bugs[i])
      ensures forall i :: 0 <= i < |bugs| && i != k ==>
                Sightings(bugs)[i] == old(Sightings(bugs))[i] && Spreads(bugs)[i] == old(Spreads(bugs))[i]
      ensures rng.Valid() && bugs[k].PlacedIn(maze)
      ensures occupied.members ==
                old(occupied.members) + if old(Due(Sight(bugs[k]), time)) then {CellKey(Cell(bugs[k].row, bugs[k].col))} else {}
      ensures RenewedBug(old(Sight(bugs[k])), Sight(bugs[k]), time)
      ensures old(Due(Sight(bugs[k]), time)) && |bugs[k].draws| < SPAWN_ATTEMPTS ==>
                CellKey(Cell(bugs[k].row, bugs[k].col)) !in old(occupied.members)
      ensures var was, now := old(Sightings(bugs)), Sightings(bugs);
              && |now| == |was| && |Spreads(bugs)| == |old(Spreads(bugs))|
              && RenewedBug(was[k], now[k], time)
              && occupied.members == old(occupied.members) + (if Due(was[k], time) then {CellKey(Cell(now[k].row, now[k].col))} else {})
              && (Due(was[k], time) && Spreads(bugs)[k] ==> CellKey(Cell(now[k].row, now[k].col)) !in old(occupied.members))
    {
      bugs[k].Update(delta, time, maze, occupied, rng);
    }

    /** `update`: the hunter moves and eats first; then `occupied` is rebuilt from the
        bugs it left uneaten; then every bug is updated, a due bug avoiding those cells
        unless all its 60 draws hit occupied ones. `hunted` is the bugs as the hunter left
        them; `caught` lists the bugs it ate, one spark burst each, from the positions
        `spots`, the last of them where the hunter is drawn. */
    method Update(delta: real) returns (caught: seq<nat>, ghost hunted: seq<Sighting>, ghost spots: seq<Point>)
      requires Valid() && delta >= 0.0
      modifies debugger, bugs, rng
      ensures Valid()
      ensures Feeding(old(Sightings(bugs)), hunted, elapsed, CaptureRadius(debugger.tileSize), spots, caught)
      ensures |spots| > 0 && spots[|spots| - 1] == debugger.position
      ensures forall k :: 0 <= k < |spots| - 1 ==> spots[k] == old(debugger.position)
      ensures old(debugger.progress) + delta * SPEED < 1.0 ==> spots == [debugger.position]
      ensures forall i :: 0 <= i < |hunted| && !hunted[i].eaten ==>
                !Within(hunted[i].at, debugger.position, CaptureRadius(debugger.tileSize))
      ensures Renewed(hunted, Sightings(bugs), elapsed)
      ensures forall i :: 0 <= i < |bugs| && Due(hunted[i], elapsed) && |bugs[i].draws| < SPAWN_ATTEMPTS ==>
                CellKey(Cell(bugs[i].row, bugs[i].col)) !in FreeKeys(hunted)
      ensures forall j, i :: 0 <= j < i < |bugs| && Due(hunted[j], elapsed) && Due(hunted[i], elapsed) && |bugs[i].draws| < SPAWN_ATTEMPTS ==>
                Cell(bugs[i].row, bugs[i].col) != Cell(bugs[j].row, bugs[j].col)
    {
      caught, spots := Hunt(delta);
      hunted := Sightings(bugs);
      Renew(delta);
    }

    /** The first half of `update`: the hunter's update, which may eat bugs. */
    method Hunt(delta: real) returns (caught: seq<nat>, ghost spots: seq<Point>)
      requires Valid() && delta >= 0.0
      modifies debugger, bugs, rng
      ensures Valid()
      ensures Feeding(old(Sightings(bugs)), Sightings(bugs), elapsed, CaptureRadius(debugger.tileSize), spots, caught)
      ensures |spots| > 0 && spots[|spots| - 1] == debugger.position
      ensures forall k :: 0 <= k < |spots| - 1 ==> spots[k] == old(debugger.position)
      ensures old(debugger.progress) + delta * SPEED < 1.0 ==> spots == [debugger.position]
      ensures var now := Sightings(bugs);
                forall i :: 0 <= i < |now| && !now[i].eaten ==>
                  !Within(now[i].at, debugger.position, CaptureRadius(debugger.tileSize))
    {
      caught, spots := debugger.Update(delta, bugs, elapsed, rng);
    }

    /** The second half of `update`: `occupied` rebuilt from the bugs left uneaten, then
        every bug updated. */
    method Renew(delta: real)
      requires Valid()
      modifies bugs, rng
      ensures Valid() && Renewed(old(Sightings(bugs)), Sightings(bugs), elapsed)
      ensures forall i :: 0 <= i < |bugs| && old(Due(Sight(bugs[i]), elapsed)) && |bugs[i].draws| < SPAWN_ATTEMPTS ==>
                CellKey(Cell(bugs[i].row, bugs[i].col)) !in FreeKeys(old(Sightings(bugs)))
      ensures forall j, i :: 0 <= j < i < |bugs| && old(Due(Sight(bugs[j]), elapsed)) && old(Due(Sight(bugs[i]), elapsed)) && |bugs[i].draws| < SPAWN_ATTEMPTS ==>
                Cell(bugs[i].row, bugs[i].col) != Cell(bugs[j].row, bugs[j].col)
    {
      var occupied := CollectOccupied(bugs);
      UpdateBugs(delta, elapsed, occupied);
    }
  }
}
