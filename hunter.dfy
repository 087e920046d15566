/** The `Debugger` class of src/screensaver.js: the hunter that walks the maze one
    tile at a time, turning at random but never straight back unless it must, and
    eats the bugs it passes. */
module Hunter {
  import opened Grid
  import opened Oracle
  import opened Geometry
  import opened Mazes
  import opened Prey

  /** The hunter's pace, in cells per second. */
  const SPEED: real := 2.8

  /** The most trail points the hunter keeps. */
  const MAX_TRAIL: nat := 10

  /** `a` is `b` with some of its directions left out and the rest in their order. */
  predicate Subsequence(a: seq<Direction>, b: seq<Direction>)
    decreases |b|
  {
    if a == [] then true
    else if b == [] then false
    else (a[0] == b[0] && Subsequence(a[1..], b[1..])) || Subsequence(a, b[1..])
  }

  /** The directions of `ds` other than `x`, in order. */
  function Without(ds: seq<Direction>, x: Direction): (r: seq<Direction>)
    ensures forall d :: d in r <==> d in ds && d != x
    ensures |r| <= |ds| && Subsequence(r, ds)
  {
    if ds == [] then []
    else
      var rest := Without(ds[1..], x);
      assert forall d :: d in ds <==> d == ds[0] || d in ds[1..];
      if ds[0] == x then rest
      else
        assert ([ds[0]] + rest)[1..] == rest;
        [ds[0]] + rest
  }

  /** The `filter` of `chooseNextDirection`: the reverse of the last direction is dropped,
      but only when there is more than one option. */
  function Filtered(options: seq<Direction>, reverse: Direction): (f: seq<Direction>)
    ensures forall d :: d in f <==> d in options && (|options| > 1 ==> d != reverse)
  {
    if |options| > 1 then Without(options, reverse) else options
  }

  /** No direction occurs twice. */
  predicate Distinct(ds: seq<Direction>)
  {
    forall i, j :: 0 <= i < j < |ds| ==> ds[i] != ds[j]
  }

  /** The filter never leaves a non-empty list of distinct options empty, so the
      `|| options[0]` fallback is never taken. */
  lemma FilteredNonEmpty(options: seq<Direction>, reverse: Direction)
    requires |options| > 0 && Distinct(options)
    ensures |Filtered(options, reverse)| > 0
  {
    var f := Filtered(options, reverse);
    var keep := if |options| > 1 && options[0] == reverse then options[1] else options[0];
    assert keep in f;
  }

  /** `filtered[Math.floor(u * filtered.length)] || options[0]`. */
  function Pick(options: seq<Direction>, reverse: Direction, u: real): (d: Direction)
    requires |options| > 0 && 0.0 <= u < 1.0
    ensures d in options
    ensures |Filtered(options, reverse)| > 0 ==> d in Filtered(options, reverse)
  {
    var filtered := Filtered(options, reverse);
    if |filtered| > 0 then filtered[ScaledIndex(u, |filtered|)] else options[0]
  }

  /** With distinct options, the pick never turns back unless that is the only way. */
  lemma PickAvoidsReverse(options: seq<Direction>, reverse: Direction, u: real)
    requires |options| > 0 && Distinct(options) && 0.0 <= u < 1.0
    ensures Pick(options, reverse, u) in options
    ensures |options| > 1 ==> Pick(options, reverse, u) != reverse
  {
    FilteredNonEmpty(options, reverse);
  }

  /** The neighbour list of a cell has no repeated direction. */
  lemma NeighborsDistinct(maze: Maze, x: Cell)
    requires maze.Sized()
    ensures Distinct(maze.GetNeighbors(x.row, x.col))
  {
    maze.NeighborsInOrder(x.row, x.col);
  }

  // ---------------------------------------------------------------------------
  // The recursion of `chooseNextDirection` as written

  /** The source's `chooseNextDirection` at `cur`, relocating to each of `draws` in turn
      while the cell it stands on has no open neighbour: whether it returns within
      those draws. */
  ghost predicate SettlesAsWritten(maze: Maze, cur: Cell, draws: seq<Cell>)
    requires maze.Sized()
    reads maze.walls
    decreases |draws|
  {
    |maze.GetNeighbors(cur.row, cur.col)| > 0 ||
    (|draws| > 0 && SettlesAsWritten(maze, draws[0], draws[1..]))
  }

  /** The recursion as written returns within `draws` exactly when the cell it starts on,
      or one of the cells drawn, has an open neighbour. */
  lemma {:induction false} SettlesIffMove(maze: Maze, cur: Cell, draws: seq<Cell>)
    requires maze.Sized()
    ensures SettlesAsWritten(maze, cur, draws) <==>
              |maze.GetNeighbors(cur.row, cur.col)| > 0 ||
              exists i :: 0 <= i < |draws| && |maze.GetNeighbors(draws[i].row, draws[i].col)| > 0
    decreases |draws|
  {
    if |draws| > 0 {
      SettlesIffMove(maze, draws[0], draws[1..]);
      var rest := draws[1..];
      if exists i :: 0 <= i < |draws| && |maze.GetNeighbors(draws[i].row, draws[i].col)| > 0 {
        var i :| 0 <= i < |draws| && |maze.GetNeighbors(draws[i].row, draws[i].col)| > 0;
        if i > 0 {
          assert rest[i - 1] == draws[i];
        }
      }
      if exists i :: 0 <= i < |rest| && |maze.GetNeighbors(rest[i].row, rest[i].col)| > 0 {
        var i :| 0 <= i < |rest| && |maze.GetNeighbors(rest[i].row, rest[i].col)| > 0;
        assert draws[i + 1] == rest[i];
      }
    }
  }

  /** On a `3 x 3` maze no sequence of draws ends the recursion: whatever
      `getRandomPathCell` returns, `chooseNextDirection` calls itself again. */
  lemma {:induction false} NeverSettles(maze: Maze, cur: Cell, draws: seq<Cell>)
    requires maze.Valid() && maze.rows == 3 && maze.cols == 3 && cur in maze.pathCells
    requires forall i :: 0 <= i < |draws| ==> draws[i] in maze.pathCells
    ensures !SettlesAsWritten(maze, cur, draws)
    decreases |draws|
  {
    maze.SingleCell();
    if |draws| > 0 {
      NeverSettles(maze, draws[0], draws[1..]);
    }
  }

  /** On any larger maze the recursion returns at once: every path cell has a move. */
  lemma SettlesOnLarger(maze: Maze, cur: Cell, draws: seq<Cell>)
    requires maze.Valid() && (maze.rows > 3 || maze.cols > 3) && cur in maze.pathCells
    requires forall r, c :: Interior(maze.walls, Cell(r, c)) && Lattice(Cell(r, c)) ==> maze.walls[r, c] != WALL
    ensures SettlesAsWritten(maze, cur, draws)
  {
    maze.LargerNavigable(cur);
  }

  // ---------------------------------------------------------------------------
  // The trail

  /** A trail point: where the hunter was, and how long the mark has left to fade. */
  datatype Segment = Segment(at: Point, life: real)

  /** The life of a fresh trail point. */
  const TRAIL_LIFE: real := 0.5

  /** Every trail point is still visible and no older than a fresh one. */
  predicate Fading(trail: seq<Segment>)
  {
    forall i :: 0 <= i < |trail| ==> 0.0 < trail[i].life <= TRAIL_LIFE
  }

  /** `trail.unshift(...)` followed by `trail.pop()` when the trail has grown past its
      bound: the new point first, then the older ones, the oldest dropped. */
  function Pushed(trail: seq<Segment>, s: Segment): (r: seq<Segment>)
    requires |trail| <= MAX_TRAIL
    ensures |r| == if |trail| < MAX_TRAIL then |trail| + 1 else MAX_TRAIL
    ensures r[0] == s && forall i :: 0 < i < |r| ==> r[i] == trail[i - 1]
    ensures Fading(trail) && 0.0 < s.life <= TRAIL_LIFE ==> Fading(r)
  {
    var longer := [s] + trail;
    if |longer| > MAX_TRAIL then longer[..MAX_TRAIL] else longer
  }

  /** The decay and `filter` after the progress loop: each point loses `amount` of life
      (never below 0), and the points with none left are dropped, the rest kept in
      order. */
  function Faded(trail: seq<Segment>, amount: real): (r: seq<Segment>)
    ensures |r| <= |trail|
    ensures forall i :: 0 <= i < |r| ==> r[i].life > 0.0
    ensures amount >= 0.0 && Fading(trail) ==> Fading(r)
  {
    if trail == [] then []
    else
      var t := trail[0];
      var life := if t.life - amount > 0.0 then t.life - amount else 0.0;
      var rest := Faded(trail[1..], amount);
      if life > 0.0 then [Segment(t.at, life)] + rest else rest
  }

  /** A point with more life than the decay survives it, with the decay taken off. */
  lemma {:induction false} FadedKeeps(trail: seq<Segment>, amount: real, i: nat)
    requires i < |trail| && trail[i].life > amount
    ensures Segment(trail[i].at, trail[i].life - amount) in Faded(trail, amount)
  {
    if i > 0 {
      FadedKeeps(trail[1..], amount, i - 1);
      assert trail[1..][i - 1] == trail[i];
    }
  }

  /** A point with no more life than the decay is gone: nothing it could become is kept. */
  lemma {:induction false} FadedDrops(trail: seq<Segment>, amount: real, s: Segment)
    requires s in Faded(trail, amount)
    ensures exists i :: 0 <= i < |trail| && trail[i].life > amount && s == Segment(trail[i].at, trail[i].life - amount)
  {
    var t := trail[0];
    var rest := Faded(trail[1..], amount);
    if t.life - amount > 0.0 && s == Segment(t.at, t.life - amount) {
      assert trail[0].life > amount;
    } else {
      FadedDrops(trail[1..], amount, s);
      var j :| 0 <= j < |trail[1..]| && trail[1..][j].life > amount && s == Segment(trail[1..][j].at, trail[1..][j].life - amount);
      assert trail[j + 1] == trail[1..][j];
    }
  }

  /** No index occurs twice. */
  predicate Unrepeated(s: seq<nat>)
  {
    forall i, j :: 0 <= i < j < |s| ==> s[i] != s[j]
  }

  /** Appending indices none of which is already present keeps the list unrepeated. */
  lemma AppendUnrepeated(a: seq<nat>, b: seq<nat>)
    requires Unrepeated(a) && Unrepeated(b)
    requires forall k :: k in b ==> k !in a
    ensures Unrepeated(a + b)
  {
    var ab := a + b;
    forall i, j | 0 <= i < j < |ab|
      ensures ab[i] != ab[j]
    {
      if i < |a| && j >= |a| {
        assert ab[j] == b[j - |a|] && b[j - |a|] in b;
        assert ab[i] == a[i] && a[i] in a;
      } else if i >= |a| {
        assert ab[i] == b[i - |a|] && ab[j] == b[j - |a|];
      }
    }
  }

  // ---------------------------------------------------------------------------
  // What the hunter sees of the bugs

  /** The part of a bug that `consume` reads or writes. */
  datatype Sighting = Sighting(row: int, col: int, at: Point, eaten: bool, respawnAt: real)

  /** The bugs as `consume` sees them. */
  ghost function Sightings(bugs: seq<Bug>): (v: seq<Sighting>)
    reads bugs
    ensures |v| == |bugs|
    ensures forall i :: 0 <= i < |bugs| ==>
              v[i] == Sighting(bugs[i].row, bugs[i].col, bugs[i].position, bugs[i].eaten, bugs[i].respawnAt)
  {
    seq(|bugs|, i reads bugs requires 0 <= i < |bugs| =>
      Sighting(bugs[i].row, bugs[i].col, bugs[i].position, bugs[i].eaten, bugs[i].respawnAt))
  }

  /** The test of `consume`: a bug not yet eaten, closer than `radius` to `at`. */
  predicate InReach(s: Sighting, at: Point, radius: real)
  {
    !s.eaten && Within(s.at, at, radius)
  }

  /** One pass of `consume` from the hunter at `at`: the bugs in reach are eaten and due
      back 4 to 10 seconds after `time`, the others are left as they were, and `caught`
      lists the bugs in reach in order. */
  ghost predicate Consumed(before: seq<Sighting>, after: seq<Sighting>, at: Point, radius: real, time: real, caught: seq<nat>)
  {
    && |after| == |before|
    && (forall i :: 0 <= i < |before| ==> Bitten(before[i], after[i], at, radius, time))
    && (forall i :: i in caught <==> 0 <= i < |before| && InReach(before[i], at, radius))
    && (forall i, j :: 0 <= i < j < |caught| ==> caught[i] < caught[j])
  }

  /** What one step of `consume` does to a bug: one in reach stays where it is, eaten and
      due back 4 to 10 seconds after `time`; any other is left as it was. */
  predicate Bitten(before: Sighting, after: Sighting, at: Point, radius: real, time: real)
  {
    if InReach(before, at, radius) then
      after.row == before.row && after.col == before.col && after.at == before.at &&
      after.eaten && time + 4.0 <= after.respawnAt < time + 10.0
    else after == before
  }

  /** The state of the loop of `consume` before bug `k`: the bugs before `k` are bitten,
      the rest untouched, and `caught` lists the bugs in reach before `k`, in order. */
  ghost predicate ConsumedUpTo(before: seq<Sighting>, now: seq<Sighting>, at: Point, radius: real, time: real,
                               caught: seq<nat>, k: nat)
  {
    && k <= |before| && |now| == |before|
    && (forall i :: 0 <= i < k ==> Bitten(before[i], now[i], at, radius, time))
    && (forall i :: k <= i < |before| ==> now[i] == before[i])
    && (forall i :: i in caught <==> 0 <= i < k && InReach(before[i], at, radius))
    && (forall i, j :: 0 <= i < j < |caught| ==> caught[i] < caught[j])
    && (forall i :: 0 <= i < |caught| ==> caught[i] < k)
  }

  /** One step of the loop of `consume`: biting bug `k`, and listing it when it was in
      reach, moves the loop's state on by one bug; at the end it is a whole pass. */
  lemma ConsumedStep(before: seq<Sighting>, was: seq<Sighting>, now: seq<Sighting>, at: Point, radius: real,
                     time: real, caught: seq<nat>, k: nat, ate: bool)
    requires ConsumedUpTo(before, was, at, radius, time, caught, k) && k < |before|
    requires |now| == |was| && forall i :: 0 <= i < |was| && i != k ==> now[i] == was[i]
    requires Bitten(was[k], now[k], at, radius, time) && ate == InReach(was[k], at, radius)
    ensures var more := if ate then caught + [k] else caught;
              ConsumedUpTo(before, now, at, radius, time, more, k + 1) &&
              (k + 1 == |before| ==> Consumed(before, now, at, radius, time, more))
  {
    var more := if ate then caught + [k] else caught;
    assert was[k] == before[k];
    forall i, j | 0 <= i < j < |more|
      ensures more[i] < more[j]
    {
      if j == |caught| {
        assert more[i] == caught[i];
      }
    }
  }

  /** After a pass of `consume`, no bug left uneaten is in reach. */
  lemma ConsumedClears(before: seq<Sighting>, after: seq<Sighting>, at: Point, radius: real, time: real, caught: seq<nat>)
    requires Consumed(before, after, at, radius, time, caught)
    ensures forall i :: 0 <= i < |after| && !after[i].eaten ==> !Within(after[i].at, at, radius)
  {
    forall i | 0 <= i < |after| && !after[i].eaten
      ensures !Within(after[i].at, at, radius)
    {
      assert !InReach(before[i], at, radius);
    }
  }

  /** Some pass from `spots` had the bug in reach. */
  predicate Reached(s: Sighting, spots: seq<Point>, radius: real)
  {
    exists k :: 0 <= k < |spots| && Within(s.at, spots[k], radius)
  }

  /** The effect of the passes of `consume` in one `update`, from `start` to `now`, made
      from the hunter's positions `spots`: the bugs stay where they are and an eaten bug
      is left alone; a bug not yet eaten is eaten exactly when some pass had it in reach,
      and is then due back 4 to 10 seconds after `time`, and is otherwise left as it was;
      `caught` lists each bug eaten since exactly once. */
  ghost predicate Feeding(start: seq<Sighting>, now: seq<Sighting>, time: real, radius: real, spots: seq<Point>, caught: seq<nat>)
  {
    && |now| == |start|
    && (forall i :: 0 <= i < |start| ==>
          now[i].row == start[i].row && now[i].col == start[i].col && now[i].at == start[i].at)
    && (forall i :: 0 <= i < |start| && start[i].eaten ==> now[i] == start[i])
    && (forall i :: 0 <= i < |start| && !start[i].eaten ==> (now[i].eaten <==> Reached(start[i], spots, radius)))
    && (forall i :: 0 <= i < |start| && !start[i].eaten && now[i].eaten ==>
          time + 4.0 <= now[i].respawnAt < time + 10.0)
    && (forall i :: 0 <= i < |start| && !now[i].eaten ==> now[i] == start[i])
    && (forall i :: i in caught <==> 0 <= i < |start| && !start[i].eaten && now[i].eaten)
    && Unrepeated(caught)
  }

  /** A further pass of `consume` from `at` extends the feeding by the bugs it catches. */
  lemma FeedingConsumed(start: seq<Sighting>, mid: seq<Sighting>, now: seq<Sighting>, at: Point, radius: real,
                        time: real, spots: seq<Point>, caught: seq<nat>, more: seq<nat>)
    requires Feeding(start, mid, time, radius, spots, caught) && Consumed(mid, now, at, radius, time, more)
    ensures Feeding(start, now, time, radius, spots + [at], caught + more)
  {
    forall k | k in more
      ensures k !in caught
    {
      assert InReach(mid[k], at, radius);
    }
    assert Unrepeated(more) by {
      forall i, j | 0 <= i < j < |more|
        ensures more[i] != more[j]
      {
        assert more[i] < more[j];
      }
    }
    AppendUnrepeated(caught, more);
    var later := spots + [at];
    forall i | 0 <= i < |start|
      ensures start[i].eaten ==> now[i] == start[i]
      ensures !start[i].eaten ==> (now[i].eaten <==> Reached(start[i], later, radius))
    {
      if start[i].eaten {
        assert mid[i] == start[i] && !InReach(mid[i], at, radius);
      } else {
        ReachedLater(start[i], spots, at, radius);
      }
    }
  }

  /** Reach from one more position: reach from the earlier ones or from it. */
  lemma ReachedLater(s: Sighting, spots: seq<Point>, at: Point, radius: real)
    ensures Reached(s, spots + [at], radius) <==> Reached(s, spots, radius) || Within(s.at, at, radius)
  {
    var later := spots + [at];
    if Reached(s, spots, radius) {
      var k :| 0 <= k < |spots| && Within(s.at, spots[k], radius);
      assert later[k] == spots[k];
    }
    if Within(s.at, at, radius) {
      assert later[|spots|] == at;
    }
    if Reached(s, later, radius) {
      var k :| 0 <= k < |later| && Within(s.at, later[k], radius);
      if k < |spots| {
        assert later[k] == spots[k];
      }
    }
  }

  /** At the end of the passes, no bug left uneaten is in reach of any of them. */
  lemma FeedingClears(start: seq<Sighting>, now: seq<Sighting>, time: real, radius: real, spots: seq<Point>, caught: seq<nat>)
    requires Feeding(start, now, time, radius, spots, caught)
    ensures forall i, k :: 0 <= i < |now| && !now[i].eaten && 0 <= k < |spots| ==> !Within(now[i].at, spots[k], radius)
  {
    forall i, k | 0 <= i < |now| && !now[i].eaten && 0 <= k < |spots|
      ensures !Within(now[i].at, spots[k], radius)
    {
      assert now[i] == start[i] && !Reached(start[i], spots, radius);
    }
  }

  // ---------------------------------------------------------------------------
  // The hunter

  class Debugger {
    const maze: Maze
    var current: Cell
    var target: Cell
    var direction: Direction
    var progress: real
    const tileSize: real
    var position: Point
    var trail: seq<Segment>

    /** The hunter faces an open neighbour and heads for it, or stands still on a cell
        that has none. */
    ghost predicate Aimed()
      requires maze.Sized()
      reads this, maze.walls
    {
      var options := maze.GetNeighbors(current.row, current.col);
      (direction in options && target == Move(current, direction)) ||
      (options == [] && target == current)
    }

    /** The hunter on its way: on a path cell and aimed, with a bounded trail. */
    ghost predicate Walking()
      reads this, maze.walls
    {
      maze.Walkable() && current in maze.pathCells && Aimed() &&
      0.0 <= progress && |trail| <= MAX_TRAIL && Fading(trail) && tileSize == 24.0
    }

    /** The hunter between two frames: walking, part of the way to its target, and drawn
        where that puts it. */
    ghost predicate Valid()
      reads this, maze.walls
    {
      Walking() && progress < 1.0 &&
      position == Lerp(TileCenter(current.col, current.row, tileSize), TileCenter(target.col, target.row, tileSize), progress)
    }

    /** The constructor: start on a drawn path cell facing right, then choose a
        direction. */
    constructor (maze: Maze, rng: Random)
      requires maze.Walkable() && rng.Valid()
      modifies rng
      ensures Valid() && rng.Valid() && this.maze == maze
      ensures progress == 0.0 && trail == []
    {
      this.maze := maze;
      direction := DIRECTIONS[0];
      tileSize := 24.0;
      trail := [];
      new;
      Relocate(rng);
      ghost var relocated := ChooseNextDirection(rng);
    }

    /** `updatePosition`: the point `progress` of the way from the current tile's
        centre to the target's. */
    method UpdatePosition()
      modifies this`position
      ensures position == Lerp(TileCenter(current.col, current.row, tileSize), TileCenter(target.col, target.row, tileSize), progress)
    {
      position := Lerp(TileCenter(current.col, current.row, tileSize), TileCenter(target.col, target.row, tileSize), progress);
    }

    /** The restart of `chooseNextDirection` on a cell with no open neighbour, which is
        also how the constructor places the hunter: jump to a drawn path cell, aim at
        it and stand on its centre. */
    method Relocate(rng: Random)
      requires maze.Drawable() && rng.Valid()
      modifies this`current, this`target, this`position, this`progress, rng
      ensures rng.Valid() && current in maze.pathCells && current in maze.Pool() && target == current
      ensures progress == 0.0 && position == TileCenter(current.col, current.row, tileSize)
    {
      var restart := maze.GetRandomPathCell(rng);
      current, target := restart, restart;
      position := TileCenter(restart.col, restart.row, tileSize);
      progress := 0.0;
    }

    /** The pick of `chooseNextDirection`: a random one of `options`, not the way back
        unless it is the only one, and the cell it leads to as the target. */
    method Steer(options: seq<Direction>, rng: Random)
      requires |options| > 0 && Distinct(options) && rng.Valid()
      modifies this`direction, this`target, rng
      ensures rng.Valid() && direction in options && target == Move(current, direction)
      ensures |options| > 1 ==> direction != Reverse(old(direction))
    {
      var reverse := Reverse(direction);
      var u := rng.Next();
      PickAvoidsReverse(options, reverse, u);
      direction := Pick(options, reverse, u);
      target := Move(current, direction);
    }

    /** `chooseNextDirection`, corrected: with no open neighbour the hunter relocates to
        a drawn cell once, and stands still there if that cell has none either, where
        the source would call itself again (see `SettlesAsWritten`). Otherwise it steers
        to one of the options. */
    method ChooseNextDirection(rng: Random) returns (ghost relocated: bool)
      requires maze.Drawable() && current in maze.pathCells && rng.Valid()
      modifies this`current, this`target, this`direction, this`position, this`progress, rng
      ensures rng.Valid() && current in maze.pathCells && Aimed()
      ensures relocated <==> old(maze.GetNeighbors(current.row, current.col)) == []
      ensures !relocated ==> current == old(current) && progress == old(progress) && position == old(position)
      ensures relocated ==> progress == 0.0 && position == TileCenter(current.col, current.row, tileSize)
      ensures var options := maze.GetNeighbors(current.row, current.col);
                options == [] ==> target == current && direction == old(direction)
      ensures var options := maze.GetNeighbors(current.row, current.col);
                options != [] ==>
                  direction in options && target == Move(current, direction) &&
                  (|options| > 1 ==> direction != Reverse(old(direction)))
      ensures (exists x :: x in maze.pathCells && |maze.GetNeighbors(x.row, x.col)| > 0) ==>
                maze.GetNeighbors(current.row, current.col) != []
    {
      var options := maze.GetNeighbors(current.row, current.col);
      var stuck := options == [];
      relocated := stuck;
      if stuck {
        Relocate(rng);
        options := maze.GetNeighbors(current.row, current.col);
        if options == [] {
          return;
        }
      }
      NeighborsDistinct(maze, current);
      Steer(options, rng);
    }

    /** `update`: advance by `delta * speed` cells, taking one step of the loop per whole
        cell covered, then settle. `caught` lists the bugs eaten, one `onBugEaten` call
        each; `spots` are the positions the passes of `consume` ate from, in order: where
        the hunter was drawn for every pass of the loop, then where it is drawn now. */
    method Update(delta: real, bugs: seq<Bug>, time: real, rng: Random) returns (caught: seq<nat>, ghost spots: seq<Point>)
      requires Valid() && rng.Valid() && delta >= 0.0
      requires forall i, j :: 0 <= i < j < |bugs| ==> bugs[i] != bugs[j]
      modifies this, bugs, rng
      ensures Valid() && rng.Valid()
      ensures old(progress) + delta * SPEED < 1.0 ==>
                current == old(current) && target == old(target) && direction == old(direction) &&
                progress == old(progress) + delta * SPEED && trail == Faded(old(trail), delta * 0.9) &&
                spots == [position]
      ensures old(progress) + delta * SPEED >= 1.0 ==> |spots| > 1
      ensures forall k :: 0 <= k < |spots| - 1 ==> spots[k] == old(position)
      ensures |spots| > 0 && spots[|spots| - 1] == position
      ensures Feeding(old(Sightings(bugs)), Sightings(bugs), time, CaptureRadius(tileSize), spots, caught)
      ensures var now := Sightings(bugs);
                forall i :: 0 <= i < |now| && !now[i].eaten ==> !Within(now[i].at, position, CaptureRadius(tileSize))
    {
      ghost var start := Sightings(bugs);
      progress := progress + delta * SPEED;
      ghost var walked;
      caught, walked := Walk(bugs, time, rng);
      caught := Settle(delta, bugs, time, rng, start, walked, caught);
      spots := walked + [position];
    }

    /** The loop of `update`: one `Advance` per whole cell of progress. `spots` are the
        positions its passes ate from: each is where the hunter was drawn, since a pass
        that moves the hunter relocates it and so ends the loop. */
    method Walk(bugs: seq<Bug>, time: real, rng: Random) returns (caught: seq<nat>, ghost spots: seq<Point>)
      requires Walking() && rng.Valid()
      requires forall i, j :: 0 <= i < j < |bugs| ==> bugs[i] != bugs[j]
      modifies this, bugs, rng
      ensures Walking() && progress < 1.0 && rng.Valid()
      ensures old(progress) < 1.0 ==>
                current == old(current) && target == old(target) && direction == old(direction) &&
                progress == old(progress) && trail == old(trail) && position == old(position) && spots == []
      ensures old(progress) >= 1.0 ==> |spots| > 0
      ensures forall k :: 0 <= k < |spots| ==> spots[k] == old(position)
      ensures Feeding(old(Sightings(bugs)), Sightings(bugs), time, CaptureRadius(tileSize), spots, caught)
    {
      ghost var start := Sightings(bugs);
      caught, spots := [], [];
      ghost var steps: nat := progress.Floor;
      while progress >= 1.0
        invariant Walking() && rng.Valid() && progress < steps as real + 1.0
        invariant Feeding(start, Sightings(bugs), time, CaptureRadius(tileSize), spots, caught)
        invariant spots == [] ==>
                    current == old(current) && target == old(target) && direction == old(direction) &&
                    progress == old(progress) && trail == old(trail) && position == old(position)
        invariant position != old(position) ==> progress == 0.0
        invariant forall k :: 0 <= k < |spots| ==> spots[k] == old(position)
        invariant old(progress) < 1.0 ==> spots == []
        decreases steps
      {
        ghost var mid := Sightings(bugs);
        ghost var at := position;
        var more := Advance(bugs, time, rng);
        FeedingConsumed(start, mid, Sightings(bugs), at, CaptureRadius(tileSize), time, spots, caught, more);
        caught, spots := caught + more, spots + [at];
        steps := steps - 1;
      }
    }

    /** One pass of the loop of `update`: arrive at the target, leave a trail point where
        the hunter was last drawn, eat from there, and choose again. */
    method Advance(bugs: seq<Bug>, time: real, rng: Random) returns (more: seq<nat>)
      requires Walking() && progress >= 1.0 && rng.Valid()
      requires forall i, j :: 0 <= i < j < |bugs| ==> bugs[i] != bugs[j]
      modifies this, bugs, rng
      ensures Walking() && rng.Valid() && progress <= old(progress) - 1.0
      ensures current == old(target) || progress == 0.0
      ensures position == old(position) || progress == 0.0
      ensures trail == Pushed(old(trail), Segment(old(position), TRAIL_LIFE))
      ensures Consumed(old(Sightings(bugs)), Sightings(bugs), old(position), CaptureRadius(tileSize), time, more)
    {
      ghost var before, at := Sightings(bugs), position;
      Arrive();
      assert Sightings(bugs) == before;
      more := Consume(bugs, time, rng);
      ghost var seen := Sightings(bugs);
      assert Consumed(before, seen, at, CaptureRadius(tileSize), time, more);
      ghost var relocated := ChooseNextDirection(rng);
      assert Sightings(bugs) == seen;
    }

    /** The head of a pass of the loop of `update`: one step of progress is spent on
        reaching the target, and a trail point is left where the hunter was drawn. */
    method Arrive()
      requires Walking() && progress >= 1.0
      modifies this`progress, this`current, this`trail
      ensures progress == old(progress) - 1.0 && current == old(target) && current in maze.pathCells
      ensures trail == Pushed(old(trail), Segment(position, TRAIL_LIFE))
    {
      ArrivesOnPath();
      progress, current, trail := progress - 1.0, target, Pushed(trail, Segment(position, TRAIL_LIFE));
    }

    /** The target of an aimed hunter is a path cell. */
    lemma ArrivesOnPath()
      requires Walking()
      ensures target in maze.pathCells
    {
      if target != current {
        maze.NeighborsOpen(current.row, current.col);
        assert maze.IsOpen(target.row, target.col);
      }
    }

    /** The end of `update`: draw the hunter where its progress puts it, fade the trail,
        and eat from there: `caught` is the `earlier` catches of this update, from
        `spots`, followed by the bugs in reach of the new position. */
    method Settle(delta: real, bugs: seq<Bug>, time: real, rng: Random, ghost start: seq<Sighting>,
                  ghost spots: seq<Point>, earlier: seq<nat>)
      returns (caught: seq<nat>)
      requires Walking() && progress < 1.0 && rng.Valid() && delta >= 0.0
      requires forall i, j :: 0 <= i < j < |bugs| ==> bugs[i] != bugs[j]
      requires Feeding(start, Sightings(bugs), time, CaptureRadius(tileSize), spots, earlier)
      modifies this`position, this`trail, bugs, rng
      ensures Valid() && rng.Valid() && trail == Faded(old(trail), delta * 0.9)
      ensures |earlier| <= |caught| && caught[..|earlier|] == earlier
      ensures Consumed(old(Sightings(bugs)), Sightings(bugs), position, CaptureRadius(tileSize), time, caught[|earlier|..])
      ensures Feeding(start, Sightings(bugs), time, CaptureRadius(tileSize), spots + [position], caught)
      ensures var now := Sightings(bugs);
                forall i :: 0 <= i < |now| && !now[i].eaten ==> !Within(now[i].at, position, CaptureRadius(tileSize))
    {
      UpdatePosition();
      trail := Faded(trail, delta * 0.9);
      ghost var mid := Sightings(bugs);
      var more := Consume(bugs, time, rng);
      ghost var now := Sightings(bugs);
      FeedingConsumed(start, mid, now, position, CaptureRadius(tileSize), time, spots, earlier, more);
      ConsumedClears(mid, now, position, CaptureRadius(tileSize), time, more);
      caught := earlier + more;
      assert caught[|earlier|..] == more;
    }

    /** `consume`: every bug that is not eaten and lies within 45% of a tile of the
        hunter is marked eaten; `caught` lists them in order, one `onBugEaten` call
        each. */
    method Consume(bugs: seq<Bug>, time: real, rng: Random) returns (caught: seq<nat>)
      requires rng.Valid()
      requires forall i, j :: 0 <= i < j < |bugs| ==> bugs[i] != bugs[j]
      modifies bugs, rng
      ensures rng.Valid()
      ensures Consumed(old(Sightings(bugs)), Sightings(bugs), position, CaptureRadius(tileSize), time, caught)
    {
      ghost var before := Sightings(bugs);
      var radius := CaptureRadius(tileSize);
      caught := [];
      var k := 0;
      while k < |bugs|
        invariant 0 <= k <= |bugs| && rng.Valid()
        invariant ConsumedUpTo(before, Sightings(bugs), position, radius, time, caught, k)
      {
        ghost var was := Sightings(bugs);
        var ate := Bite(bugs, k, time, radius, rng);
        ConsumedStep(before, was, Sightings(bugs), position, radius, time, caught, k, ate);
        if ate {
          caught := caught + [k];
        }
        k := k + 1;
      }
    }

    /** One step of `consume`: bug `k` is eaten when it is not yet and is within `radius`
        of the hunter; no other bug changes. */
    method Bite(bugs: seq<Bug>, k: nat, time: real, radius: real, rng: Random) returns (ate: bool)
      requires k < |bugs| && rng.Valid()
      requires forall i, j :: 0 <= i < j < |bugs| ==> bugs[i] != bugs[j]
      modifies bugs[k], rng
      ensures rng.Valid()
      ensures ate == InReach(old(Sightings(bugs))[k], position, radius)
      ensures Bitten(old(Sightings(bugs))[k], Sightings(bugs)[k], position, radius, time)
      ensures forall i :: 0 <= i < |bugs| && i != k ==> Sightings(bugs)[i] == old(Sightings(bugs))[i]
    {
      var bug := bugs[k];
      ate := !bug.eaten && Within(bug.position, position, radius);
      if ate {
        bug.MarkEaten(time, rng);
      }
    }
  }
}
