/** The `Maze` class of src/screensaver.js: a grid of `"#"`/`"."` cells carved by a
    randomized depth-first search, with extra loops and a central room, and the
    queries the hunter and the bugs ask of it. */
module Mazes {
  import opened Grid
  import opened Oracle
  import Geometry

  /** The room test of `addRooms` on squares agrees with `Math.hypot(dr, dc) <= radius`
      for the true distance `d` of the cell from the centre. */
  lemma InRoomIsHypot(rows: nat, cols: nat, r: int, c: int, d: real)
    requires d >= 0.0 && d * d == ((r - rows / 2) * (r - rows / 2) + (c - cols / 2) * (c - cols / 2)) as real
    ensures InRoom(rows, cols, r, c) <==>
              0 < r < rows - 1 && 0 < c < cols - 1 && d <= RoomRadius(rows, cols) as real
  {
    var rad := RoomRadius(rows, cols);
    var radius := rad as real;
    assert (rad * rad) as real == radius * radius;
    if d <= radius {
      Geometry.SquareMonotone(d, radius);
    } else {
      Geometry.SquareMonotone(radius, d);
    }
  }

  /** `n % 2 === 0 ? n + 1 : n`: the smallest odd number not below `n`. */
  function OddUp(n: int): (r: int)
    ensures r % 2 == 1
    ensures n <= r <= n + 1
  {
    if n % 2 == 0 then n + 1 else n
  }

  /** `Math.floor((rows * cols) * 0.12)`, on exact numbers. */
  function LoopAttempts(rows: nat, cols: nat): (n: nat)
    ensures n * 100 <= rows * cols * 12 < (n + 1) * 100
  {
    (rows * cols * 12) / 100
  }

  /** The carving steps of `ds` that qualify from `x`, in order (the `filter` of
      `generateLayout`). */
  function Candidates(g: array2<char>, x: Cell, ds: seq<CarveStep>): (r: seq<CarveStep>)
    reads g
    ensures forall d :: d in r <==> d in ds && Qualifies(g, x, d)
    ensures r != [] ==> exists k :: 0 <= k < |ds| && r[0] == ds[k] && forall j :: 0 <= j < k ==> !Qualifies(g, x, ds[j])
  {
    if ds == [] then []
    else if Qualifies(g, x, ds[0]) then [ds[0]] + Candidates(g, x, ds[1..])
    else
      var rest := Candidates(g, x, ds[1..]);
      assert rest != [] ==> exists k :: 0 <= k < |ds| && rest[0] == ds[k] && forall j :: 0 <= j < k ==> !Qualifies(g, x, ds[j]) by {
        if rest != [] {
          var k :| 0 <= k < |ds| - 1 && rest[0] == ds[1..][k] && forall j :: 0 <= j < k ==> !Qualifies(g, x, ds[1..][j]);
          assert rest[0] == ds[k + 1];
          assert forall j :: 0 <= j < k + 1 ==> !Qualifies(g, x, ds[j]) by {
            forall j | 0 <= j < k + 1 ensures !Qualifies(g, x, ds[j]) {
              if j > 0 { assert ds[j] == ds[1..][j - 1]; }
            }
          }
        }
      }
      rest
  }

  /** The `shuffle` closure: Fisher-Yates in place. */
  method Shuffle(a: array<CarveStep>, rng: Random)
    requires rng.Valid()
    modifies a, rng
    ensures rng.Valid()
    ensures multiset(a[..]) == old(multiset(a[..]))
  {
    var i := a.Length - 1;
    while i > 0
      invariant -1 <= i < a.Length
      invariant rng.Valid()
      invariant multiset(a[..]) == old(multiset(a[..]))
    {
      var j := rng.Below(i + 1);
      a[i], a[j] := a[j], a[i];
      i := i - 1;
    }
  }

  /** `shuffle(carveDirs.slice())`: a shuffled copy of `CARVE_DIRS`. */
  method ShuffledCarveDirs(rng: Random) returns (ds: seq<CarveStep>)
    requires rng.Valid()
    modifies rng
    ensures rng.Valid()
    ensures multiset(ds) == multiset(CARVE_DIRS)
  {
    var a := new CarveStep[4](i requires 0 <= i < 4 => CARVE_DIRS[i]);
    assert a[..] == CARVE_DIRS;
    Shuffle(a, rng);
    ds := a[..];
  }

  /** Row-major order of cells. */
  predicate Before(a: Cell, b: Cell)
  {
    a.row < b.row || (a.row == b.row && a.col < b.col)
  }

  /** `cells` lists exactly the open cells of `g`, in row-major order. */
  ghost predicate RowMajorOpen(g: array2<char>, cells: seq<Cell>)
    reads g
  {
    (forall i :: 0 <= i < |cells| ==> OpenAt(g, cells[i])) &&
    (forall x :: OpenAt(g, x) ==> x in cells) &&
    (forall i, j :: 0 <= i < j < |cells| ==> Before(cells[i], cells[j]))
  }

  /** Blocked cell `(r, c)` lies between two open cells, vertically or horizontally
      (the test of `addLoops`). */
  predicate Bridges(g: array2<char>, r: int, c: int)
    reads g
  {
    0 < r < g.Length0 - 1 && 0 < c < g.Length1 - 1 &&
    ((g[r - 1, c] == FLOOR && g[r + 1, c] == FLOOR) || (g[r, c - 1] == FLOOR && g[r, c + 1] == FLOOR))
  }

  /** `grid[x.row][x.col] = "."`, with the rank witness extended through the already
      open neighbour `via` when `x` was blocked (writing `"."` over `"."` changes
      nothing, so an open cell is left as it is). */
  method OpenCell(grid: array2<char>, x: Cell, ghost rank0: map<Cell, nat>, ghost via: Cell)
    returns (ghost rank: map<Cell, nat>)
    requires Interior(grid, x) && Binary(grid) && BorderBlocked(grid) && Rooted(grid, rank0)
    requires OpenAt(grid, via) && Adjacent(x, via)
    modifies grid
    ensures grid[x.row, x.col] == FLOOR
    ensures forall r, c :: 0 <= r < grid.Length0 && 0 <= c < grid.Length1 && (r != x.row || c != x.col) ==> grid[r, c] == old(grid[r, c])
    ensures Binary(grid) && BorderBlocked(grid) && Rooted(grid, rank)
    ensures rank == if old(grid[x.row, x.col]) == WALL then rank0[x := rank0[via] + 1] else rank0
  {
    assert via in rank0 && via != x;
    rank := rank0;
    if grid[x.row, x.col] == FLOOR {
      return;
    }
    assert x !in rank0;
    rank := rank0[x := rank0[via] + 1];
    grid[x.row, x.col] := FLOOR;
    assert forall r, c :: 0 <= r < grid.Length0 && 0 <= c < grid.Length1 && grid[r, c] != WALL ==> Cell(r, c) in rank by {
      forall r, c | 0 <= r < grid.Length0 && 0 <= c < grid.Length1 && grid[r, c] != WALL
        ensures Cell(r, c) in rank
      {
        if r != x.row || c != x.col {
          assert old(grid[r, c]) != WALL;
        }
      }
    }
    assert RankedTree(grid, rank) by {
      forall y | y in rank
        ensures OpenAt(grid, y) && (y == Start || HasLower(rank, y))
      {
        if y != x {
          assert y in rank0;
          if y != Start {
            var z := LowerNeighbour(rank0, y);
            assert LowerVia(rank, y, z);
          }
        } else {
          assert LowerVia(rank, x, via);
        }
      }
    }
  }

  /** One attempt of `addLoops` at interior cell `(r, c)`: a blocked cell between two
      open cells is opened; nothing else changes. */
  method TryBridge(grid: array2<char>, r: int, c: int, ghost rank0: map<Cell, nat>) returns (ghost rank: map<Cell, nat>)
    requires 0 < r < grid.Length0 - 1 && 0 < c < grid.Length1 - 1
    requires Binary(grid) && BorderBlocked(grid) && Rooted(grid, rank0)
    modifies grid
    ensures Binary(grid) && BorderBlocked(grid) && Rooted(grid, rank)
    ensures forall i, j :: 0 <= i < grid.Length0 && 0 <= j < grid.Length1 && Cell(i, j) != Cell(r, c) ==> grid[i, j] == old(grid[i, j])
    ensures grid[r, c] == if old(grid[r, c]) == WALL && old(Bridges(grid, r, c)) then FLOOR else old(grid[r, c])
    ensures grid[r, c] != old(grid[r, c]) ==> Bridges(grid, r, c)
    ensures forall i, j :: 0 <= i < grid.Length0 && 0 <= j < grid.Length1 && old(grid[i, j]) == FLOOR ==> grid[i, j] == FLOOR
  {
    rank := rank0;
    if grid[r, c] != WALL {
      return;
    }
    var vertical := grid[r - 1, c] == FLOOR && grid[r + 1, c] == FLOOR;
    var horizontal := grid[r, c - 1] == FLOOR && grid[r, c + 1] == FLOOR;
    if vertical || horizontal {
      var via := if vertical then Cell(r - 1, c) else Cell(r, c - 1);
      rank := OpenCell(grid, Cell(r, c), rank, via);
    }
  }

  /** A carving step from a lattice cell lands on a lattice cell two cells away, through
      a cell that is not on the lattice. */
  lemma CarveGeometry(x: Cell, d: CarveStep)
    requires Lattice(x) && d in CARVE_DIRS
    ensures var between := Cell(x.row + d.dr / 2, x.col + d.dc / 2);
      var next := Cell(x.row + d.dr, x.col + d.dc);
      Lattice(next) && !Lattice(between) && Adjacent(between, x) && Adjacent(next, between)
  {
    var a, b := x.row, x.col;
    assert (a + 2) % 2 == 1 && (a - 2) % 2 == 1 && (b + 2) % 2 == 1 && (b - 2) % 2 == 1;
    assert (a + 1) % 2 == 0 && (a - 1) % 2 == 0 && (b + 1) % 2 == 0 && (b - 1) % 2 == 0;
  }

  /** The loop invariant of the depth-first search: every stacked cell is an open
      lattice cell, every open lattice cell off the stack has no carving move left, and
      every blocked interior cell is still unvisited. */
  ghost predicate SearchState(g: array2<char>, stack: seq<Cell>, rank: map<Cell, nat>, unvisited: set<Cell>)
    reads g
  {
    Binary(g) && BorderBlocked(g) && OpenAt(g, Start) && Rooted(g, rank) &&
    (forall k :: 0 <= k < |stack| ==> Interior(g, stack[k]) && Lattice(stack[k]) && OpenAt(g, stack[k])) &&
    (forall r, c :: Interior(g, Cell(r, c)) && Lattice(Cell(r, c)) && g[r, c] != WALL && Cell(r, c) !in stack ==>
       Explored(g, Cell(r, c))) &&
    (forall r, c :: Interior(g, Cell(r, c)) && g[r, c] == WALL ==> Cell(r, c) in unvisited)
  }

  /** Popping an explored cell keeps the search invariant. */
  lemma PopKeeps(g: array2<char>, stack: seq<Cell>, rank: map<Cell, nat>, unvisited: set<Cell>)
    requires SearchState(g, stack, rank, unvisited) && |stack| > 0 && Explored(g, stack[|stack| - 1])
    ensures SearchState(g, stack[..|stack| - 1], rank, unvisited)
  {
    var rest := stack[..|stack| - 1];
    forall r, c | Interior(g, Cell(r, c)) && Lattice(Cell(r, c)) && g[r, c] != WALL && Cell(r, c) !in rest
      ensures Explored(g, Cell(r, c))
    {
      if Cell(r, c) in stack {
        var k :| 0 <= k < |stack| && stack[k] == Cell(r, c);
        assert forall j :: 0 <= j < |rest| ==> rest[j] == stack[j];
        assert k == |stack| - 1;
      }
    }
  }

  /** A carve (two cells opened, the second one the unvisited lattice cell `next`) keeps
      the search invariant once `next` is pushed and leaves the unvisited set. */
  twostate lemma CarveKeeps(g: array2<char>, new stack: seq<Cell>, new rank0: map<Cell, nat>,
                            new rank: map<Cell, nat>, new unvisited: set<Cell>, new next: Cell, new between: Cell)
    requires old(SearchState(g, stack, rank0, unvisited)) && next in unvisited
    requires Binary(g) && BorderBlocked(g) && Rooted(g, rank) && Lattice(next) && OpenAt(g, next) && !Lattice(between)
    requires forall r, c :: 0 <= r < g.Length0 && 0 <= c < g.Length1 && old(g[r, c]) != g[r, c] ==>
               g[r, c] == FLOOR && (Cell(r, c) == next || Cell(r, c) == between)
    ensures SearchState(g, stack + [next], rank, unvisited - {next})
  {
    var s := stack + [next];
    forall k | 0 <= k < |s|
      ensures Interior(g, s[k]) && Lattice(s[k]) && OpenAt(g, s[k])
    {
      if k < |stack| {
        assert s[k] == stack[k];
        assert old(OpenAt(g, stack[k]));
      }
    }
    forall r, c | Interior(g, Cell(r, c)) && Lattice(Cell(r, c)) && g[r, c] != WALL && Cell(r, c) !in s
      ensures Explored(g, Cell(r, c))
    {
      assert Cell(r, c) !in stack;
      ExploredStays(g, Cell(r, c));
    }
    forall r, c | Interior(g, Cell(r, c)) && g[r, c] == WALL
      ensures Cell(r, c) in unvisited - {next}
    {
      assert old(g[r, c]) == WALL;
    }
  }

  /** One turn of the depth-first loop of `generateLayout`: carve from the top of the
      stack towards the first qualifying step of a shuffled `CARVE_DIRS`, or pop it. */
  method SearchStep(grid: array2<char>, stack0: seq<Cell>, ghost rank0: map<Cell, nat>, ghost unvisited0: set<Cell>, rng: Random)
    returns (stack: seq<Cell>, ghost rank: map<Cell, nat>, ghost unvisited: set<Cell>)
    requires |stack0| > 0 && rng.Valid() && SearchState(grid, stack0, rank0, unvisited0)
    modifies grid, rng
    ensures rng.Valid() && SearchState(grid, stack, rank, unvisited)
    ensures unvisited < unvisited0 || (unvisited == unvisited0 && |stack| < |stack0|)
  {
    var current := stack0[|stack0| - 1];
    var dirs := ShuffledCarveDirs(rng);
    var neighbors := Candidates(grid, current, dirs);
    if |neighbors| == 0 {
      forall d | d in CARVE_DIRS
        ensures !Qualifies(grid, current, d)
      {
        assert d in multiset(dirs);
      }
      PopKeeps(grid, stack0, rank0, unvisited0);
      stack, rank, unvisited := stack0[..|stack0| - 1], rank0, unvisited0;
    } else {
      var dir := neighbors[0];
      assert dir in CARVE_DIRS by {
        assert dir in multiset(dirs);
      }
      ghost var target := Cell(current.row + dir.dr, current.col + dir.dc);
      assert Qualifies(grid, current, dir);
      assert Interior(grid, target) && grid[target.row, target.col] == WALL;
      assert target in unvisited0;
      label Carving:
      var next;
      next, rank := Carve(grid, current, dir, rank0);
      CarveKeeps@Carving(grid, stack0, rank0, rank, unvisited0, next, Cell(current.row + dir.dr / 2, current.col + dir.dc / 2));
      stack, unvisited := stack0 + [next], unvisited0 - {next};
    }
  }

  /** The carving branch of `generateLayout`: open the cell between `current` and
      `current + dir`, then `current + dir` itself. */
  method Carve(grid: array2<char>, current: Cell, dir: CarveStep, ghost rank0: map<Cell, nat>)
    returns (next: Cell, ghost rank: map<Cell, nat>)
    requires Interior(grid, current) && Lattice(current) && dir in CARVE_DIRS && Qualifies(grid, current, dir)
    requires Binary(grid) && BorderBlocked(grid) && Rooted(grid, rank0) && OpenAt(grid, current)
    modifies grid
    ensures next == Cell(current.row + dir.dr, current.col + dir.dc)
    ensures Binary(grid) && BorderBlocked(grid) && Rooted(grid, rank)
    ensures Lattice(next) && OpenAt(grid, next)
    ensures var between := Cell(current.row + dir.dr / 2, current.col + dir.dc / 2);
      Interior(grid, between) && !Lattice(between) && grid[between.row, between.col] == FLOOR
    ensures forall r, c :: 0 <= r < grid.Length0 && 0 <= c < grid.Length1 && old(grid[r, c]) != grid[r, c] ==>
              grid[r, c] == FLOOR && (Cell(r, c) == next || Cell(r, c) == Cell(current.row + dir.dr / 2, current.col + dir.dc / 2))
  {
    var betweenRow := current.row + dir.dr / 2;
    var betweenCol := current.col + dir.dc / 2;
    next := Cell(current.row + dir.dr, current.col + dir.dc);
    var between := Cell(betweenRow, betweenCol);
    CarveGeometry(current, dir);
    rank := OpenCell(grid, between, rank0, current);
    rank := OpenCell(grid, next, rank, between);
  }

  /** Opening cells never gives an explored lattice cell a new carving move. */
  twostate lemma ExploredStays(g: array2<char>, new x: Cell)
    requires old(Explored(g, x))
    requires forall r, c :: 0 <= r < g.Length0 && 0 <= c < g.Length1 && old(g[r, c]) != WALL ==> g[r, c] != WALL
    ensures Explored(g, x)
  {
    forall d | d in CARVE_DIRS
      ensures !Qualifies(g, x, d)
    {
      assert old(!Qualifies(g, x, d));
    }
  }

  /** Opening the room of a grid whose lattice is open and whose cells are rooted keeps
      the grid connected. */
  twostate lemma RoomConnected(g: array2<char>, new rank0: map<Cell, nat>)
    requires g.Length0 >= 3 && g.Length1 >= 3 && g.Length0 % 2 == 1 && g.Length1 % 2 == 1
    requires old(Binary(g) && BorderBlocked(g) && Rooted(g, rank0))
    requires old(forall r, c :: Interior(g, Cell(r, c)) && Lattice(Cell(r, c)) ==> g[r, c] != WALL)
    requires forall r, c :: 0 <= r < g.Length0 && 0 <= c < g.Length1 ==>
               g[r, c] == if InRoom(g.Length0, g.Length1, r, c) then FLOOR else old(g[r, c])
    ensures Binary(g) && BorderBlocked(g) && OpenAt(g, Start)
    ensures forall r, c :: Interior(g, Cell(r, c)) && Lattice(Cell(r, c)) ==> g[r, c] != WALL
    ensures forall r, c :: InRoom(g.Length0, g.Length1, r, c) ==> g[r, c] != WALL
    ensures Connected(g)
  {
    RoomKeepsBorder(g);
    forall x | x in rank0
      ensures OpenAt(g, x) && (x == Start || HasLower(rank0, x))
    {
      assert old(OpenAt(g, x));
    }
    forall r, c | Interior(g, Cell(r, c)) && Lattice(Cell(r, c))
      ensures Cell(r, c) in rank0 && g[r, c] != WALL
    {
      assert old(g[r, c] != WALL);
    }
    forall r, c | 0 <= r < g.Length0 && 0 <= c < g.Length1 && g[r, c] != WALL && !InRoom(g.Length0, g.Length1, r, c)
      ensures Cell(r, c) in rank0
    {
      assert old(g[r, c] != WALL);
    }
    var rank := RoomRooted(g, rank0);
    RootedConnected(g, rank);
  }

  /** Opening the room keeps every cell `"#"` or `"."` and the border blocked. */
  twostate lemma RoomKeepsBorder(g: array2<char>)
    requires old(Binary(g) && BorderBlocked(g))
    requires forall r, c :: 0 <= r < g.Length0 && 0 <= c < g.Length1 ==>
               g[r, c] == if InRoom(g.Length0, g.Length1, r, c) then FLOOR else old(g[r, c])
    ensures Binary(g) && BorderBlocked(g)
  {
    forall r, c | 0 <= r < g.Length0 && 0 <= c < g.Length1
      ensures g[r, c] == WALL || g[r, c] == FLOOR
      ensures !Interior(g, Cell(r, c)) ==> g[r, c] == WALL
    {
      if !InRoom(g.Length0, g.Length1, r, c) {
        assert old(g[r, c] == WALL || g[r, c] == FLOOR);
      }
    }
  }

  /** Opening cells never undoes a bridge. */
  twostate lemma BridgesStay(g: array2<char>, new i: int, new j: int)
    requires old(Bridges(g, i, j))
    requires forall r, c :: 0 <= r < g.Length0 && 0 <= c < g.Length1 && old(g[r, c]) == FLOOR ==> g[r, c] == FLOOR
    ensures Bridges(g, i, j)
  {
  }

  class Maze {
    const rows: int
    const cols: int
    const walls: array2<char>
    const pathCells: seq<Cell>

    /** The grid has the maze's dimensions. */
    ghost predicate Sized()
      reads {}
    {
      walls.Length0 == rows && walls.Length1 == cols
    }

    /** Enough for drawing a cell: the grid has the maze's size and some cell is a path
        cell. */
    ghost predicate Drawable()
      reads {}
    {
      Sized() && |pathCells| > 0
    }

    ghost predicate Valid()
      reads walls
    {
      Sized() &&
      rows >= 3 && cols >= 3 && rows % 2 == 1 && cols % 2 == 1 &&
      Binary(walls) && BorderBlocked(walls) && OpenAt(walls, Start) &&
      Connected(walls) && RowMajorOpen(walls, pathCells)
    }

    /** The source needs at least two rows and two columns: with fewer, `grid[1]` does
        not exist. */
    constructor (rows0: int, cols0: int, rng: Random)
      requires rows0 >= 2 && cols0 >= 2 && rng.Valid()
      modifies rng
      ensures Valid() && rng.Valid() && fresh(walls)
      ensures rows == OddUp(rows0) && cols == OddUp(cols0)
      ensures forall r, c :: Interior(walls, Cell(r, c)) && Lattice(Cell(r, c)) ==> walls[r, c] != WALL
      ensures forall r, c :: InRoom(rows, cols, r, c) ==> walls[r, c] != WALL
    {
      var r := OddUp(rows0);
      var c := OddUp(cols0);
      var g := GenerateLayout(r, c, rng);
      var cells := CollectPathCells(g);
      rows, cols, walls, pathCells := r, c, g, cells;
    }

    /** `generateLayout`: randomized depth-first carving over the odd lattice from
        (1, 1), then `addLoops` and `addRooms`. */
    static method GenerateLayout(rows: int, cols: int, rng: Random) returns (grid: array2<char>)
      requires rows >= 3 && cols >= 3 && rows % 2 == 1 && cols % 2 == 1 && rng.Valid()
      modifies rng
      ensures fresh(grid) && rng.Valid()
      ensures grid.Length0 == rows && grid.Length1 == cols
      ensures Binary(grid) && BorderBlocked(grid) && OpenAt(grid, Start)
      ensures forall r, c :: Interior(grid, Cell(r, c)) && Lattice(Cell(r, c)) ==> grid[r, c] != WALL
      ensures forall r, c :: InRoom(rows, cols, r, c) ==> grid[r, c] != WALL
      ensures Connected(grid)
    {
      grid := new char[rows, cols]((_, _) => WALL);
      grid[Start.row, Start.col] := FLOOR;
      ghost var rank := CarvePassages(grid, rng);
      rank := AddLoops(grid, LoopAttempts(rows, cols), rng, rank);
      label Loops:
      AddRooms(grid);
      RoomConnected@Loops(grid, rank);
    }

    /** The depth-first loop of `generateLayout`: from the top of the stack, carve two
        cells towards the first qualifying step of a shuffled `CARVE_DIRS`, or pop. */
    static method CarvePassages(grid: array2<char>, rng: Random) returns (ghost rank: map<Cell, nat>)
      requires grid.Length0 >= 3 && grid.Length1 >= 3 && rng.Valid()
      requires forall r, c :: 0 <= r < grid.Length0 && 0 <= c < grid.Length1 ==> grid[r, c] == if Cell(r, c) == Start then FLOOR else WALL
      modifies grid, rng
      ensures rng.Valid() && Binary(grid) && BorderBlocked(grid) && Rooted(grid, rank) && OpenAt(grid, Start)
      ensures forall r, c :: Interior(grid, Cell(r, c)) && Lattice(Cell(r, c)) ==> grid[r, c] != WALL
    {
      var stack := [Start];
      rank := map[Start := 0];
      ghost var unvisited := (set r, c | 0 < r < grid.Length0 - 1 && 0 < c < grid.Length1 - 1 :: Cell(r, c)) - {Start};
      while |stack| > 0
        invariant rng.Valid() && SearchState(grid, stack, rank, unvisited)
        decreases unvisited, |stack|
      {
        stack, rank, unvisited := SearchStep(grid, stack, rank, unvisited, rng);
      }
      AllLatticeOpen(grid);
    }

    /** `addLoops`: `attempts` random interior cells; a blocked one is opened when it
        joins two open cells vertically or horizontally. */
    static method AddLoops(grid: array2<char>, attempts: int, rng: Random, ghost rank0: map<Cell, nat>)
      returns (ghost rank: map<Cell, nat>)
      requires grid.Length0 >= 3 && grid.Length1 >= 3 && rng.Valid()
      requires Binary(grid) && BorderBlocked(grid) && Rooted(grid, rank0)
      modifies grid, rng
      ensures rng.Valid() && Binary(grid) && BorderBlocked(grid) && Rooted(grid, rank)
      ensures forall r, c :: 0 <= r < grid.Length0 && 0 <= c < grid.Length1 ==>
                grid[r, c] == old(grid[r, c]) || (old(grid[r, c]) == WALL && grid[r, c] == FLOOR && Bridges(grid, r, c))
    {
      var rows := grid.Length0;
      var cols := grid.Length1;
      rank := rank0;
      var i := 0;
      while i < attempts
        invariant rng.Valid() && Binary(grid) && BorderBlocked(grid) && Rooted(grid, rank)
        invariant forall r, c :: 0 <= r < rows && 0 <= c < cols ==>
                    grid[r, c] == old(grid[r, c]) || (old(grid[r, c]) == WALL && grid[r, c] == FLOOR && Bridges(grid, r, c))
      {
        var dr := rng.Below(rows - 2);
        var dc := rng.Below(cols - 2);
        var r, c := 1 + dr, 1 + dc;
        label Attempt:
        rank := TryBridge(grid, r, c, rank);
        forall i, j | 0 <= i < rows && 0 <= j < cols && grid[i, j] != old(grid[i, j])
          ensures old(grid[i, j]) == WALL && grid[i, j] == FLOOR && Bridges(grid, i, j)
        {
          if grid[i, j] == old@Attempt(grid[i, j]) {
            BridgesStay@Attempt(grid, i, j);
          }
        }
        i := i + 1;
      }
    }

    /** `addRooms`: open every interior cell within `RoomRadius` of the centre. */
    static method AddRooms(grid: array2<char>)
      modifies grid
      ensures forall r, c :: 0 <= r < grid.Length0 && 0 <= c < grid.Length1 ==>
                grid[r, c] == if InRoom(grid.Length0, grid.Length1, r, c) then FLOOR else old(grid[r, c])
    {
      var rows := grid.Length0;
      var cols := grid.Length1;
      var radius := RoomRadius(rows, cols);
      var centreRow := rows / 2;
      var centreCol := cols / 2;
      forall i, j | InRoom(rows, cols, i, j)
        ensures centreRow - radius <= i && centreCol - radius <= j
      {
        RoomBand(rows, cols, i, j);
      }
      var r := centreRow - radius;
      while r <= centreRow + radius
        invariant centreRow - radius <= r <= centreRow + radius + 1
        invariant forall i, j :: 0 <= i < rows && 0 <= j < cols ==>
                    grid[i, j] == if InRoom(rows, cols, i, j) && i < r then FLOOR else old(grid[i, j])
      {
        var c := centreCol - radius;
        while c <= centreCol + radius
          invariant centreCol - radius <= c <= centreCol + radius + 1
          invariant forall i, j :: 0 <= i < rows && 0 <= j < cols ==>
                      grid[i, j] == if InRoom(rows, cols, i, j) && (i < r || (i == r && j < c)) then FLOOR else old(grid[i, j])
        {
          // the interior test and `Math.hypot(r - centerRow, c - centerCol) <= radius`
          label Scan:
          if InRoom(rows, cols, r, c) {
            grid[r, c] := FLOOR;
          }
          forall i, j | 0 <= i < rows && 0 <= j < cols && Cell(i, j) != Cell(r, c)
            ensures grid[i, j] == old@Scan(grid[i, j])
          {
          }
          c := c + 1;
        }
        forall j | 0 <= j < cols && InRoom(rows, cols, r, j)
          ensures j < c
        {
          RoomBand(rows, cols, r, j);
        }
        r := r + 1;
      }
      forall i, j | 0 <= i < rows && 0 <= j < cols && InRoom(rows, cols, i, j)
        ensures i < r
      {
        RoomBand(rows, cols, i, j);
      }
    }

    /** `collectPathCells`: the open cells in row-major order. */
    static method CollectPathCells(g: array2<char>) returns (cells: seq<Cell>)
      ensures RowMajorOpen(g, cells)
    {
      cells := [];
      var r := 0;
      while r < g.Length0
        invariant 0 <= r <= g.Length0
        invariant forall i :: 0 <= i < |cells| ==> OpenAt(g, cells[i]) && cells[i].row < r
        invariant forall x :: OpenAt(g, x) && x.row < r ==> x in cells
        invariant forall i, j :: 0 <= i < j < |cells| ==> Before(cells[i], cells[j])
      {
        var c := 0;
        while c < g.Length1
          invariant 0 <= c <= g.Length1
          invariant forall i :: 0 <= i < |cells| ==> OpenAt(g, cells[i]) && Before(cells[i], Cell(r, c))
          invariant forall x :: OpenAt(g, x) && Before(x, Cell(r, c)) ==> x in cells
          invariant forall i, j :: 0 <= i < j < |cells| ==> Before(cells[i], cells[j])
        {
          if g[r, c] != WALL {
            cells := cells + [Cell(r, c)];
          }
          c := c + 1;
        }
        r := r + 1;
      }
    }

    /** `isOpen`: false off the grid, otherwise whether the cell is not `"#"`. */
    function IsOpen(row: int, col: int): (b: bool)
      requires Sized()
      reads walls
      ensures b <==> OpenAt(walls, Cell(row, col))
    {
      if row < 0 || row >= rows || col < 0 || col >= cols then false
      else walls[row, col] != WALL
    }

    /** The open cells are exactly the path cells, and all of them are interior. */
    lemma OpenIsPathCell(row: int, col: int)
      requires Valid()
      ensures IsOpen(row, col) <==> Cell(row, col) in pathCells
      ensures IsOpen(row, col) ==> Interior(walls, Cell(row, col))
    {
    }

    /** What the hunter relies on: the maze can be drawn from, and every open cell is a
        path cell. */
    ghost predicate Walkable()
      reads walls
    {
      Drawable() && forall r, c {:trigger IsOpen(r, c)} :: IsOpen(r, c) ==> Cell(r, c) in pathCells
    }

    lemma ValidWalkable()
      requires Valid()
      ensures Walkable()
    {
      assert OpenAt(walls, Start);
    }

    /** The directions of `DIRECTIONS[k..]` that lead from `(row, col)` to an open cell,
        in their `DIRECTIONS` order. */
    function OpenFrom(row: int, col: int, k: nat): (ds: seq<Direction>)
      requires Sized() && k <= 4
      reads walls
      ensures |ds| <= 4 - k
      decreases 4 - k
    {
      if k == 4 then []
      else
        var rest := OpenFrom(row, col, k + 1);
        var d := DIRECTIONS[k];
        if IsOpen(row + d.dy, col + d.dx) then [d] + rest else rest
    }

    /** `OpenFrom` holds exactly the directions from index `k` on that lead to an open
        cell. */
    lemma {:induction false} OpenFromMembers(row: int, col: int, k: nat)
      requires Sized() && k <= 4
      ensures forall d :: d in OpenFrom(row, col, k) <==> k <= DirIndex(d) < 4 && IsOpen(row + d.dy, col + d.dx)
      decreases 4 - k
    {
      if k < 4 {
        OpenFromMembers(row, col, k + 1);
        assert DirIndex(DIRECTIONS[k]) == k;
      }
    }

    /** `OpenFrom` keeps its directions in `DIRECTIONS` order, all from index `k` on. */
    lemma {:induction false} OpenFromOrdered(row: int, col: int, k: nat)
      requires Sized() && k <= 4
      ensures forall i :: 0 <= i < |OpenFrom(row, col, k)| ==> k <= DirIndex(OpenFrom(row, col, k)[i]) < 4
      ensures forall i, j :: 0 <= i < j < |OpenFrom(row, col, k)| ==>
                DirIndex(OpenFrom(row, col, k)[i]) < DirIndex(OpenFrom(row, col, k)[j])
      decreases 4 - k
    {
      if k < 4 {
        OpenFromOrdered(row, col, k + 1);
        var d := DIRECTIONS[k];
        assert DirIndex(d) == k;
        Prepended(d, OpenFrom(row, col, k + 1), k, OpenFrom(row, col, k));
      }
    }

    /** `getNeighbors`: `DIRECTIONS` filtered by whether the step lands on an open cell. */
    function GetNeighbors(row: int, col: int): (ds: seq<Direction>)
      requires Sized()
      reads walls
      ensures |ds| <= 4
    {
      OpenFrom(row, col, 0)
    }

    /** `getNeighbors` holds exactly the directions that lead to an open cell. */
    lemma NeighborsOpen(row: int, col: int)
      requires Sized()
      ensures forall d :: d in GetNeighbors(row, col) <==> d in DIRECTIONS && IsOpen(row + d.dy, col + d.dx)
    {
      OpenFromMembers(row, col, 0);
    }

    /** `getNeighbors` keeps the directions in their `DIRECTIONS` order. */
    lemma NeighborsInOrder(row: int, col: int)
      requires Sized()
      ensures var ds := GetNeighbors(row, col);
        forall i, j :: 0 <= i < j < |ds| ==> DirIndex(ds[i]) < DirIndex(ds[j])
    {
      OpenFromOrdered(row, col, 0);
    }

    /** A `3 x 3` maze has the single path cell `(1, 1)`, and it has no open neighbour. */
    lemma SingleCell()
      requires Valid() && rows == 3 && cols == 3
      ensures forall x :: x in pathCells ==> x == Start
      ensures GetNeighbors(Start.row, Start.col) == []
    {
      forall x | x in pathCells
        ensures x == Start
      {
        assert OpenAt(walls, x) && Interior(walls, x);
      }
      assert !IsOpen(0, 1) && !IsOpen(2, 1) && !IsOpen(1, 0) && !IsOpen(1, 2);
      assert OpenFrom(1, 1, 3) == [];
      assert OpenFrom(1, 1, 2) == [];
      assert OpenFrom(1, 1, 1) == [];
      assert OpenFrom(1, 1, 0) == [];
    }

    /** With a second path cell, every path cell has an open neighbour: the maze is
        connected. */
    lemma NavigableWithCompany(x: Cell, y: Cell)
      requires Valid() && x in pathCells && y in pathCells && x != y
      ensures |GetNeighbors(x.row, x.col)| > 0
    {
      assert OpenAt(walls, x) && OpenAt(walls, y);
      assert Linked(walls, x, y);
      var z := OpenNeighbour(walls, x, y);
      NeighbourListed(x, z);
    }

    /** An open cell next to `x` is one of `x`'s neighbours. */
    lemma NeighbourListed(x: Cell, z: Cell)
      requires Sized() && Adjacent(x, z) && OpenAt(walls, z)
      ensures |GetNeighbors(x.row, x.col)| > 0
    {
      var d := Direction(z.col - x.col, z.row - x.row);
      assert d in DIRECTIONS && Move(x, d) == z;
      NeighborsOpen(x.row, x.col);
      assert d in GetNeighbors(x.row, x.col);
    }

    /** A maze larger than `3 x 3` in either direction has no dead path cell, so the
        hunter never finds itself without a move. */
    lemma LargerNavigable(x: Cell)
      requires Valid() && (rows > 3 || cols > 3) && x in pathCells
      requires forall r, c :: Interior(walls, Cell(r, c)) && Lattice(Cell(r, c)) ==> walls[r, c] != WALL
      ensures |GetNeighbors(x.row, x.col)| > 0
    {
      var other := if cols > 3 then Cell(1, 3) else Cell(3, 1);
      assert Interior(walls, other) && Lattice(other);
      assert OpenAt(walls, other) && OpenAt(walls, Start);
      if x == Start {
        NavigableWithCompany(x, other);
      } else {
        NavigableWithCompany(x, Start);
      }
    }

    /** The cells of `cells` that have at least one open neighbour, in order. */
    function NavigableIn(cells: seq<Cell>): (r: seq<Cell>)
      requires Sized()
      reads walls
      ensures forall x :: x in r <==> x in cells && |GetNeighbors(x.row, x.col)| > 0
      ensures |r| <= |cells|
    {
      if cells == [] then []
      else
        var rest := NavigableIn(cells[1..]);
        assert forall x :: x in cells <==> x == cells[0] || x in cells[1..];
        if |GetNeighbors(cells[0].row, cells[0].col)| > 0 then [cells[0]] + rest else rest
    }

    /** The pool `getRandomPathCell` draws from: the navigable path cells, or all path
        cells when none is navigable. */
    function Pool(): (p: seq<Cell>)
      requires Drawable()
      reads walls
      ensures |p| > 0
      ensures forall x :: x in p ==> x in pathCells
      ensures (exists x :: x in pathCells && |GetNeighbors(x.row, x.col)| > 0) ==>
                forall x :: x in p <==> x in pathCells && |GetNeighbors(x.row, x.col)| > 0
      ensures (forall x :: x in pathCells ==> |GetNeighbors(x.row, x.col)| == 0) ==> p == pathCells
    {
      assert pathCells[0] in pathCells;
      var navigable := NavigableIn(pathCells);
      if |navigable| > 0 then
        assert navigable[0] in navigable;
        navigable
      else
        assert forall x :: x in pathCells ==> |GetNeighbors(x.row, x.col)| == 0;
        pathCells
    }

    /** `getRandomPathCell`: a uniformly drawn cell of the pool. */
    method GetRandomPathCell(rng: Random) returns (cell: Cell)
      requires Drawable() && rng.Valid()
      modifies rng
      ensures rng.Valid()
      ensures cell in pathCells && cell in Pool()
    {
      var pool := Pool();
      var i := rng.Below(|pool|);
      cell := pool[i];
    }
  }

  /** Putting a direction of index `k` in front of directions of higher, increasing
      indices, or leaving them as they are, keeps the indices increasing from `k` on. */
  lemma Prepended(d: Direction, rest: seq<Direction>, k: nat, ds: seq<Direction>)
    requires k < 4 && DirIndex(d) == k && (ds == [d] + rest || ds == rest)
    requires forall i :: 0 <= i < |rest| ==> k + 1 <= DirIndex(rest[i]) < 4
    requires forall i, j :: 0 <= i < j < |rest| ==> DirIndex(rest[i]) < DirIndex(rest[j])
    ensures forall i :: 0 <= i < |ds| ==> k <= DirIndex(ds[i]) < 4
    ensures forall i, j :: 0 <= i < j < |ds| ==> DirIndex(ds[i]) < DirIndex(ds[j])
  {
    if ds == [d] + rest {
      assert forall i :: 0 < i < |ds| ==> ds[i] == rest[i - 1];
      forall i, j | 0 <= i < j < |ds|
        ensures DirIndex(ds[i]) < DirIndex(ds[j])
      {
        if i > 0 {
          assert DirIndex(rest[i - 1]) < DirIndex(rest[j - 1]);
        }
      }
    }
  }
}
