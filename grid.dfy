/** Cells, directions and the facts about a maze grid that do not depend on how it
    was carved: open/blocked cells, paths, and a rank witness that proves every open
    cell is connected to the carve start (1, 1). */
module Grid {

  /** A grid coordinate, `{ row, col }` in the source. */
  datatype Cell = Cell(row: int, col: int)

  /** One of the four unit moves of `DIRECTIONS`; the facing angle is rendering only. */
  datatype Direction = Direction(dx: int, dy: int)

  /** A two-cell carving move of `carveDirs`. */
  datatype CarveStep = CarveStep(dr: int, dc: int)

  const WALL: char := '#'
  const FLOOR: char := '.'

  /** Right, left, down, up: the order in which `getNeighbors` reports directions. */
  const DIRECTIONS: seq<Direction> := [Direction(1, 0), Direction(-1, 0), Direction(0, 1), Direction(0, -1)]

  const CARVE_DIRS: seq<CarveStep> := [CarveStep(0, 2), CarveStep(0, -2), CarveStep(2, 0), CarveStep(-2, 0)]

  /** The cell the depth-first carving starts from. */
  const Start: Cell := Cell(1, 1)

  function Move(c: Cell, d: Direction): Cell
  {
    Cell(c.row + d.dy, c.col + d.dx)
  }

  function Reverse(d: Direction): Direction
  {
    Direction(-d.dx, -d.dy)
  }

  /** Position of a direction in `DIRECTIONS` (4 for anything else). */
  function DirIndex(d: Direction): (k: nat)
    ensures k < 4 <==> d in DIRECTIONS
    ensures k < 4 ==> DIRECTIONS[k] == d
  {
    if d == Direction(1, 0) then 0
    else if d == Direction(-1, 0) then 1
    else if d == Direction(0, 1) then 2
    else if d == Direction(0, -1) then 3
    else 4
  }

  predicate Adjacent(a: Cell, b: Cell)
  {
    (a.row == b.row && (a.col == b.col + 1 || b.col == a.col + 1)) ||
    (a.col == b.col && (a.row == b.row + 1 || b.row == a.row + 1))
  }

  predicate InGrid(g: array2<char>, x: Cell)
  {
    0 <= x.row < g.Length0 && 0 <= x.col < g.Length1
  }

  /** Strictly inside the border. */
  predicate Interior(g: array2<char>, x: Cell)
  {
    0 < x.row < g.Length0 - 1 && 0 < x.col < g.Length1 - 1
  }

  /** The odd/odd lattice the depth-first search moves on. */
  predicate Lattice(x: Cell)
  {
    x.row % 2 == 1 && x.col % 2 == 1
  }

  predicate OpenAt(g: array2<char>, x: Cell)
    reads g
  {
    InGrid(g, x) && g[x.row, x.col] != WALL
  }

  /** Every cell holds `"#"` or `"."`. */
  ghost predicate Binary(g: array2<char>)
    reads g
  {
    forall r, c :: 0 <= r < g.Length0 && 0 <= c < g.Length1 ==> g[r, c] == WALL || g[r, c] == FLOOR
  }

  ghost predicate BorderBlocked(g: array2<char>)
    reads g
  {
    forall r, c :: 0 <= r < g.Length0 && 0 <= c < g.Length1 && !Interior(g, Cell(r, c)) ==> g[r, c] == WALL
  }

  /** The carving target `x + d` lies strictly inside the border and is still blocked
      (the filter of `generateLayout`). */
  predicate Qualifies(g: array2<char>, x: Cell, d: CarveStep)
    reads g
  {
    0 < x.row + d.dr < g.Length0 - 1 && 0 < x.col + d.dc < g.Length1 - 1 &&
    g[x.row + d.dr, x.col + d.dc] == WALL
  }

  /** No carving move from `x` is left: the state in which the search pops `x`. */
  ghost predicate Explored(g: array2<char>, x: Cell)
    reads g
  {
    forall d :: d in CARVE_DIRS ==> !Qualifies(g, x, d)
  }

  // ---------------------------------------------------------------------------
  // Rank witnesses and paths

  predicate LowerVia(rank: map<Cell, nat>, x: Cell, y: Cell)
    requires x in rank
  {
    y in rank && rank[y] < rank[x]
  }

  predicate HasLower(rank: map<Cell, nat>, x: Cell)
    requires x in rank
  {
    LowerVia(rank, x, Cell(x.row - 1, x.col)) || LowerVia(rank, x, Cell(x.row + 1, x.col)) ||
    LowerVia(rank, x, Cell(x.row, x.col - 1)) || LowerVia(rank, x, Cell(x.row, x.col + 1))
  }

  /** Every ranked cell is open, and is the start or has a ranked 4-neighbour of lower rank. */
  ghost predicate RankedTree(g: array2<char>, rank: map<Cell, nat>)
    reads g
  {
    forall x :: x in rank ==> OpenAt(g, x) && (x == Start || HasLower(rank, x))
  }

  /** A ranked tree that covers every open cell. */
  ghost predicate Rooted(g: array2<char>, rank: map<Cell, nat>)
    reads g
  {
    RankedTree(g, rank) &&
    forall r, c :: 0 <= r < g.Length0 && 0 <= c < g.Length1 && g[r, c] != WALL ==> Cell(r, c) in rank
  }

  function LowerNeighbour(rank: map<Cell, nat>, x: Cell): (y: Cell)
    requires x in rank && HasLower(rank, x)
    ensures y in rank && rank[y] < rank[x] && Adjacent(x, y)
  {
    if LowerVia(rank, x, Cell(x.row - 1, x.col)) then Cell(x.row - 1, x.col)
    else if LowerVia(rank, x, Cell(x.row + 1, x.col)) then Cell(x.row + 1, x.col)
    else if LowerVia(rank, x, Cell(x.row, x.col - 1)) then Cell(x.row, x.col - 1)
    else Cell(x.row, x.col + 1)
  }

  /** A walk through open cells, each step to a 4-neighbour. */
  ghost predicate IsPath(g: array2<char>, p: seq<Cell>)
    reads g
  {
    |p| > 0 &&
    (forall k :: 0 <= k < |p| ==> OpenAt(g, p[k])) &&
    (forall k :: 0 <= k < |p| - 1 ==> Adjacent(p[k], p[k + 1]))
  }

  /** Every open cell can reach every other open cell. */
  ghost predicate Connected(g: array2<char>)
    reads g
  {
    forall a, b {:trigger Linked(g, a, b)} :: OpenAt(g, a) && OpenAt(g, b) ==> Linked(g, a, b)
  }

  /** Some path leads from `a` to `b`. */
  ghost predicate Linked(g: array2<char>, a: Cell, b: Cell)
    reads g
  {
    exists p :: IsPath(g, p) && p[0] == a && p[|p| - 1] == b
  }

  lemma {:induction false} PathDown(g: array2<char>, rank: map<Cell, nat>, x: Cell) returns (p: seq<Cell>)
    requires RankedTree(g, rank) && x in rank
    ensures IsPath(g, p) && p[0] == x && p[|p| - 1] == Start
    decreases rank[x]
  {
    if x == Start {
      p := [x];
    } else {
      var y := LowerNeighbour(rank, x);
      var q := PathDown(g, rank, y);
      p := [x] + q;
      assert forall k :: 1 <= k < |p| ==> p[k] == q[k - 1];
    }
  }

  lemma {:induction false} PathUp(g: array2<char>, rank: map<Cell, nat>, x: Cell) returns (p: seq<Cell>)
    requires RankedTree(g, rank) && x in rank
    ensures IsPath(g, p) && p[0] == Start && p[|p| - 1] == x
    decreases rank[x]
  {
    if x == Start {
      p := [x];
    } else {
      var y := LowerNeighbour(rank, x);
      var q := PathUp(g, rank, y);
      p := q + [x];
      assert forall k :: 0 <= k < |q| ==> p[k] == q[k];
      assert p[|q| - 1] == y && p[|q|] == x;
    }
  }

  /** Two ranked cells are joined by a path through the start. */
  lemma {:induction false} Connect(g: array2<char>, rank: map<Cell, nat>, a: Cell, b: Cell) returns (p: seq<Cell>)
    requires RankedTree(g, rank) && a in rank && b in rank
    ensures IsPath(g, p) && p[0] == a && p[|p| - 1] == b
  {
    var down := PathDown(g, rank, a);
    var up := PathUp(g, rank, b);
    p := down + up[1..];
    assert forall k :: |down| <= k < |p| ==> p[k] == up[k - |down| + 1];
  }

  /** A grid with a rooted rank witness is connected. */
  lemma RootedConnected(g: array2<char>, rank: map<Cell, nat>)
    requires Rooted(g, rank)
    ensures Connected(g)
  {
    forall a, b | OpenAt(g, a) && OpenAt(g, b)
      ensures Linked(g, a, b)
    {
      var p := Connect(g, rank, a, b);
    }
  }

  /** A path between two different cells leaves the first through an open neighbour. */
  lemma OpenNeighbour(g: array2<char>, a: Cell, b: Cell) returns (y: Cell)
    requires Linked(g, a, b) && a != b
    ensures Adjacent(a, y) && OpenAt(g, y)
  {
    var p :| IsPath(g, p) && p[0] == a && p[|p| - 1] == b;
    y := p[1];
  }

  // ---------------------------------------------------------------------------
  // Depth-first completeness: once nothing is left to carve, the whole lattice is open

  lemma {:induction false} LatticeOpenAt(g: array2<char>, i: nat, j: nat)
    requires OpenAt(g, Start)
    requires forall r, c :: Interior(g, Cell(r, c)) && Lattice(Cell(r, c)) && g[r, c] != WALL ==> Explored(g, Cell(r, c))
    requires Interior(g, Cell(2 * i + 1, 2 * j + 1))
    ensures g[2 * i + 1, 2 * j + 1] != WALL
    decreases i + j
  {
    if i > 0 {
      LatticeOpenAt(g, i - 1, j);
      var x := Cell(2 * i - 1, 2 * j + 1);
      assert Lattice(x);
      assert CARVE_DIRS[2] == CarveStep(2, 0);
      assert !Qualifies(g, x, CarveStep(2, 0));
    } else if j > 0 {
      LatticeOpenAt(g, i, j - 1);
      var x := Cell(2 * i + 1, 2 * j - 1);
      assert Lattice(x);
      assert CARVE_DIRS[0] == CarveStep(0, 2);
      assert !Qualifies(g, x, CarveStep(0, 2));
    }
  }

  lemma AllLatticeOpen(g: array2<char>)
    requires OpenAt(g, Start)
    requires forall r, c :: Interior(g, Cell(r, c)) && Lattice(Cell(r, c)) && g[r, c] != WALL ==> Explored(g, Cell(r, c))
    ensures forall r, c :: Interior(g, Cell(r, c)) && Lattice(Cell(r, c)) ==> g[r, c] != WALL
  {
    forall r, c | Interior(g, Cell(r, c)) && Lattice(Cell(r, c))
      ensures g[r, c] != WALL
    {
      assert r == 2 * (r / 2) + 1 && c == 2 * (c / 2) + 1;
      LatticeOpenAt(g, r / 2, c / 2);
    }
  }

  // ---------------------------------------------------------------------------
  // The central room of `addRooms` keeps the grid connected

  /** `Math.floor(Math.min(rows, cols) / 6)`: the most whole sixths of the smaller side. */
  function RoomRadius(rows: nat, cols: nat): (r: nat)
    ensures 6 * r <= rows && 6 * r <= cols
    ensures rows < 6 * (r + 1) || cols < 6 * (r + 1)
  {
    (if rows < cols then rows else cols) / 6
  }

  /** An interior cell within the room's radius of `(rows / 2, cols / 2)`, with
      `Math.hypot(dr, dc) <= radius` stated on squares. */
  predicate InRoom(rows: nat, cols: nat, r: int, c: int)
  {
    0 < r < rows - 1 && 0 < c < cols - 1 &&
    (r - rows / 2) * (r - rows / 2) + (c - cols / 2) * (c - cols / 2) <= RoomRadius(rows, cols) * RoomRadius(rows, cols)
  }

  predicate Pillar(x: Cell)
  {
    x.row % 2 == 0 && x.col % 2 == 0
  }

  /** A lattice cell next to an interior cell that is neither lattice nor pillar. */
  function LatticeNeighbour(x: Cell): Cell
  {
    if x.row % 2 == 1 then Cell(x.row, x.col - 1) else Cell(x.row - 1, x.col)
  }

  /** One step from `x` towards the centre of the room (downwards from the centre itself). */
  function TowardCentre(rows: nat, cols: nat, x: Cell): Cell
  {
    if x.row < rows / 2 then Cell(x.row + 1, x.col)
    else if x.row > rows / 2 then Cell(x.row - 1, x.col)
    else if x.col < cols / 2 then Cell(x.row, x.col + 1)
    else if x.col > cols / 2 then Cell(x.row, x.col - 1)
    else Cell(x.row + 1, x.col)
  }

  function RankOr(rank: map<Cell, nat>, y: Cell): nat
  {
    if y in rank then rank[y] else 0
  }

  /** The rank given to a cell that the room opened. */
  function RoomRank(rank0: map<Cell, nat>, rows: nat, cols: nat, anchor: Cell, x: Cell): nat
  {
    if !Pillar(x) then RankOr(rank0, LatticeNeighbour(x)) + 1
    else if x == Cell(rows / 2, cols / 2) && RoomRadius(rows, cols) == 0 then RankOr(rank0, anchor) + 1
    else
      var t := TowardCentre(rows, cols, x);
      (if t in rank0 then rank0[t] else RankOr(rank0, LatticeNeighbour(t)) + 1) + 1
  }

  /** `d * d <= rad * rad` bounds `d` on both sides. */
  lemma SquareBound(d: int, rad: int)
    requires rad >= 0 && d * d <= rad * rad
    ensures -rad <= d <= rad
  {
    if d > rad {
      SquareGrows(rad, d);
    }
    if d < -rad {
      SquareGrows(rad, -d);
    }
  }

  /** Squares grow strictly beyond a non-negative bound. */
  lemma SquareGrows(rad: int, d: int)
    requires 0 <= rad < d
    ensures rad * rad < d * d
  {
    assert d * d - rad * rad == (d - rad) * (d + rad);
    assert (d - rad) * (d + rad) > 0;
  }

  /** Room cells lie in the square of side `2 * radius + 1` that `addRooms` scans. */
  lemma RoomBand(rows: nat, cols: nat, r: int, c: int)
    requires InRoom(rows, cols, r, c)
    ensures rows / 2 - RoomRadius(rows, cols) <= r <= rows / 2 + RoomRadius(rows, cols)
    ensures cols / 2 - RoomRadius(rows, cols) <= c <= cols / 2 + RoomRadius(rows, cols)
  {
    var rad := RoomRadius(rows, cols);
    SumOfSquaresBound(r - rows / 2, c - cols / 2, rad * rad);
    SquareBound(r - rows / 2, rad);
    SquareBound(c - cols / 2, rad);
  }

  /** Each of two squares is at most their sum. */
  lemma SumOfSquaresBound(a: int, b: int, bound: int)
    requires a * a + b * b <= bound
    ensures a * a <= bound && b * b <= bound
  {
    assert a * a >= 0 && b * b >= 0;
  }

  lemma SquareStep(a: int)
    ensures a < 0 ==> (a + 1) * (a + 1) <= a * a
    ensures a > 0 ==> (a - 1) * (a - 1) <= a * a
  {
  }

  /** A step towards the centre stays in the room; from the centre, the room must be
      at least one cell wide. */
  lemma TowardCentreInRoom(rows: nat, cols: nat, x: Cell)
    requires rows >= 3 && cols >= 3 && rows % 2 == 1 && cols % 2 == 1
    requires InRoom(rows, cols, x.row, x.col)
    requires x == Cell(rows / 2, cols / 2) ==> RoomRadius(rows, cols) > 0
    ensures var t := TowardCentre(rows, cols, x); InRoom(rows, cols, t.row, t.col) && Adjacent(x, t)
  {
    var t := TowardCentre(rows, cols, x);
    var rad := RoomRadius(rows, cols);
    SquareStep(x.row - rows / 2);
    SquareStep(x.col - cols / 2);
    if x == Cell(rows / 2, cols / 2) {
      assert rad * rad >= 1 by { assert rad >= 1; }
    }
  }

  /** A walk down the ranks from the right of column `c` to the start must cross column `c`. */
  lemma {:induction false} ColumnCrossing(g: array2<char>, rank: map<Cell, nat>, c: int, x: Cell) returns (y: Cell)
    requires RankedTree(g, rank) && x in rank && x.col > c >= 1
    ensures y in rank && y.col == c
    decreases rank[x]
  {
    var z := LowerNeighbour(rank, x);
    if z.col == c {
      y := z;
    } else {
      y := ColumnCrossing(g, rank, c, z);
    }
  }

  /** The same, crossing row `r` from below. */
  lemma {:induction false} RowCrossing(g: array2<char>, rank: map<Cell, nat>, r: int, x: Cell) returns (y: Cell)
    requires RankedTree(g, rank) && x in rank && x.row > r >= 1
    ensures y in rank && y.row == r
    decreases rank[x]
  {
    var z := LowerNeighbour(rank, x);
    if z.row == r {
      y := z;
    } else {
      y := RowCrossing(g, rank, r, z);
    }
  }

  /** When the room is the single centre cell and that cell is a pillar, one of its
      neighbours is already ranked: the grid is then five cells high or wide, and every
      ranked path from the far side of the centre to the start passes beside it. */
  lemma DegenerateRoomDims(rows: nat, cols: nat)
    requires rows >= 3 && cols >= 3 && rows % 2 == 1 && cols % 2 == 1
    requires RoomRadius(rows, cols) == 0 && (rows / 2) % 2 == 0 && (cols / 2) % 2 == 0
    ensures rows == 5 || cols == 5
  {
    assert rows < 6 || cols < 6;
  }

  /** A ranked, hence open, cell is inside the border. */
  lemma RankedInterior(g: array2<char>, rank: map<Cell, nat>, y: Cell)
    requires BorderBlocked(g) && RankedTree(g, rank) && y in rank
    ensures Interior(g, y)
  {
    assert OpenAt(g, y);
  }

  lemma CentreAnchor(g: array2<char>, rank0: map<Cell, nat>) returns (y: Cell)
    requires g.Length0 >= 3 && g.Length1 >= 3 && g.Length0 % 2 == 1 && g.Length1 % 2 == 1
    requires BorderBlocked(g) && RankedTree(g, rank0)
    requires forall r, c :: Interior(g, Cell(r, c)) && Lattice(Cell(r, c)) ==> Cell(r, c) in rank0
    requires RoomRadius(g.Length0, g.Length1) == 0 && Pillar(Cell(g.Length0 / 2, g.Length1 / 2))
    requires Cell(g.Length0 / 2, g.Length1 / 2) !in rank0
    ensures y in rank0 && Adjacent(Cell(g.Length0 / 2, g.Length1 / 2), y)
  {
    DegenerateRoomDims(g.Length0, g.Length1);
    if g.Length0 == 5 {
      y := CentreAnchorFiveHigh(g, rank0);
    } else {
      y := CentreAnchorFiveWide(g, rank0);
    }
  }

  lemma CentreAnchorFiveHigh(g: array2<char>, rank0: map<Cell, nat>) returns (y: Cell)
    requires g.Length0 == 5 && g.Length1 >= 5 && g.Length1 % 2 == 1
    requires BorderBlocked(g) && RankedTree(g, rank0)
    requires forall r, c :: Interior(g, Cell(r, c)) && Lattice(Cell(r, c)) ==> Cell(r, c) in rank0
    requires Pillar(Cell(2, g.Length1 / 2)) && Cell(2, g.Length1 / 2) !in rank0
    ensures y in rank0 && Adjacent(Cell(2, g.Length1 / 2), y)
  {
    var far := Cell(1, g.Length1 / 2 + 1);
    assert Interior(g, far) && Lattice(far);
    y := ColumnCrossing(g, rank0, g.Length1 / 2, far);
    RankedInterior(g, rank0, y);
  }

  lemma CentreAnchorFiveWide(g: array2<char>, rank0: map<Cell, nat>) returns (y: Cell)
    requires g.Length1 == 5 && g.Length0 >= 5 && g.Length0 % 2 == 1
    requires BorderBlocked(g) && RankedTree(g, rank0)
    requires forall r, c :: Interior(g, Cell(r, c)) && Lattice(Cell(r, c)) ==> Cell(r, c) in rank0
    requires Pillar(Cell(g.Length0 / 2, 2)) && Cell(g.Length0 / 2, 2) !in rank0
    ensures y in rank0 && Adjacent(Cell(g.Length0 / 2, 2), y)
  {
    var far := Cell(g.Length0 / 2 + 1, 1);
    assert Interior(g, far) && Lattice(far);
    y := RowCrossing(g, rank0, g.Length0 / 2, far);
    RankedInterior(g, rank0, y);
  }

  /** What the rank map built by `RoomRooted` looks like: the old ranks, plus a
      `RoomRank` for every cell the room opened. */
  ghost predicate ExtendsWithRoom(g: array2<char>, rank0: map<Cell, nat>, carved: set<Cell>, anchor: Cell, rank: map<Cell, nat>)
  {
    (forall y :: y in rank <==> y in rank0 || y in carved) &&
    (forall y :: y in rank0 ==> y !in carved && rank[y] == rank0[y]) &&
    (forall y :: y in carved ==> rank[y] == RoomRank(rank0, g.Length0, g.Length1, anchor, y))
  }

  /** The grid facts the room lemmas share. */
  ghost predicate RoomSetting(g: array2<char>, rank0: map<Cell, nat>, carved: set<Cell>)
    reads g
  {
    g.Length0 >= 3 && g.Length1 >= 3 && g.Length0 % 2 == 1 && g.Length1 % 2 == 1 &&
    (forall r, c :: Interior(g, Cell(r, c)) && Lattice(Cell(r, c)) ==> Cell(r, c) in rank0) &&
    (forall r, c :: InRoom(g.Length0, g.Length1, r, c) ==> g[r, c] != WALL) &&
    (forall y :: y in carved ==> OpenAt(g, y) && y !in rank0 && InRoom(g.Length0, g.Length1, y.row, y.col)) &&
    (forall y :: OpenAt(g, y) && y !in rank0 ==> y in carved)
  }

  /** A carved cell next to a lattice cell hangs off that lattice cell. */
  lemma WallCellRanked(g: array2<char>, rank0: map<Cell, nat>, carved: set<Cell>, anchor: Cell, rank: map<Cell, nat>, x: Cell)
    requires RoomSetting(g, rank0, carved) && ExtendsWithRoom(g, rank0, carved, anchor, rank)
    requires x in carved && !Pillar(x)
    ensures x in rank && HasLower(rank, x)
    ensures LatticeNeighbour(x) in rank0 && rank[x] == rank0[LatticeNeighbour(x)] + 1
  {
    var l := LatticeNeighbour(x);
    assert Interior(g, x);
    assert !Lattice(x);
    LatticeNeighbourOf(g, x);
    assert l in rank0;
    assert rank[l] == rank0[l];
    assert rank[x] == RankOr(rank0, l) + 1;
    assert LowerVia(rank, x, l);
  }

  lemma LatticeNeighbourOf(g: array2<char>, x: Cell)
    requires Interior(g, x) && !Pillar(x) && !Lattice(x)
    ensures var l := LatticeNeighbour(x);
      Interior(g, l) && Lattice(l) && (l == Cell(x.row, x.col - 1) || l == Cell(x.row - 1, x.col))
  {
  }

  /** A carved pillar off the centre hangs off its neighbour towards the centre. */
  lemma PillarRanked(g: array2<char>, rank0: map<Cell, nat>, carved: set<Cell>, anchor: Cell, rank: map<Cell, nat>, x: Cell)
    requires RoomSetting(g, rank0, carved) && ExtendsWithRoom(g, rank0, carved, anchor, rank)
    requires x in carved && Pillar(x)
    requires !(x == Cell(g.Length0 / 2, g.Length1 / 2) && RoomRadius(g.Length0, g.Length1) == 0)
    ensures x in rank && HasLower(rank, x)
  {
    var rows, cols := g.Length0, g.Length1;
    var t := TowardCentre(rows, cols, x);
    TowardCentreInRoom(rows, cols, x);
    assert OpenAt(g, t);
    assert !Pillar(t) by { AdjacentParity(x, t); }
    var base := if t in rank0 then rank0[t] else RankOr(rank0, LatticeNeighbour(t)) + 1;
    assert rank[x] == base + 1;
    if t !in rank0 {
      assert t in carved;
      WallCellRanked(g, rank0, carved, anchor, rank, t);
    }
    assert rank[t] == base;
    assert LowerVia(rank, x, t);
  }

  lemma AdjacentParity(x: Cell, t: Cell)
    requires Pillar(x) && Adjacent(x, t)
    ensures !Pillar(t)
  {
  }

  /** The single-cell pillar room hangs off the anchor found by `CentreAnchor`. */
  lemma CentreRanked(g: array2<char>, rank0: map<Cell, nat>, carved: set<Cell>, anchor: Cell, rank: map<Cell, nat>, x: Cell)
    requires RoomSetting(g, rank0, carved) && ExtendsWithRoom(g, rank0, carved, anchor, rank)
    requires x in carved && Pillar(x)
    requires x == Cell(g.Length0 / 2, g.Length1 / 2) && RoomRadius(g.Length0, g.Length1) == 0
    requires anchor in rank0 && Adjacent(x, anchor)
    ensures x in rank && HasLower(rank, x)
  {
    assert rank[anchor] == rank0[anchor];
  }

  /** The open cells that carry no rank yet. */
  lemma UnrankedCells(g: array2<char>, rank0: map<Cell, nat>) returns (carved: set<Cell>)
    ensures forall y :: y in carved <==> OpenAt(g, y) && y !in rank0
  {
    carved := set r, c | 0 <= r < g.Length0 && 0 <= c < g.Length1 && g[r, c] != WALL && Cell(r, c) !in rank0 :: Cell(r, c);
    forall y | OpenAt(g, y) && y !in rank0
      ensures y in carved
    {
      assert y == Cell(y.row, y.col);
    }
  }

  lemma ExtendRanks(g: array2<char>, rank0: map<Cell, nat>, carved: set<Cell>, anchor: Cell) returns (rank: map<Cell, nat>)
    requires forall y :: y in carved ==> y !in rank0
    ensures ExtendsWithRoom(g, rank0, carved, anchor, rank)
  {
    var extra := map y | y in carved :: RoomRank(rank0, g.Length0, g.Length1, anchor, y);
    rank := rank0 + extra;
  }

  /** Every cell of the extended map hangs off a lower-ranked neighbour. */
  lemma ExtendedTree(g: array2<char>, rank0: map<Cell, nat>, carved: set<Cell>, anchor: Cell, rank: map<Cell, nat>)
    requires RankedTree(g, rank0) && RoomSetting(g, rank0, carved) && ExtendsWithRoom(g, rank0, carved, anchor, rank)
    requires var centre := Cell(g.Length0 / 2, g.Length1 / 2);
      Pillar(centre) && RoomRadius(g.Length0, g.Length1) == 0 && centre in carved ==> anchor in rank0 && Adjacent(centre, anchor)
    ensures RankedTree(g, rank)
  {
    var centre := Cell(g.Length0 / 2, g.Length1 / 2);
    forall x | x in rank
      ensures OpenAt(g, x) && (x == Start || HasLower(rank, x))
    {
      if x in carved {
        if !Pillar(x) {
          WallCellRanked(g, rank0, carved, anchor, rank, x);
        } else if x == centre && RoomRadius(g.Length0, g.Length1) == 0 {
          CentreRanked(g, rank0, carved, anchor, rank, x);
        } else {
          PillarRanked(g, rank0, carved, anchor, rank, x);
        }
      } else if x != Start {
        var y := LowerNeighbour(rank0, x);
        assert rank[y] == rank0[y];
      }
    }
  }

  /** Opening the room on a carved grid whose lattice is fully open keeps it rooted. */
  lemma RoomRooted(g: array2<char>, rank0: map<Cell, nat>) returns (rank: map<Cell, nat>)
    requires g.Length0 >= 3 && g.Length1 >= 3 && g.Length0 % 2 == 1 && g.Length1 % 2 == 1
    requires BorderBlocked(g) && RankedTree(g, rank0)
    requires forall r, c :: Interior(g, Cell(r, c)) && Lattice(Cell(r, c)) ==> Cell(r, c) in rank0
    requires forall r, c :: 0 <= r < g.Length0 && 0 <= c < g.Length1 && g[r, c] != WALL && Cell(r, c) !in rank0 ==>
               InRoom(g.Length0, g.Length1, r, c)
    requires forall r, c :: InRoom(g.Length0, g.Length1, r, c) ==> g[r, c] != WALL
    ensures Rooted(g, rank)
  {
    var carved := RoomCarved(g, rank0);
    var anchor := RoomAnchor(g, rank0, carved);
    rank := ExtendRanks(g, rank0, carved, anchor);
    ExtendedTree(g, rank0, carved, anchor, rank);
    RoomCovers(g, rank0, carved, anchor, rank);
  }

  /** The cells the room opened: the open cells without a rank, all inside the room. */
  lemma RoomCarved(g: array2<char>, rank0: map<Cell, nat>) returns (carved: set<Cell>)
    requires g.Length0 >= 3 && g.Length1 >= 3 && g.Length0 % 2 == 1 && g.Length1 % 2 == 1
    requires forall r, c :: Interior(g, Cell(r, c)) && Lattice(Cell(r, c)) ==> Cell(r, c) in rank0
    requires forall r, c :: 0 <= r < g.Length0 && 0 <= c < g.Length1 && g[r, c] != WALL && Cell(r, c) !in rank0 ==>
               InRoom(g.Length0, g.Length1, r, c)
    requires forall r, c :: InRoom(g.Length0, g.Length1, r, c) ==> g[r, c] != WALL
    ensures RoomSetting(g, rank0, carved)
  {
    carved := UnrankedCells(g, rank0);
    forall y | y in carved
      ensures InRoom(g.Length0, g.Length1, y.row, y.col)
    {
      assert g[y.row, y.col] != WALL && Cell(y.row, y.col) !in rank0;
    }
  }

  /** The cell the room's ranks count from: a ranked neighbour of the centre when the
      room is a lone pillar cell, the start cell otherwise. */
  lemma RoomAnchor(g: array2<char>, rank0: map<Cell, nat>, carved: set<Cell>) returns (anchor: Cell)
    requires BorderBlocked(g) && RankedTree(g, rank0) && RoomSetting(g, rank0, carved)
    ensures var centre := Cell(g.Length0 / 2, g.Length1 / 2);
      Pillar(centre) && RoomRadius(g.Length0, g.Length1) == 0 && centre in carved ==> anchor in rank0 && Adjacent(centre, anchor)
  {
    var centre := Cell(g.Length0 / 2, g.Length1 / 2);
    anchor := Start;
    if Pillar(centre) && RoomRadius(g.Length0, g.Length1) == 0 && centre in carved {
      anchor := CentreAnchor(g, rank0);
    }
  }

  /** The extended ranks cover every open cell. */
  lemma RoomCovers(g: array2<char>, rank0: map<Cell, nat>, carved: set<Cell>, anchor: Cell, rank: map<Cell, nat>)
    requires RoomSetting(g, rank0, carved) && ExtendsWithRoom(g, rank0, carved, anchor, rank)
    ensures forall r, c :: 0 <= r < g.Length0 && 0 <= c < g.Length1 && g[r, c] != WALL ==> Cell(r, c) in rank
  {
    forall r, c | 0 <= r < g.Length0 && 0 <= c < g.Length1 && g[r, c] != WALL
      ensures Cell(r, c) in rank
    {
      assert OpenAt(g, Cell(r, c));
    }
  }
}
