# Maze-hunter screensaver, modelled in Dafny

This project models the simulation at the heart of `src/screensaver.js`. A
randomly carved 19 x 19 maze holds 18 bugs and one hunter (the `Debugger`).
The hunter walks from tile to tile, picks a random turn at each tile (never
straight back unless it must) and eats every uneaten bug within 45% of a tile.
An eaten bug respawns 4 to 10 seconds later. It prefers a cell that no uneaten
bug holds, and gives up after 60 draws.

Modules follow the source's classes:

- `Oracle`: `Math.random`, an injected object whose draws lie in [0, 1). Every
  proof holds whatever values it yields.
- `Grid`: cells, directions, the `"#"`/`"."` grid and the connectivity argument.
  A rank map sends each open cell to a lower-ranked open neighbour, down to the
  carve start (1, 1), so every open cell is linked to every other.
- `Mazes`: the `Maze` class, namely `generateLayout` with its shuffle,
  depth-first carving, `addLoops` and `addRooms`, then `collectPathCells`,
  `isOpen`, `getNeighbors` and `getRandomPathCell`. The grid is an
  `array2<char>` carved in place, as the source carves its nested arrays.
- `Keys`: the `` `${row},${col}` `` occupancy keys and the `Set` that holds them.
- `Geometry`: tile centres, the hunter's interpolation and the capture-distance
  test, on exact reals.
- `Prey`: the `Bug` class.
- `Hunter`: the `Debugger` class, its trail and its view of the bugs. A
  `Sighting` is one bug's row, column, position, eaten flag and respawn time.
- `Screen`: the `Screensaver` constructor (with the shared `seeded` set) and
  `update`.

Classes keep the source's mutable fields. Loops are `while` loops with
invariants. Each method's postcondition ties its new state to value-level
predicates:

- `Consumed` is one pass of `consume` from one position.
- `Feeding` is all the passes of one hunter update, together with the positions
  they ate from. A bug is eaten in the frame exactly when one of those
  positions had it in reach. Every position but the last is where the hunter
  stood when the frame began, since a pass that moves the hunter ends the
  loop; the last is where it is drawn at the end.
- `Renewed` is the bug updates. Bugs due back in the same frame respawn on
  distinct cells, unless a later one's draws ran out, because each adds its
  key to the shared set as it lands.
- `FreeDraws` is the draws of one `spawn`.

Lemmas relate these predicates: `FeedingConsumed`, `FeedingClears`,
`CaughtStayEaten`, `FreeKeys`.

## Model

| member | source | states |
|---|---|---|
| `Oracle.ScaledIndex` | src/screensaver.js:253 | `Math.floor(u * n)` for a draw u in [0, 1) is an index below n, with the floor's bounds |
| `Oracle.Random.Next` | src/screensaver.js:629 | a `Math.random()` draw lies in [0, 1) |
| `Oracle.Random.Below` | src/screensaver.js:158 | `Math.floor(Math.random() * n)` lies in [0, n) |
| `Grid.DirIndex` | src/screensaver.js:7-12 | a direction has an index below 4 exactly when it is one of `DIRECTIONS`, and that index finds it |
| `Grid.RootedConnected` | src/screensaver.js:164-183 | a grid whose open cells all carry a rank descending to (1, 1) is connected: a path of open 4-neighbours joins any two open cells |
| `Grid.Connect` | src/screensaver.js:164-183 | two ranked cells are joined by a path through open cells |
| `Grid.OpenNeighbour` | src/screensaver.js:244-246 | a path between two different cells leaves the first through an open 4-neighbour |
| `Grid.AllLatticeOpen` | src/screensaver.js:164-183 | once no open odd/odd cell has a carving move left, every interior odd/odd cell is open (the search visits the whole lattice) |
| `Grid.RoomRadius` | src/screensaver.js:209 | the room radius is the largest r with 6 * r no more than either side |
| `Grid.RoomBand` | src/screensaver.js:213-217 | every interior cell within the room's radius lies in the square of side 2 * radius + 1 that `addRooms` scans |
| `Grid.RoomRooted` | src/screensaver.js:206-223 | opening the central room of a carved grid with its lattice open leaves every open cell ranked, so the grid stays connected |
| `Grid.CentreAnchor` | src/screensaver.js:209-219 | when the room is the lone centre cell and that cell is a pillar, one of its 4-neighbours is already ranked |
| `Mazes.OddUp` | src/screensaver.js:134-135 | the dimension is odd and is the requested one or one more |
| `Mazes.LoopAttempts` | src/screensaver.js:185 | the number of loop attempts is the floor of 12% of rows * cols |
| `Mazes.Candidates` | src/screensaver.js:166-170 | the filtered steps are exactly those whose target is interior and still `"#"`, and the first is the first such step of the shuffled list |
| `Mazes.Shuffle` | src/screensaver.js:156-162 | the in-place Fisher-Yates shuffle permutes the array |
| `Mazes.ShuffledCarveDirs` | src/screensaver.js:149-154 | `shuffle(carveDirs.slice())` is a permutation of the four carving steps |
| `Mazes.OpenCell` | src/screensaver.js:179-180 | writing `"."` opens exactly that cell and keeps the grid binary, bordered and rooted |
| `Mazes.TryBridge` | src/screensaver.js:196-202 | one loop attempt opens the cell only when it was `"#"` between two open cells vertically or horizontally; no other cell changes and no open cell closes |
| `Mazes.CarveGeometry` | src/screensaver.js:176-178 | a carving step from a lattice cell passes through a non-lattice neighbour to a lattice cell two away |
| `Mazes.PopKeeps` | src/screensaver.js:172-173 | popping a cell with no carving move left keeps the search invariant |
| `Mazes.CarveKeeps` | src/screensaver.js:174-182 | carving towards an unvisited lattice cell and pushing it keeps the search invariant |
| `Mazes.SearchStep` | src/screensaver.js:165-182 | one turn of the depth-first loop keeps the search invariant and either shrinks the unvisited cells or pops |
| `Mazes.Carve` | src/screensaver.js:175-181 | the carve opens the interior cell between and the target, which is a lattice cell; every other cell is left as it was, and the maze stays binary, bordered and rooted |
| `Mazes.RoomConnected` | src/screensaver.js:186 | after `addRooms` the grid is still binary with its border blocked, the lattice and the room are open, and the grid is connected |
| `Mazes.RoomKeepsBorder` | src/screensaver.js:215-219 | the room only writes `"."` to interior cells, so no border cell opens |
| `Mazes.BridgesStay` | src/screensaver.js:198-201 | opening other cells never undoes a bridge between two open cells |
| `Mazes.Maze.constructor` | src/screensaver.js:133-138 | the dimensions are the requested ones rounded up to odd; the walls are binary with the border blocked and (1, 1) open; the maze is connected and `pathCells` lists the open cells in row-major order |
| `Mazes.Maze.GenerateLayout` | src/screensaver.js:140-188 | the layout has the requested size, a blocked border, every lattice cell and every room cell open, and is connected |
| `Mazes.Maze.CarvePassages` | src/screensaver.js:164-183 | the depth-first search ends with every interior lattice cell open and a rank map rooting every open cell at (1, 1) |
| `Mazes.Maze.AddLoops` | src/screensaver.js:190-204 | every cell that changed was `"#"` and now bridges two open cells; the grid stays rooted |
| `Mazes.InRoomIsHypot` | src/screensaver.js:213-217 | `InRoom`, the room test on squares, agrees with `Math.hypot(dr, dc) <= radius` for interior cells |
| `Mazes.Maze.AddRooms` | src/screensaver.js:206-223 | exactly the interior cells within the radius of the centre become `"."`; every other cell is as it was |
| `Mazes.Maze.CollectPathCells` | src/screensaver.js:225-235 | the cells listed are exactly the open cells, in strictly row-major order |
| `Mazes.Maze.OpenIsPathCell` | src/screensaver.js:237-242 | `IsOpen`, the model of `isOpen` (true for a cell on the grid that is not `"#"`), holds exactly for the path cells, and every path cell is interior |
| `Mazes.Maze.ValidWalkable` | src/screensaver.js:137 | a built maze has a path cell, and every open cell is one of `pathCells` |
| `Mazes.Maze.OpenFrom` | src/screensaver.js:244-246 | the filter of `DIRECTIONS` from index k on keeps at most 4 - k directions |
| `Mazes.Maze.OpenFromMembers` | src/screensaver.js:244-246 | the filter from index k keeps exactly the directions of index at least k that lead to an open cell |
| `Mazes.Maze.OpenFromOrdered` | src/screensaver.js:244-246 | the filter from index k keeps `DIRECTIONS` order |
| `Mazes.Maze.GetNeighbors` | src/screensaver.js:244-246 | a cell has at most four neighbours |
| `Mazes.Maze.NeighborsOpen` | src/screensaver.js:244-246 | the neighbours are exactly the directions of `DIRECTIONS` whose step lands on an open cell |
| `Mazes.Maze.NeighborsInOrder` | src/screensaver.js:244-246 | the neighbours come in `DIRECTIONS` order |
| `Mazes.Maze.SingleCell` | src/screensaver.js:164-186 | a 3 x 3 maze has the single path cell (1, 1), and it has no open neighbour |
| `Mazes.Maze.NavigableWithCompany` | src/screensaver.js:249-251 | in a maze with two path cells, every path cell has a neighbour |
| `Mazes.Maze.NeighbourListed` | src/screensaver.js:244-246 | an open cell next to a cell gives that cell a neighbour |
| `Mazes.Maze.LargerNavigable` | src/screensaver.js:249-251 | in a maze larger than 3 x 3 in some dimension, every path cell has a neighbour |
| `Mazes.Maze.NavigableIn` | src/screensaver.js:249-251 | the navigable filter keeps exactly the listed cells that have a neighbour |
| `Mazes.Maze.Pool` | src/screensaver.js:252 | the pool is non-empty path cells; it is the navigable ones when one exists, all path cells otherwise |
| `Mazes.Maze.GetRandomPathCell` | src/screensaver.js:248-254 | the cell drawn is a path cell of the pool |
| `Keys.NatToString` | src/screensaver.js:599 | a decimal numeral is non-empty, starts with a digit, has no comma, and has one digit exactly below 10 |
| `Keys.IntToString` | src/screensaver.js:599 | a template-printed integer has no comma |
| `Keys.NatToStringInjective` | src/screensaver.js:599 | different naturals print differently |
| `Keys.IntToStringInjective` | src/screensaver.js:599 | different integers print differently |
| `Keys.SplitAtComma` | src/screensaver.js:599 | a comma-joined pair whose first part has no comma splits back into the same parts |
| `Keys.KeyInjective` | src/screensaver.js:598-600 | `Key`, the `` `${row},${col}` `` template: two cells with the same key are the same cell |
| `Keys.KeySet.constructor` | src/screensaver.js:77 | `new Set()` is empty |
| `Keys.KeySet.Add` | src/screensaver.js:624 | `add` adds the key and nothing else |
| `Geometry.TileCenter` | src/screensaver.js:393-398 | the centre lies strictly inside its tile, half a tile from its top-left corner |
| `Geometry.Lerp` | src/screensaver.js:387-390 | progress 0 gives the current centre, 1 the target's, and the distance covered is progress times the step |
| `Geometry.CaptureRadius` | src/screensaver.js:432 | the reach of `consume`, 45% of a tile, is positive and less than half a tile |
| `Geometry.Dist2` | src/screensaver.js:435-437 | the squared distance is never negative |
| `Geometry.WithinIsDistance` | src/screensaver.js:435-438 | `Within`, the test on squared distances, agrees with `Math.sqrt(dx*dx + dy*dy) < radius` |
| `Geometry.CapturedWhileLeaving` | src/screensaver.js:432-438 | a bug on the centre of the tile the hunter leaves is caught exactly while the hunter has covered less than 45% of the step |
| `Hunter.Without` | src/screensaver.js:417-421 | dropping the reverse keeps every other option and no other, in order (a `Subsequence` of the options) |
| `Hunter.Filtered` | src/screensaver.js:417-421 | the filtered options are the options, minus the reverse exactly when there is more than one |
| `Hunter.FilteredNonEmpty` | src/screensaver.js:423-424 | the filter never empties a non-empty list of distinct options, so the `|| options[0]` fallback is never taken |
| `Hunter.Pick` | src/screensaver.js:423-424 | the direction picked is one of the options, and one of the filtered ones when there are any |
| `Hunter.PickAvoidsReverse` | src/screensaver.js:412-424 | the pick never turns back unless that is the only option |
| `Hunter.NeighborsDistinct` | src/screensaver.js:401 | the options of `chooseNextDirection` repeat no direction |
| `Hunter.SettlesIffMove` | src/screensaver.js:400-410 | `SettlesAsWritten`, the recursion as written, returns within the draws exactly when the start cell or a drawn cell has an open neighbour |
| `Hunter.NeverSettles` | src/screensaver.js:400-410 | in a 3 x 3 maze every sequence of relocations leaves the recursion of `chooseNextDirection`, as written, unfinished |
| `Hunter.SettlesOnLarger` | src/screensaver.js:400-410 | in a larger maze the recursion of `chooseNextDirection` returns at once |
| `Hunter.Pushed` | src/screensaver.js:363-370 | the new trail point comes first, then the old ones in order, with the length capped at 10; fading stays in (0, 0.5] |
| `Hunter.Faded` | src/screensaver.js:376-379 | the trail never grows, every kept point has life left, and fading stays in (0, 0.5] |
| `Hunter.FadedKeeps` | src/screensaver.js:376-379 | a point with more life than the decay survives it, with the decay taken off |
| `Hunter.FadedDrops` | src/screensaver.js:376-379 | every kept point is a decayed old point that had more life than the decay |
| `Hunter.AppendUnrepeated` | src/screensaver.js:371-380 | caught indices of disjoint passes stay unrepeated when appended |
| `Hunter.ConsumedClears` | src/screensaver.js:431-447 | after `consume`, no uneaten bug is within reach of the hunter |
| `Hunter.FeedingConsumed` | src/screensaver.js:371-380 | a further `consume` pass from one more position extends a frame's feeding by exactly the bugs it catches |
| `Hunter.ReachedLater` | src/screensaver.js:371-380 | a bug is in reach of one more position exactly when it is in reach of the earlier ones or of the new one |
| `Hunter.ConsumedStep` | src/screensaver.js:433-446 | one iteration of the loop of `consume` extends the bugs handled so far by one, adding its index to the catches exactly when the bug was uneaten and in reach; after the last one the pass is `Consumed` |
| `Hunter.FeedingClears` | src/screensaver.js:353-381 | at the end of a frame, no uneaten bug is in reach of any position a pass ate from |
| `Hunter.Debugger.constructor` | src/screensaver.js:327-345 | the hunter starts on a drawn path cell with no progress, an empty trail, aimed at an open neighbour or standing still |
| `Hunter.Debugger.UpdatePosition` | src/screensaver.js:383-391 | the position is the interpolation between the current and target centres |
| `Hunter.Debugger.Relocate` | src/screensaver.js:402-407 | the hunter jumps to a pool cell, targets it, stands on its centre with no progress |
| `Hunter.Debugger.Steer` | src/screensaver.js:412-428 | the direction is one of the options, not the reverse unless it is the only one, and the target is the step it leads to |
| `Hunter.Debugger.ChooseNextDirection` | src/screensaver.js:400-429 | the hunter relocates exactly when its cell has no neighbour; it then heads for a neighbour (never back unless it must), and stands still only when no path cell has a neighbour |
| `Hunter.Debugger.Update` | src/screensaver.js:353-381 | the frame keeps the hunter valid. A frame short of a step only adds progress, fades the trail and eats from the new position. Otherwise there are at least two positions eaten from, and every one but the last is where the hunter was drawn when the frame began. The last position eaten from is where the hunter is now drawn. The bugs eaten are exactly the `Feeding` from those positions, and no uneaten bug is left in reach |
| `Hunter.Debugger.Walk` | src/screensaver.js:359-373 | the loop runs while progress is at least 1 and ends below 1. Its passes eat from the positions it returns, every one of them where the hunter was drawn when the loop began, because a pass that moves the hunter relocates it with progress 0 and so is the last; with no pass nothing changes and with progress at least 1 there is a pass. The bugs eaten are the `Feeding` from those positions |
| `Hunter.Debugger.Advance` | src/screensaver.js:361-372 | one pass spends a step of progress, arrives at the target (or relocates), pushes the old position on the trail, and eats from there. The drawn position stays put unless the hunter relocated, in which case progress is 0 |
| `Hunter.Debugger.Arrive` | src/screensaver.js:361-370 | a step of progress moves the hunter onto its target, a path cell, and pushes a fresh trail point |
| `Hunter.Debugger.ArrivesOnPath` | src/screensaver.js:362 | an aimed hunter's target is a path cell |
| `Hunter.Debugger.Settle` | src/screensaver.js:375-380 | the end of the frame redraws the hunter, fades the trail by 0.9 per second, and eats from the new position. The earlier catches are kept as a prefix, followed by exactly the `Consumed` catches of that pass. The frame's `Feeding` gains that position, and no uneaten bug is left in reach |
| `Hunter.Debugger.Consume` | src/screensaver.js:431-447 | exactly the uneaten bugs within reach are marked eaten, due back in [t + 4, t + 10); the rest are untouched; `caught` lists them in increasing order |
| `Hunter.Debugger.Bite` | src/screensaver.js:434-439 | one bug is eaten exactly when uneaten and in reach; no other bug changes |
| `Prey.DrawCell` | src/screensaver.js:611-616 | between 1 and 60 path cells are drawn, all occupied but the last, and the last is free unless all 60 were drawn. The loop's test is `KeySet.Has`, membership of the key in the set |
| `Prey.Redraw` | src/screensaver.js:614-615 | one more draw, a path cell, extends the draws |
| `Prey.AllOccupied` | src/screensaver.js:616 | when the last draw is occupied too, every draw is |
| `Prey.Bug.constructor` | src/screensaver.js:581-591 | a new bug is spawned: on a free drawn path cell (unless all 60 draws were occupied), uneaten, its key added to the shared set |
| `Prey.Bug.SameKey` | src/screensaver.js:598-600 | `get key()`, through `CellKey`: two bugs share a key exactly when they share a cell |
| `Prey.Bug.UpdatePosition` | src/screensaver.js:632-638 | the position is the centre of the bug's tile |
| `Prey.Bug.MarkEaten` | src/screensaver.js:627-630 | the bug is eaten and due back in [time + 4, time + 10) |
| `Prey.Bug.Spawn` | src/screensaver.js:610-625 | the bug settles on the last draw, uneaten with no respawn time, centred, and its key joins `occupied` |
| `Prey.Bug.Place` | src/screensaver.js:618-623 | the bug moves to the cell, uneaten, with no respawn time, centred |
| `Prey.Bug.Update` | src/screensaver.js:602-608 | a bug respawns exactly when eaten and due; any other bug keeps its cell, state and the set |
| `Screen.FreeKeys` | src/screensaver.js:77-82 | every uneaten bug's key is in the rebuilt set |
| `Screen.FreeKeysOnly` | src/screensaver.js:77-82 | every key of the rebuilt set belongs to an uneaten bug |
| `Screen.DueWindow` | src/screensaver.js:604 | `Due`, the respawn test of `update`: a bug eaten at time t is not due before t + 4 and is due from t + 10 on |
| `Screen.CaughtStayEaten` | src/screensaver.js:72-86 | a bug eaten in a frame is still eaten when the frame ends, since it is due back at least 4 seconds later |
| `Screen.SpawnBugs` | src/screensaver.js:21-22 | 18 distinct fresh uneaten bugs on path cells; a bug whose draws did not run out avoids the cells of all bugs built before it |
| `Screen.SpawnOne` | src/screensaver.js:22 | one bug avoids every seeded cell unless all its draws were occupied, and seeds its own |
| `Screen.CollectOccupied` | src/screensaver.js:77-82 | the rebuilt set is exactly the keys of the uneaten bugs |
| `Screen.Screensaver.constructor` | src/screensaver.js:15-32 | a valid 19 x 19 maze, a valid hunter, 18 uneaten bugs on path cells spread by the seeded set, elapsed time 0. The maze, the hunter and each bug are new objects |
| `Screen.Screensaver.UpdateBugs` | src/screensaver.js:84-86 | every due bug respawns and no other changes; a respawned bug avoids the keys present before unless its draws ran out, and it avoids the cell of every earlier bug respawned in the same loop. Every respawned bug's key is in the set at the end |
| `Screen.RenewStep` | src/screensaver.js:84-86 | one iteration of the loop over the bugs extends the updated prefix by one: a due bug adds its key, and, drawn away from the set as it was, it avoids the initial keys and the cells of the earlier due bugs |
| `Screen.RenewedAll` | src/screensaver.js:84-86 | at the end of the loop over the bugs, every bug is `Renewed`, every due bug's key is in the set, and due bugs whose draws did not run out avoid the initial keys and the cells of the earlier due bugs. The loop state records, in `Spreads`, which bugs made fewer than 60 draws |
| `Screen.Screensaver.RenewAt` | src/screensaver.js:85 | one bug's update leaves the other bugs unchanged. The set gains exactly the bug's new key if it was due, and nothing otherwise; a due bug whose draws did not run out lands on a cell whose key was not in the set |
| `Screen.Screensaver.Update` | src/screensaver.js:72-86 | the hunter feeds first, eating exactly the bugs in reach of the positions it ate from and leaving none in reach of where it is drawn. Then occupancy is rebuilt from the uneaten bugs it left. Then exactly the due bugs respawn, each away from those bugs' cells and from the cells of the bugs respawned before it, unless its draws ran out. Every position eaten from but the last is where the hunter was drawn when the frame began |
| `Screen.Screensaver.Hunt` | src/screensaver.js:73-75 | the hunter's update keeps the simulation valid. The bugs eaten are exactly the `Feeding` from the positions it ate from. The last of them is where it is drawn, and the others are where it was drawn when the frame began. No uneaten bug is left in reach |
| `Screen.Screensaver.Renew` | src/screensaver.js:77-86 | occupancy rebuilt and every bug updated: exactly the due bugs respawn, away from the uneaten bugs' keys and from each other's cells, unless a later one's draws ran out |

## Left out

- Rendering is not modelled. This covers every `draw`, the canvas, colours and gradients, `ParticleField`, `Spark` and `spawnSpark`. The `onBugEaten` callback becomes the returned list `caught` of eaten bug indices.
- Cosmetic state is not modelled: `mouthTimer`, `eyePulse`, `highlight`, `munchBurst`, `floatPhase` and the facing `angle` of `DIRECTIONS`. The model also does not take the random draws for `eyePulse` and `floatPhase` from the oracle. No modelled property depends on them.
- The animation loop is not modelled (`start`, `stop`, `requestAnimationFrame`, `performance.now`). Neither are the 0.05-second clamp of `delta` and `elapsed += delta`. `Screen.Screensaver.Update` takes `delta` and uses `elapsed` as the loop left it. The model never advances `elapsed`.
- `resize` and `setTileSize` are not modelled: the tile size stays 24. `main.js` and `refresh.js` are not part of this model.
- Randomness: `Math.random` is an injected oracle, and the proofs use only the fact that a draw lies in [0, 1). Uniformity and other distribution properties are not modelled.
- Floating point: numbers are exact reals, and IEEE rounding is not modelled. `Math.sqrt` in `consume` and `Math.hypot` in `addRooms` are compared on squares. `Geometry.WithinIsDistance` shows that the two tests agree.
- Mazes.Maze.constructor: requires at least 2 rows and 2 columns. With fewer, the source's write to `grid[1][1]` fails, or extends a one-element row, and the model does not follow that.
- Hunter.Debugger.Consume: requires the bugs to be distinct objects. The source's only caller passes the 18 separate bugs built by `Array.from`. `Hunter.Debugger.Update` and `Screen.Screensaver.UpdateBugs` require the same.
- Hunter.Debugger.ChooseNextDirection: where the source recurses again, the model relocates once and then stands still. See "## Findings".
- Hunter.Debugger.Advance: states that progress falls by at least one step, and that either the hunter is on its old target or it relocated with progress 0. It does not state which of the two values progress takes.
- Hunter.Debugger.Update: fixes the direction, target and trail only for a frame that completes no step. For a frame that does, neither `Update` nor `Walk` states the state after each step; only `Advance` states one step, and `Walk` promises the hunter stays walking. `Walk` and `Update` do not state how many passes the loop makes.
- Hunter.Debugger.Update: requires `delta >= 0`, and so do `Hunter.Debugger.Settle`, `Screen.Screensaver.Update` and `Screen.Screensaver.Hunt`. The model assumes a non-negative frame time. The source accepts any `delta`; its only caller clamps it only from above to 0.05 seconds. A negative `delta` would make `progress` negative and would stretch a trail point's life past 0.5, which the model's invariant rules out.
- Prey.DrawCell: states that each draw is a path cell, and so does `Prey.Redraw`. That a draw comes from `Maze.Pool()`, the navigable cells, is stated only by `Mazes.Maze.GetRandomPathCell`, and not carried into the draws of `spawn`.
- Screen.Screensaver.Valid: does not repeat `maze.Valid()`. The constructor establishes it, and nothing writes the maze's walls afterwards.

## Findings

| source | as written | input that shows it | evidently intended | confidence | as-written member | corrected member |
|---|---|---|---|---|---|---|
| src/screensaver.js:400-410 | `chooseNextDirection` calls itself again after relocating whenever the new cell has no open neighbour | a `Maze(3, 3)` or `Maze(2, 2)`: its only path cell (1, 1) has no open neighbour, and `getRandomPathCell` keeps returning it, so the recursion never ends | relocate to a cell with a move, or stop when there is none | not executed; the 19 x 19 maze the app builds never meets it | `Hunter.NeverSettles` | `Hunter.Debugger.ChooseNextDirection` |
