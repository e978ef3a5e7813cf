# Puzzle solver and puzzle games, modelled in Dafny

The repository is a set of puzzles that share one breadth-first solver:

- **Solver** (module `Solving`, `solver.dfy`). The solver is generic over a configuration.
  - A configuration offers its neighbours and says whether it is a goal.
  - `Solve` searches breadth-first from a start configuration. It keeps a FIFO queue and a predecessor map, and counts every configuration generated.
  - When a goal is found, it rebuilds the path from the start by following the predecessor links.
- **Clock** (`ClockPuzzle`, `clock.dfy`). A dial of `hours` hours. One move turns the hand back or forward one hour, wrapping around. The goal is the end hour.
- **Water buckets** (`WaterPuzzle`, `water.dfy`). Buckets with capacities.
  - A move dumps a bucket, fills a bucket, or pours one bucket into another until the source is empty or the target is full.
  - The goal is any bucket holding the wanted amount.
- **Hoppers** (`Hoppers`, `hoppers_config.dfy`; `HoppersGame`, `hoppers_model.dfy`). Frogs on a grid of lily pads.
  - A frog hops over an adjacent green frog onto a free pad, and the green frog is taken off the board.
  - Diagonal hops go two cells in each direction. Straight hops go four cells, from even rows only.
  - The goal is a board with no green frog.
  - The configuration is a class that scans its board with a cursor (`nextCell`) and collects every hop.
  - The game model lets a player select a frog, then a landing pad.
- **Traffic Jam** (`JamCars`, `jam_car.dfy`; `JamBoards`, `jam_config.dfy`; `JamGame`, `jam_model.dfy`). Cars on a grid, each lying along a row or a column.
  - A car slides one cell along its own axis onto a free cell.
  - The goal is the car `X` at the right-hand edge.
  - The configuration keeps a map of cars and a board of cell names painted from it.
  - The game model moves the selected car one cell towards the cell clicked next.

The solver's interface is a type parameter with two functions, `next` (the neighbours) and `isGoal`. The clock is the puzzle connected to `Solve` here: `ClockPuzzle.Next` and `ClockPuzzle.IsGoal` are total functions, and `ClockPuzzle.UniverseClosed` gives the finite closed set of configurations `Solve` needs. The other puzzles' neighbour operations are stated on their own, against specification functions; they are not passed to `Solve`.

Java's hash-based `equals` on configurations is modelled as structural equality of the values. The water puzzle's hash is shown not to separate configurations (see Findings).

## Model

| member | source | states |
|---|---|---|
| Solving.Solver.constructor | puzzles/common/solver/Solver.java:12-15 | a new solver has counted nothing and has an empty predecessor map |
| Solving.Solver.Solve | puzzles/common/solver/Solver.java:35-100 | the counter grows by one for the start plus every neighbour generated, duplicates included; the predecessor map holds exactly the discovered configurations, each once, the start with no predecessor and every other one linked to a configuration that lists it as a neighbour; configurations are expanded in discovery order and none of them is a goal; a returned path starts at the start, ends at a goal, steps only to neighbours and is no longer than any other solution; the path returned is the predecessor chain of the first goal dequeued: it ends at the configuration discovered right after the expanded ones, and each of its configurations is recorded with the one before it as predecessor; no path means no walk from the start reaches a goal; a start that is a goal gives the one-element path |
| Solving.Solver.Search | puzzles/common/solver/Solver.java:40-62 | the search loop ends with a goal dequeued, and every configuration at a smaller depth expanded, or with the queue empty and every discovered configuration expanded; the counter is as in Solve |
| Solving.Solver.Advance | puzzles/common/solver/Solver.java:48-57 | dequeuing and expanding one configuration keeps the search invariant and adds it to the expanded ones; the number of undiscovered configurations plus the queue length strictly decreases |
| Solving.Solver.Expand | puzzles/common/solver/Solver.java:50-56 | every neighbour is counted and ends up discovered; exactly the undiscovered ones are appended to the queue, each linked to the expanded configuration one level deeper |
| Solving.Solver.Visit | puzzles/common/solver/Solver.java:51-55 | one neighbour: the counter grows by one; an undiscovered neighbour is enqueued and linked to the current configuration, and a discovered one changes nothing |
| Solving.Solver.Predecessors | puzzles/common/solver/Solver.java:66-73 | following the predecessor links from the goal fills positions 1 to num-1, each entry the recorded predecessor of the one before it, the last one the start; num is the goal's depth plus one |
| Solving.Solver.Backtrack | puzzles/common/solver/Solver.java:65-78 | the path has depth+1 configurations, runs from the start to the goal, each configuration is recorded with the one before it as predecessor, and each step goes to a neighbour |
| Solving.NoShorterSolution | puzzles/common/solver/Solver.java:47-62 | once every configuration shallower than a bound is expanded and found no goal, every solution takes at least that many moves (breadth-first optimality) |
| Solving.WalkStaysDiscovered | puzzles/common/solver/Solver.java:47-62 | under the same condition, each configuration of a walk from the start is discovered no deeper than its position in the walk |
| Solving.ReversedChainIsLinked | puzzles/common/solver/Solver.java:66-77 | the chain gathered from the goal, read backwards and followed by the goal, links each configuration to the one before it as its predecessor |
| Solving.LinkedPathIsWalk | puzzles/common/solver/Solver.java:50-56 | a path whose configurations are each recorded with the one before as predecessor is a walk, since predecessors are only recorded for neighbours |
| Solving.Frontier | puzzles/common/solver/Solver.java:47-49 | when a configuration is dequeued, no solution is shorter than its depth plus one |
| Solving.Exhausted | puzzles/common/solver/Solver.java:63-81 | an empty queue with no goal found means every discovered configuration was expanded and no walk from the start reaches a goal |
| ClockPuzzle.Dial | puzzles/clock/ClockConfig.java:35-36 | the dial lists the hours 1 to `hours` in order, and is empty when `hours` is not positive |
| ClockPuzzle.NewClock | puzzles/clock/ClockConfig.java:31-38 | a new clock keeps the given hours, start and end, holds the dial and starts at the start hour |
| ClockPuzzle.Neighbors | puzzles/clock/ClockConfig.java:59-83 | when both dial lookups succeed there are two neighbours, and each differs from the configuration in the current hour only |
| ClockPuzzle.Next | puzzles/clock/ClockConfig.java:59-83 | on a dial built by the constructor, a hand on the dial has the hour before and then the hour after as neighbours, wrapping around; a hand off the dial has none (where the source throws) |
| ClockPuzzle.NeighborsOnDial | puzzles/clock/ClockConfig.java:59-83 | the neighbours exist exactly when the current hour is on the dial, and are then the hour before and the hour after, wrapping around |
| ClockPuzzle.NeighborsStayOnDial | puzzles/clock/ClockConfig.java:64-80 | there are two neighbours, each the same puzzle with a current hour on the dial |
| ClockPuzzle.IsGoal | puzzles/clock/ClockConfig.java:91 | with the hand and the end on the dial, the goal holds exactly when no clockwise step is left to the end |
| ClockPuzzle.HashEqualsWithinPuzzle | puzzles/clock/ClockConfig.java:109-123 | within one puzzle, equal hashes means the same configuration and the same current hour |
| ClockPuzzle.UniverseClosed | puzzles/clock/ClockConfig.java:59-83 | neighbours of configurations of a puzzle stay in that puzzle, so the solver's search over them is finite |
| ClockPuzzle.Solvable | puzzles/clock/ClockConfig.java:59-91 | from any hour on the dial, turning forward reaches the end hour: a solution exists |
| WaterPuzzle.NewWater | puzzles/water/WaterConfig.java:27-33 | a new configuration keeps the amount and the capacities, with every bucket empty, current equal to start |
| WaterPuzzle.Dump | puzzles/water/WaterConfig.java:58-59 | dumping empties bucket i and leaves every other bucket as it was |
| WaterPuzzle.Fill | puzzles/water/WaterConfig.java:62-63 | filling sets bucket i to its capacity and leaves every other bucket as it was |
| WaterPuzzle.Pour | puzzles/water/WaterConfig.java:66-84 | pouring i into j leaves j at the smaller of the sum and its capacity and i with the rest; other buckets are untouched |
| WaterPuzzle.GetNeighbors | puzzles/water/WaterConfig.java:53-91 | the loops produce, for each bucket in turn, its dump, its fill and its pours into every other bucket, in that order |
| WaterPuzzle.Neighbors | puzzles/water/WaterConfig.java:53-91 | with n buckets there are n*(n+1) neighbours: per bucket a dump, a fill and n-1 pours |
| WaterPuzzle.PourConserves | puzzles/water/WaterConfig.java:71-83 | pouring keeps the total amount of water |
| WaterPuzzle.NeighborsKeepBounds | puzzles/water/WaterConfig.java:53-91 | from levels between 0 and capacity, every neighbour has levels between 0 and capacity and belongs to the same puzzle |
| WaterPuzzle.IsGoal | puzzles/water/WaterConfig.java:99-106 | the goal holds exactly when some bucket holds the wanted amount |
| WaterPuzzle.HashCode | puzzles/water/WaterConfig.java:124-130 | the loop computes the list hash plus the position-weighted sum of the levels |
| WaterPuzzle.HashCollision | puzzles/water/WaterConfig.java:124-144 | capacities 3 and 32: the two fill neighbours of the empty start, levels [3,0] and [0,32], differ but have equal hashes, so the source's equals calls them the same, and [0,32] is a goal |
| WaterPuzzle.EqualsWithinPuzzle | puzzles/water/WaterConfig.java:139-144 | within one puzzle, equality holds exactly when the levels agree |
| Hoppers.Directions | puzzles/hoppers/model/HoppersConfig.java:108-206 | the hop directions tried from a row are exactly the four diagonals, plus the four straight ones on even rows |
| Hoppers.JumpsAlongMembers | puzzles/hoppers/model/HoppersConfig.java:108-206 | the boards produced by trying a list of directions are exactly the leaps along those directions that are possible |
| Hoppers.HopsAtShapes | puzzles/hoppers/model/HoppersConfig.java:108-206 | the hops from a frog are exactly the leaps of an allowed shape over a green frog onto a free pad |
| Hoppers.SolvedIffNoGreens | puzzles/hoppers/model/HoppersConfig.java:225-230 | a board is solved exactly when it counts no green frog |
| Hoppers.LeapCounts | puzzles/hoppers/model/HoppersConfig.java:113-203 | a hop removes exactly one green frog and keeps the red frog |
| Hoppers.HopsAtCounts | puzzles/hoppers/model/HoppersConfig.java:108-206 | every hop from a frog has one green frog fewer and the same red frogs |
| Hoppers.NeighborsCounts | puzzles/hoppers/model/HoppersConfig.java:209-222 | every neighbour of a board has one green frog fewer and the same red frogs |
| Hoppers.Next | puzzles/hoppers/model/HoppersConfig.java:86-102 | the cursor moves two columns right, or to the first pad of the next row |
| Hoppers.NextIsNextPad | puzzles/hoppers/model/HoppersConfig.java:86-102 | the next cursor position is a pad on the board, later in reading order, and no pad lies between the two |
| Hoppers.NextOnBoard | puzzles/hoppers/model/HoppersConfig.java:209-217 | before the last cell, the next cursor position is still on the board |
| Hoppers.CountSet | puzzles/hoppers/model/HoppersConfig.java:113-203 | writing one cell changes a count by the cell's old and new contents only |
| Hoppers.HoppersConfig.Copy | puzzles/hoppers/model/HoppersConfig.java:52-63 | the copy has its own board with the same cells, size and cursor |
| Hoppers.HoppersConfig.NextCell | puzzles/hoppers/model/HoppersConfig.java:86-102 | the cursor moves to the next pad |
| Hoppers.HoppersConfig.TryJump | puzzles/hoppers/model/HoppersConfig.java:113-203 | one direction yields a fresh configuration showing the leap when it is possible, and nothing otherwise |
| Hoppers.HoppersConfig.Hop | puzzles/hoppers/model/HoppersConfig.java:113-203 | the copied board becomes the leap: the frog moves, the green frog it jumped is removed |
| Hoppers.HoppersConfig.ValidHopHelper | puzzles/hoppers/model/HoppersConfig.java:108-206 | the configurations produced show exactly the hops from the frog under the cursor, in the source's order |
| Hoppers.HoppersConfig.VisitCursor | puzzles/hoppers/model/HoppersConfig.java:213-215 | the cell under the cursor contributes its hops when it holds a frog, and nothing otherwise |
| Hoppers.HoppersConfig.GetNeighbors | puzzles/hoppers/model/HoppersConfig.java:209-222 | the configurations produced show exactly the neighbours of the board, pad by pad in reading order; the cursor ends on the last cell |
| Hoppers.HoppersConfig.IsGoal | puzzles/hoppers/model/HoppersConfig.java:225-230 | the goal holds exactly when no cell holds a green frog |
| HoppersGame.Judge | puzzles/hoppers/model/HoppersModel.java:164-232 | an accepted move names an allowed hop direction over a green frog on the board, landing twice as far along it |
| HoppersGame.JudgeMeaning | puzzles/hoppers/model/HoppersModel.java:164-232 | a move is accepted exactly when it has an allowed hop shape over a green frog on the board |
| HoppersGame.AcceptedHopIsNeighbor | puzzles/hoppers/model/HoppersModel.java:144-232 | an accepted move onto a free pad is one of the hops the configuration offers as a neighbour |
| HoppersGame.HoppersModel.constructor | puzzles/hoppers/model/HoppersModel.java:32-35 | a new game holds the configuration with nothing selected |
| HoppersGame.HoppersModel.ValidMove | puzzles/hoppers/model/HoppersModel.java:164-232 | the answer is the judgement of the move on the old board; an accepted move removes the jumped green frog, and nothing else changes |
| HoppersGame.HoppersModel.SecondSelect | puzzles/hoppers/model/HoppersModel.java:144-154 | a free landing pad and an accepted move hop the frog; a move that reads off the board fails with nothing changed; anything else cannot jump and changes nothing |
| HoppersGame.HoppersModel.MoveFrog | puzzles/hoppers/model/HoppersModel.java:148-150 | the frog moves to the landing pad, completing the leap |
| HoppersGame.HoppersModel.Select | puzzles/hoppers/model/HoppersModel.java:120-134 | with nothing selected, a frog becomes the selection and any other cell changes nothing; with a frog selected, the second selection is tried and the selection cleared, except after a failure that escapes before the reset |
| HoppersGame.HoppersModel.Hint | puzzles/hoppers/model/HoppersModel.java:73-87 | a solved board stays as it is; otherwise a solution's second configuration becomes current, and no solution changes nothing |
| JamCars.NewCar | puzzles/jam/model/JamCar.java:26-33 | a new car keeps its name and cells, and is horizontal exactly when its start and end rows agree |
| JamCars.EqualsIsEquality | puzzles/jam/model/JamCar.java:125-131 | two cars are equal by the field-by-field comparison exactly when they are the same value |
| JamCars.MoveVerticallyShifts | puzzles/jam/model/JamCar.java:53-58 | moving vertically shifts both rows by the amount and keeps the name, columns, orientation and length |
| JamCars.MoveHorizontallyShifts | puzzles/jam/model/JamCar.java:66-71 | moving horizontally shifts both columns by the amount and keeps the name, rows, orientation and length |
| JamCars.MoveRoundTrip | puzzles/jam/model/JamCar.java:53-71 | moving by an amount and back gives a car equal to the original |
| JamCars.MovesCompose | puzzles/jam/model/JamCar.java:53-71 | two moves along one axis are one move by the sum |
| JamBoards.CellOfMeaning | puzzles/jam/model/JamConfig.java:71-89 | on a well-placed map, a cell names a car exactly when that car covers it, and is "." exactly when no car does |
| JamBoards.SlidesAlongMembers | puzzles/jam/model/JamConfig.java:150-186 | the neighbours gathered over a list of car names are exactly the allowed one-cell slides of those cars |
| JamBoards.SlidesAlongCount | puzzles/jam/model/JamConfig.java:150-186 | each car contributes at most two neighbours |
| JamBoards.SlidesOrderFree | puzzles/jam/model/JamConfig.java:150-186 | the neighbours do not depend on the order the cars are visited in |
| JamBoards.SlideKeepsWellPlaced | puzzles/jam/model/JamConfig.java:150-186 | an allowed slide keeps every car on the board and no two cars overlapping |
| JamBoards.AttemptIsSlide | puzzles/jam/model/JamConfig.java:244-291 | one attempted step that succeeds is an allowed slide keeping the board well placed; one that fails changes nothing |
| JamBoards.MoveIsSlide | puzzles/jam/model/JamConfig.java:230-296 | a successful move is one of the configuration's neighbours; every other outcome leaves the cars as they were |
| JamBoards.SlideIsMove | puzzles/jam/model/JamConfig.java:150-296 | every neighbour is reachable by selecting the car's start and then the cell it enters |
| JamBoards.JamConfig.Copy | puzzles/jam/model/JamConfig.java:31-41 | the copy has its own board with the same cells, and the same cars |
| JamBoards.JamConfig.PaintCar | puzzles/jam/model/JamConfig.java:77-88 | painting a car writes its name into exactly the cells it covers |
| JamBoards.JamConfig.SetBoardFromMap | puzzles/jam/model/JamConfig.java:71-89 | every cell ends up naming the car that covers it, or "." |
| JamBoards.JamConfig.IsGoal | puzzles/jam/model/JamConfig.java:194-197 | the goal holds exactly when the car X reaches the last column of its row |
| JamBoards.JamConfig.IsACar | puzzles/jam/model/JamConfig.java:202-212 | a cell holds a car exactly when it is on the board and a car covers it; a cell off the board is reported as such |
| JamBoards.JamConfig.Equals | puzzles/jam/model/JamConfig.java:96-108 | two boards of the same size are equal exactly when every cell names the same car, and the same cars give equal boards |
| JamBoards.JamConfig.Neighbor | puzzles/jam/model/JamConfig.java:155-183 | a fresh configuration with the car slid one cell and its board repainted |
| JamBoards.JamConfig.Slidable | puzzles/jam/model/JamConfig.java:155-177 | the board tests for the car's two directions are exactly the slide conditions: not at the edge and the entered cell free |
| JamBoards.JamConfig.NeighborsOf | puzzles/jam/model/JamConfig.java:153-185 | the fresh configurations produced for one car show exactly its allowed slides |
| JamBoards.JamConfig.GetNeighbors | puzzles/jam/model/JamConfig.java:150-186 | every car is visited once, and the fresh configurations produced show exactly the allowed slides of the cars in visiting order |
| JamBoards.JamConfig.TrySlide | puzzles/jam/model/JamConfig.java:244-291 | one step towards a cell: a free cell moves the car and repaints, an occupied cell blocks, and nothing else changes |
| JamBoards.JamConfig.MoveInRow | puzzles/jam/model/JamConfig.java:244-267 | a horizontal car moves left or right when the cell clicked is on its row on that side, and otherwise answers which rule was broken |
| JamBoards.JamConfig.MoveInColumn | puzzles/jam/model/JamConfig.java:269-291 | a vertical car moves up or down when the cell clicked is in its column on that side, and otherwise answers which rule was broken |
| JamBoards.JamConfig.MoveCar | puzzles/jam/model/JamConfig.java:230-296 | the reply and the new cars are the move outcome: off-board selection, no car, a move, or the reason it failed; the board stays consistent and a failed move changes nothing |
| JamGame.JamModel.constructor | puzzles/jam/model/JamModel.java:127-129 | a new game holds the configuration with nothing selected |
| JamGame.JamModel.Select | puzzles/jam/model/JamModel.java:86-103 | with nothing selected, a car becomes the selection and a free or off-board cell changes nothing; with a car selected, the move is the move outcome and the selection is cleared |
| JamGame.JamModel.Hint | puzzles/jam/model/JamModel.java:108-120 | no path leaves the game unchanged; a path of two or more makes the second configuration current; a one-element path means already solved |

## Left out

- Reading puzzle files: the file constructors of the hoppers and jam configurations, `prepareByFile`, and the game models' `load` and `reset`. A configuration is built from values instead.
- The observers, client-data messages, `toString`, `display`, the GUIs and the text interfaces. Replies are datatypes rather than strings.
- The program entry points that read command-line arguments and print a solution.
- Solving.Solver.Solve: takes a ghost `universe` (a finite set containing the start and closed under neighbours) as the termination measure. A search over an unbounded configuration space is not modelled. Only the clock supplies such a set (`ClockPuzzle.UniverseClosed`); the water, hoppers and jam neighbour operations are not connected to `Solve`, and no universe is given for them.
- Solving.Solver.Solve: the generated-configurations counter is an unbounded integer; the source's `int` counter could wrap around after 2^31 - 1 configurations.
- ClockPuzzle.Next: a configuration whose hand is off the dial (the constructor accepts any start, so `ClockConfig(12, 0, 5)` is possible) has no neighbours in the model, and `Solve` then answers that there is no solution. The source throws an `IndexOutOfBoundsException` from `clock.get` instead (for start 0, `clock.get(-2)`).
- Java's `HashMap` iteration order is not modelled. The jam neighbours are stated for the visiting order, returned as a ghost value, and `JamBoards.SlidesOrderFree` shows the set of neighbours does not depend on it.
- WaterPuzzle.Pour: levels are unbounded integers. The source adds two `int` levels, which wraps around when their sum exceeds 2^31 - 1 (two full buckets of capacity 2147483647 pour to -2). The model does not capture that overflow.
- WaterPuzzle.PourConserves: holds for unbounded levels only; with the source's `int` overflow the total is not kept.
- WaterPuzzle.NeighborsKeepBounds: holds for unbounded levels only; with the source's `int` overflow a pour can leave a negative level.
- Hash codes: 32-bit wrap-around is not modelled. `ClockPuzzle.Hash` and `WaterPuzzle.Hash` are unbounded integers. The hoppers and jam hash codes are not modelled. Equality in the solver's map is structural equality of values.
- Hoppers.HoppersConfig: `equals` and `hashCode` are not modelled (the board's structural equality is used).
- Hoppers.HoppersConfig.GetNeighbors: requires an odd column count of at least 3 and an odd row count. For other shapes the source's cursor scan reads outside the board.
- HoppersGame.HoppersModel.Hint and JamGame.JamModel.Hint: take the solver's result as a parameter rather than running the solver.
- HoppersGame.HoppersModel.Select: the out-of-bounds exception that `validMove` can raise is modelled as the reply `IndexError`. The board and selection stay unchanged, as when the exception escapes before the selection is reset.
- JamBoards.JamConfig.MoveCar: the caught `IndexOutOfBoundsException` is modelled as the reply `OffBoard`.
- JamBoards.JamConfig.Copy: requires at least one row, and every car stored under its own name, as the source's constructor and loader guarantee.
- JamBoards.JamConfig.IsGoal: requires a car named X. The source throws a null-pointer exception without one.
- JamBoards.JamConfig.Equals: requires the other board to be at least as large. The source would throw an index exception otherwise.
- JamGame.JamModel.constructor and HoppersGame.HoppersModel.constructor: require a consistent configuration. This is what a loaded file provides.

## Findings

| source | as written | input that shows it | evidently intended | confidence | as-written member | corrected member |
|---|---|---|---|---|---|---|
| puzzles/water/WaterConfig.java:124-144 | `equals` compares hash codes, the list hash plus the position-weighted sum of the levels | capacities [3, 32], amount 32: the neighbours Fill 0 = [3, 0] and Fill 1 = [0, 32] both hash to 1057, so the solver treats the second (a goal) as already discovered | two configurations of one puzzle are equal exactly when their bucket levels agree | not executed | WaterPuzzle.HashCollision | WaterPuzzle.EqualsWithinPuzzle |
