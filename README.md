# PipeGameBlazor core in Dafny

This project models and proves three pieces of the pipe puzzle PipeGameBlazor:

- **The puzzle engine** (`Engine`). It keeps a square map of cells. Each cell has four connector flags (up, down, left, right), a `connected` mark and a player `locked` mark. The engine covers:
  - quarter-turn rotations and lock toggling
  - building a new map: random base cells, ORing in one entry of the cell-type table, then 0-3 counter-clockwise turns
  - the connectivity evaluation: a recursive flood fill from the start cell that crosses a hop only when both facing flags are set
  - the solved check.
- **The maze generator** (`GameCreator`). It grows a frontier over cells coloured WHITE (not reached), GRAY (queued) and BLACK (settled). Each dequeued cell gets links to a random number of its WHITE neighbours. When the queue runs dry, the generator links an "island" (a WHITE cell next to a BLACK one) to a BLACK neighbour with fewer than three links. It also has the small cell helpers (`SetConnection`, `GetOppositeDirection`, `ConnectionCount`, `HasConnections`, `HasBlackNeighbour`).
- **The click and win logic of the canvas session** (`Context2D`):
  - once the round is won, nothing changes
  - a locked cell does not turn
  - button 0 turns the cell counter-clockwise and button 2 clockwise
  - button 1 flips the lock
  - after every click connectivity is re-evaluated from scratch, and the round is won exactly when every cell is connected.

Modules, one file each:

- `Common` (`common.dfy`): Option and grid coordinates.
- `Oracle` (`oracle.dfy`): the random source. Callers see only the range contract of `Next`.
- `Cells` (`cells.dfy`): the cell record, rotations, the cell-type table.
- `Connectivity` (`connectivity.dfy`): walks and reachability on a snapshot of the map. This is the specification the flood fill is proved against.
- `PipeEngine` (`engine.dfy`): class `Engine` over an `array2<Cell>`.
- `MazeGen` (`mazegen.dfy`): the generator. Its cell objects become records in a map keyed by coordinate, and a link becomes the coordinate of the linked cell.
- `GameContext` (`context.dfy`): class `Context2D`.

The main results:

- After `ResetConnections`, a cell is connected exactly when it is reachable from the start cell. The start cell is always connected, and a connected cell other than the start has a flag set. Only `connected` marks change.
- The marks depend on the connector flags alone. So visiting order, locks and earlier marks make no difference, and a second evaluation yields the same marks.
- Rotations are inverse to each other and have order four.
- `GenerateMap` never lowers a cell's number of set flags, and `Restart` leaves every cell unlocked.
- `CreateGame` returns a matrix with these properties:
  - every link is matched by the link back from the grid neighbour on that side
  - no cell has more than three links
  - WHITE cells have no links
  - the links form a tree over the BLACK cells, rooted at the start cell, so a chain of links leads from every BLACK cell to the start.
- A click on a won round changes nothing. A click otherwise changes the clicked cell as the button says, re-derives the marks, and sets the win flag exactly when every cell is connected.

`Engine.Restart` fills random cells, ORs random cell types into them and never calls `GameCreator`, so the model claims nothing about solvability.

## Model

| member | source | states |
|---|---|---|
| Oracle.Random.Next | PipeGameBlazor/Services/engine/Engine.cs:165-167 | System.Random.Next(min, max): a value in [min, max), or min when the bounds are equal |
| Cells.CreateEmptyCell | PipeGameBlazor/Services/engine/Engine.cs:49-59 | a new cell with no connector flag set, so no side accepts it; unlocked, connected as asked |
| Cells.ResolveDirection | PipeGameBlazor/Services/engine/Engine.cs:149-161 | Any accepts every cell; a side accepts a cell only when it has some flag set |
| Cells.ResolveExactlyFlags | PipeGameBlazor/Services/engine/Engine.cs:149-161 | two cells resolve every direction alike exactly when their four connector flags agree |
| Cells.Opposite | PipeGameBlazor/Services/engine/Engine.cs:130-145 | the side a neighbour is entered from is Any only for Any and otherwise differs from the side left |
| Cells.StepOpposite | PipeGameBlazor/Services/engine/Engine.cs:130-145 | stepping to a neighbour and back through the opposite side returns to the cell; Opposite is an involution |
| Cells.ToggleLocked | PipeGameBlazor/Services/engine/Engine.cs:213-216 | the lock flips; the flags and the connected mark are kept |
| Cells.ToggleTwice | PipeGameBlazor/Services/engine/Engine.cs:213-216 | toggling the lock twice restores the cell |
| Cells.RotateCCW | PipeGameBlazor/Services/engine/Engine.cs:92-100 | a counter-clockwise turn keeps the number of set flags, connected and locked; the flag toward TurnedCCW(d) afterwards is the flag toward d before |
| Cells.RotateCW | PipeGameBlazor/Services/engine/Engine.cs:102-110 | a clockwise turn keeps the number of set flags, connected and locked; the flag toward d afterwards is the flag toward TurnedCCW(d) before |
| Cells.RotationsInverse | PipeGameBlazor/Services/engine/Engine.cs:92-110 | a clockwise turn undoes a counter-clockwise one and the other way round |
| Cells.FourTurnsIdentity | PipeGameBlazor/Services/engine/Engine.cs:92-110 | four counter-clockwise turns, or four clockwise turns, restore the cell |
| Cells.CellTypeFlags | PipeGameBlazor/Services/engine/Engine.cs:218-227 | ORing table entry k into an empty cell sets exactly the sides it names, and as many flags as it names |
| Cells.TurnsKeepCount | PipeGameBlazor/Services/engine/Engine.cs:192-196 | any number of counter-clockwise turns keeps the number of set flags, connected and locked |
| Cells.AddDirectionsSets | PipeGameBlazor/Services/engine/Engine.cs:181-191 | after the foreach over a cell type, a flag is set exactly when it was set before or its side is named in the type; connected and locked are kept |
| Cells.GeneratedKeepsFlags | PipeGameBlazor/Services/engine/Engine.cs:177-198 | generating a cell never lowers its number of set flags and keeps connected and locked |
| Connectivity.ReachableStep | PipeGameBlazor/Services/engine/Engine.cs:130-145 | a cell one crossable hop from a reachable cell is reachable |
| Connectivity.ClosedHoldsReachable | PipeGameBlazor/Services/engine/Engine.cs:124-147 | marks that hold the start cell and pass across every crossable hop hold every reachable cell |
| Connectivity.ReachableFlagsOnly | PipeGameBlazor/Services/engine/Engine.cs:149-160 | reachability reads the connector flags only: snapshots with the same flags have the same reachable cells, whatever their locks and marks |
| Connectivity.ReachedCellHasFlag | PipeGameBlazor/Services/engine/Engine.cs:127-145 | a reachable cell other than the start has at least one flag set |
| Connectivity.StartMarked | PipeGameBlazor/Services/engine/Engine.cs:121-129 | when the marks are the reachable cells, the start cell is marked whatever its flags |
| Connectivity.MarkedCellHasFlag | PipeGameBlazor/Services/engine/Engine.cs:127-160 | when the marks are the reachable cells, a marked cell other than the start has a flag set |
| Connectivity.MarksDetermined | PipeGameBlazor/Services/engine/Engine.cs:112-147 | two evaluations on maps with the same flags give the same marks: the result is independent of visiting order, locks and earlier marks, and re-evaluating changes nothing |
| PipeEngine.Engine.constructor | PipeGameBlazor/Services/engine/Engine.cs:29-35 | a square map of the given size, start cell (0, 0) |
| PipeEngine.Engine.RotateCellCCW | PipeGameBlazor/Services/engine/Engine.cs:92-100 | cell (i, j) becomes RotateCCW of itself; every other cell is unchanged |
| PipeEngine.Engine.RotateCellCW | PipeGameBlazor/Services/engine/Engine.cs:102-110 | cell (i, j) becomes RotateCW of itself; every other cell is unchanged |
| PipeEngine.Engine.ToggleLock | PipeGameBlazor/Services/engine/Engine.cs:213-216 | only the lock of cell (i, j) flips; every other cell is unchanged |
| PipeEngine.Engine.CheckSolution | PipeGameBlazor/Services/engine/Engine.cs:201-211 | true exactly when every cell is connected; modifies nothing |
| PipeEngine.Engine.CreateRandomCell | PipeGameBlazor/Services/engine/Engine.cs:61-72 | a new cell with random flags, not connected and not locked |
| PipeEngine.Engine.InitMap | PipeGameBlazor/Services/engine/Engine.cs:37-47 | a fresh map with no cell connected or locked; all cells empty when not randomized; start cell kept |
| PipeEngine.Engine.CreateGameMatrix | PipeGameBlazor/Services/engine/Engine.cs:75-90 | a fresh rows x columns matrix whose every entry indexes the cell-type table |
| PipeEngine.Engine.GenerateMap | PipeGameBlazor/Services/engine/Engine.cs:175-199 | Map[j, i] becomes its old value with the flags of type mapData[i, j] ORed in, then 0-3 counter-clockwise turns; locks are kept |
| PipeEngine.Engine.RotateTimesCCW | PipeGameBlazor/Services/engine/Engine.cs:192-196 | the countdown loop applies exactly `turns` counter-clockwise turns to cell (i, j) and to no other cell |
| PipeEngine.Engine.Restart | PipeGameBlazor/Services/engine/Engine.cs:163-173 | a fresh map with every cell unlocked, marks equal to the cells reachable from the new start cell, start cell marked |
| PipeEngine.Engine.ResetConnections | PipeGameBlazor/Services/engine/Engine.cs:112-122 | only marks change; afterwards a cell is connected exactly when it is reachable from the start cell, and the start cell is connected |
| PipeEngine.Engine.ClearConnections | PipeGameBlazor/Services/engine/Engine.cs:114-120 | every cell keeps flags and lock and loses its mark |
| PipeEngine.Engine.Connect | PipeGameBlazor/Services/engine/Engine.cs:124-147 | only marks change and none is cleared; every marked cell is reachable; the cell is marked when its flag toward the entry side is set; every newly marked cell has all its crossable hops leading to marked cells |
| PipeEngine.Engine.Mark | PipeGameBlazor/Services/engine/Engine.cs:127-129 | the entered cell becomes connected, nothing else changes, and the marks stay reachable |
| PipeEngine.Engine.ConnectSides | PipeGameBlazor/Services/engine/Engine.cs:130-145 | after the four continuations, every crossable hop out of the cell leads to a marked cell; only marks change |
| PipeEngine.Engine.ConnectSide | PipeGameBlazor/Services/engine/Engine.cs:130-133 | one guarded continuation: the hop toward that side, if crossable, leads to a marked cell; only marks change |
| PipeEngine.Engine.MarksAreReachable | PipeGameBlazor/Services/engine/Engine.cs:112-147 | marks that are reachable, hold the start cell and are closed under crossable hops are exactly the reachable cells |
| PipeEngine.Engine.MarksClosed | PipeGameBlazor/Services/engine/Engine.cs:124-147 | marks closed under the hops of the map before the traversal are closed under the hops of the map after it |
| GameContext.ApplyClick | PipeGameBlazor/Services/engine/Context2D.cs:60-75 | the lock flips exactly on button 1; a locked cell, or a button other than 0 and 2, keeps its flags; on an unlocked cell button 0 turns counter-clockwise and button 2 clockwise; the flag count is kept |
| GameContext.ClicksUndo | PipeGameBlazor/Services/engine/Context2D.cs:60-75 | on an unlocked cell a right click undoes a left click and the other way round; two middle clicks restore any cell |
| GameContext.Context2D.constructor | PipeGameBlazor/Services/engine/Context2D.cs:15-23 | a new session over a fresh engine, not won |
| GameContext.Context2D.Start | PipeGameBlazor/Services/engine/Context2D.cs:45-50 | the win flag is cleared and the engine restarts: every cell unlocked, marks equal to the reachable cells |
| GameContext.Context2D.Act | PipeGameBlazor/Services/engine/Context2D.cs:60-75 | the clicked cell changes as ApplyClick says and no other cell changes |
| GameContext.Context2D.Click | PipeGameBlazor/Services/engine/Context2D.cs:52-86 | a won round stays won and the map is untouched; otherwise the clicked cell changes as ApplyClick says up to its mark, every other cell keeps flags and lock, marks are the reachable cells, and the round is won exactly when every cell is connected |
| MazeGen.GetOppositeDirection | PipeGameBlazor/Services/engine/GameCreator.cs:178-188 | defined exactly on the four side names (an error otherwise); the result is another side name, and stepping there and back returns to the cell |
| MazeGen.OppositeInvolution | PipeGameBlazor/Services/engine/GameCreator.cs:178-188 | the opposite of the opposite is the original side |
| MazeGen.ConnectionCount | PipeGameBlazor/Services/engine/GameCreator.cs:190-198 | at most four, and zero exactly when no link is set |
| MazeGen.HasConnections | PipeGameBlazor/Services/engine/GameCreator.cs:135-138 | true exactly when the connection count is positive |
| MazeGen.SetConnection | PipeGameBlazor/Services/engine/GameCreator.cs:140-176 | only the named link changes, to the target; colour and neighbours are kept; any other name changes nothing |
| MazeGen.SetConnectionCount | PipeGameBlazor/Services/engine/GameCreator.cs:140-176 | setting a link that was unset adds one to the connection count |
| MazeGen.NeighboursAdjacent | PipeGameBlazor/Services/engine/GameCreator.cs:84-95 | every listed neighbour is in the grid, one step away on the side its name says |
| MazeGen.NeighboursComplete | PipeGameBlazor/Services/engine/GameCreator.cs:84-95 | every grid cell one step away on a side is listed under that side's name |
| MazeGen.NeighboursSymmetric | PipeGameBlazor/Services/engine/GameCreator.cs:84-95 | if a lists b under a side, b lists a under the opposite side |
| MazeGen.NeighboursDistinct | PipeGameBlazor/Services/engine/GameCreator.cs:84-95 | no cell is listed twice in a neighbour list |
| MazeGen.CreateCell | PipeGameBlazor/Services/engine/GameCreator.cs:81-95 | creating cell (i, j) extends every list built so far as the row-by-row construction prescribes |
| MazeGen.EmptyMatrix | PipeGameBlazor/Services/engine/GameCreator.cs:76-99 | a rows x columns matrix of WHITE cells without links, each listing exactly its grid neighbours in construction order |
| MazeGen.Random | PipeGameBlazor/Services/engine/GameCreator.cs:101-104 | a value from min to max inclusive, or min when max is min - 1 |
| MazeGen.BlackNeighbourAdjacent | PipeGameBlazor/Services/engine/GameCreator.cs:200-203 | on a matrix whose cells list their grid neighbours, HasBlackNeighbour holds exactly when a grid cell one step away is BLACK |
| MazeGen.PickFromIslands | PipeGameBlazor/Services/engine/GameCreator.cs:106-117 | none exactly when no WHITE cell has a BLACK neighbour; otherwise such a cell |
| MazeGen.ConvertMatrix | PipeGameBlazor/Services/engine/GameCreator.cs:119-130 | a fresh array of the same size holding the matrix's cells |
| MazeGen.FindAll | PipeGameBlazor/Services/engine/GameCreator.cs:41 | the entries satisfying the filter, and only those |
| MazeGen.FindAllDistinct | PipeGameBlazor/Services/engine/GameCreator.cs:41 | filtering a list of distinct cells keeps them distinct |
| MazeGen.RemoveAt | PipeGameBlazor/Services/engine/GameCreator.cs:48 | one entry shorter, no new entries, and without the removed cell when the cells were distinct |
| MazeGen.Attach | PipeGameBlazor/Services/engine/GameCreator.cs:50-51 | the paired SetConnection calls (also at the island link): same cells; the cell links to the neighbour on the named side and the neighbour links back on the opposite side; every other cell is unchanged |
| MazeGen.AttachAgree | PipeGameBlazor/Services/engine/GameCreator.cs:50-51 | linking a cell and its neighbour both ways, when one of them has no links, keeps every link matched by the link back and adds one link to each |
| MazeGen.InitialInv | PipeGameBlazor/Services/engine/GameCreator.cs:30-35 | with the start cell GRAY and queued, the loop invariant holds |
| MazeGen.DequeueStep | PipeGameBlazor/Services/engine/GameCreator.cs:39-40 | dequeuing a cell and making it BLACK keeps the invariant; the cell has at most one link |
| MazeGen.BranchStep | PipeGameBlazor/Services/engine/GameCreator.cs:50-53 | linking the BLACK item to a WHITE neighbour, colouring it GRAY and queueing it keeps the invariant and adds one link to the item |
| MazeGen.LinkBranchStep | PipeGameBlazor/Services/engine/GameCreator.cs:44-54 | one pass of the branching loop keeps the branching invariant |
| MazeGen.IslandStep | PipeGameBlazor/Services/engine/GameCreator.cs:64-67 | linking a WHITE island to a BLACK neighbour with fewer than three links and queueing it keeps the invariant |
| MazeGen.FinalMaze | PipeGameBlazor/Services/engine/GameCreator.cs:37-73 | with the queue empty, the invariant is the maze CreateGame returns |
| MazeGen.ParentChain | PipeGameBlazor/Services/engine/GameCreator.cs:44-67 | following parents from any reached cell leads, link by link, to the start cell |
| MazeGen.MazeConnected | PipeGameBlazor/Services/engine/GameCreator.cs:28-74 | from every BLACK cell of the finished maze a chain of links leads to the start cell |
| MazeGen.CreateGame | PipeGameBlazor/Services/engine/GameCreator.cs:28-74 | terminates; the result is a grid whose links agree both ways, with at most three links per cell, no links on WHITE cells, and links forming a tree over the BLACK cells rooted at the start cell; it stops only when no island is left or some island has no BLACK neighbour with fewer than three links |
| MazeGen.Settle | PipeGameBlazor/Services/engine/GameCreator.cs:37-71 | one pass of the queue loop keeps the invariant, turns the dequeued cell BLACK and settles one more cell; the queue comes back empty only when no island is left or some island has no BLACK neighbour with fewer than three links |
| MazeGen.Branch | PipeGameBlazor/Services/engine/GameCreator.cs:41-54 | keeps the invariant and the item BLACK; queues at most two new cells if the item had links and at most three otherwise; the item gains one link per queued cell; every queued cell was WHITE and is a child of the item |
| MazeGen.LinkBranch | PipeGameBlazor/Services/engine/GameCreator.cs:46-53 | one candidate is removed from the list and queued; the branching invariant is kept |
| MazeGen.RepairIsland | PipeGameBlazor/Services/engine/GameCreator.cs:56-70 | keeps the invariant and every colour; when the queue comes back empty the matrix is unchanged and either no island is left or some island has no BLACK neighbour with fewer than three links; otherwise the queue holds just an island that has been linked both ways to one of its BLACK neighbours with fewer than three links; when there is no island the queue stays empty |
| MazeGen.LinkIsland | PipeGameBlazor/Services/engine/GameCreator.cs:61-68 | keeps the invariant; the island is queued exactly when it has a BLACK neighbour with fewer than three links, and then the matrix is the island linked both ways to such a neighbour; otherwise nothing changes; no colour changes either way |

## Left out

- Engine maps must be square (Rows == Columns >= 1). Several parts of the engine use `i` as the column index: the traversal bounds, the start-cell draw, GenerateMap and CheckSolution. The map itself is allocated [Rows, Columns], so the code stays in bounds only on a square map. The axes are modelled as written, not corrected.
- PipeEngine.Engine.constructor fills the map with empty cells. The source leaves null slots until the first Restart, so the null check in Connect has no counterpart.
- Randomness is a `Random` object whose only promise is the range of `Next`. The source creates a new `System.Random` at each use; the model passes one object around. Distribution and uniformity are not modelled.
- The cell-type table names directions with the strings "up", "down", "left" and "right". The model uses the matching `Direction` values, so the switch's unmatched-string case does not arise.
- The recursive Engine.Connect is split into Mark, ConnectSides (a loop over the four sides in the source's order) and ConnectSide. Each is a method on the same map, with the same guards and the same recursion.
- Generator cells are records keyed by coordinate, not shared mutable objects. A link is the coordinate of the linked cell, and an aliasing bug between two cell objects cannot be expressed.
- The generator cell's `Direction` and `NeighbourCell` fields are never read or written by the generator and are not modelled. The two SetConnection overloads are one function taking a side name and a target.
- CreateGame's loop body is split into Settle, Branch, LinkBranch, RepairIsland and LinkIsland.
- MazeGen.CreateGame requires at least one row and one column. On an empty grid the source indexes its start cell out of range.
- MazeGen.Branch: the bound by the number of WHITE neighbours is not stated on its own. It follows from each queued cell being a distinct, formerly WHITE cell that is linked to the item.
- MazeGen.CreateGame does not promise that every cell is reached. When every BLACK neighbour of the picked island already has three links, the loop ends with WHITE cells left, as the source does.
- Solvability of the map built by Restart is not modelled or proved, because Restart does not use the maze generator.
- GameContext.Context2D.Click takes the cell indices as in-range integers. The pixel-to-index conversion, which reads the canvas geometry through JavaScript, is not modelled, and a click outside the map (an index error in the source) is excluded by the precondition.
- Drawing, the win message, the `onWin` callback and async plumbing in Context2D are not modelled. The one-shot win flag that guards the callback is modelled.
- TimerService.cs, canvasInterop.js, Program.cs and Cell.cs are not part of this model. They are timing, browser glue, host wiring and an unused data class.
