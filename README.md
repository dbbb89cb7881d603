# Maze generator model

A Dafny model of the maze generator of the Maze program, with proofs. The
generator is a randomised carving walk on the odd lattice of a 17 x 17
boolean grid. After it, the two pickers run and open one cell on the top
border (the entrance) and one on the bottom border (the exit).

The source contains the same algorithm twice:

- `src/testmaze.cc` splits it into `makeMaze`, `makeEntrance` and `makeExit`.
- `testmaze.cc` writes everything inline in `main`.

Both are modelled in the imperative form of the source:

- the grid is an `array2<bool>` updated in place;
- `dirs` is an `array<Dir>` shuffled in place;
- the cursor, `done` and `blocked` are loop variables;
- `freeCols` is a sequence built by appending in a loop.

A ghost set of positions mirrors the open cells of the array. Every loop
invariant about the carving is stated on that set.

Modules:

- `Wrappers`: `Option`.
- `MazeGrid`: the domain.
  - Positions, directions, the odd lattice and its size.
  - The carving invariant (`Carving`) and the finished layout (`FullyCarved`, `IsMazeLayout`, `IsMaze`).
  - Walks through open cells, and the ghost tree that shows every carved node is connected to the first one.
- `RandomOracle`: the random choices, which the caller supplies.
  - An `Oracle` holds a stream of results of the program's explicit `rand()` calls and a stream of permutations, one per `std::random_shuffle` call.
  - The streams are consumed in the order the source calls them: restart row, restart column, then, if that node is open, a shuffle and one roll per inner pass (a roll divisible by 5 takes another shuffle); after the restart loop, the entrance roll and the exit roll.
  - The generated grid is therefore a function of the oracle: `MakeMaze` and `GenerateInline` return exactly the cells `Carved(o)` opens plus the entrance and the exit in the columns that the two picker rolls select (`MazeGrid.Openings`).
- `CarveRun`: the two carving loops of `makeMaze` as functions of the oracle (`InnerRun`, `OuterRun`, `Carved`). Each reads the oracle entry by entry and returns the cells it opens together with the positions in the two streams where it stopped reading.
- `Generator`: `makeMaze`, `makeEntrance` and `makeExit` of `src/testmaze.cc`. Its loops are proved to compute the `CarveRun` functions, counts of rolls and shuffles included.
- `InlineGenerator`: the inline version in `main` of `testmaze.cc`.
  - Lines 15-77 of that file are the same statements as lines 23-85 of `src/testmaze.cc`, so this module reuses `Generator.ClearMaze` and `Generator.CarveMaze`.
  - Its own code is the freeCols handling of lines 79-93. Both files index `freeCols[rand() % freeCols.size()]` without checking that the list is non-empty. In the model, `Generator.MakeEntrance` and `Generator.MakeExit` turn the empty case into `None`, while `InlineGenerator.OpenEntranceAndExit` indexes directly and proves the index in range.

What is proved about a run that the oracle does not cut short:

- The grid starts all wall.
- Each restart lands on an odd-odd interior cell.
- Each carve does three things:
  - it opens a closed lattice node two steps away and the corridor cell between;
  - it moves the cursor there;
  - it raises `done` by one.
  
  So the `2 * done + 1` count of open cells is kept.
- The cursor is always an open lattice node.
- An inner loop ends only when all four directions are blocked.
- At the end of the outer loop every lattice node is open, and the open cells number exactly `2 * NodeCount - 1`.
- Each node was carved from an open node through an open link. The open cells are therefore connected: in the finished grid, every open cell can reach the entrance by a walk through open cells, and the exit is one of those cells.
- The entrance and the exit are the only open border cells.
- Neither picker ever meets an empty `freeCols`.

Three facts about the code shape the model:

- The program fixes `MAP_HEIGHT = MAP_WIDTH = 17` and has no dimension check; the model keeps the two constants.
- The pickers divide by `freeCols.size()` without checking that it is non-zero. `Generator.MakeEntrance` and `Generator.MakeExit` return `None` there, and both `OpenEntranceAndExit` methods prove that case never arises after carving.
- Each `std::random_shuffle` call is an arbitrary permutation taken from the oracle.

`Generator.MakeMaze` and `InlineGenerator.GenerateInline` return the numbers of rolls and shuffles they read. These are pinned to `Carved(o)`, which moves past exactly the entries the loops consume. A run fails, with `None` or `ok == false`, exactly when the entry it needs next is missing: two rolls for a restart, a roll for an inner pass, a shuffle, or the two picker rolls.

## Model

| member | source | states |
|---|---|---|
| Generator.ClearMaze | src/testmaze.cc:25-29 | afterwards every cell of the grid is closed |
| RandomOracle.RestartCoord | src/testmaze.cc:43-44 | a restart coordinate is odd and lies in 1 .. size - 2 |
| RandomOracle.RestartCoordCovers | src/testmaze.cc:43-44 | every odd interior coordinate is drawn by some roll, so a restart can land on any lattice node |
| RandomOracle.Permuted | src/testmaze.cc:53 | a shuffle keeps exactly the four entries of dirs, in the order the permutation picks |
| Generator.Shuffle | src/testmaze.cc:58-60 | dirs is rearranged in place into the permuted order drawn from the oracle |
| Generator.OpenCell | src/testmaze.cc:70-72 | writing true at one cell adds exactly that cell to the open set |
| Generator.TryDirection | src/testmaze.cc:64-79 | one pass of the for loop carves exactly when the cell two steps away is interior and closed; it then opens that cell and the intermediate cell and returns the destination, and otherwise changes nothing |
| Generator.ScanDirections | src/testmaze.cc:61-80 | the first direction in dirs order whose destination is interior and closed is carved: destination and intermediate cell opened, cursor moved; if none is carvable nothing changes and each of the four entries of dirs is blocked |
| MazeGrid.CarveKeepsCarving | src/testmaze.cc:64-76 | a carve opens two previously closed cells, a lattice node and the corridor before it, and keeps the invariant with done + 1 (open cells 2 * done + 1, open nodes done + 1, every open cell interior and a node or a link between two open nodes) |
| MazeGrid.CarveKeepsRooted | src/testmaze.cc:68-76 | the new node hangs, through the newly opened link, off the cursor it was carved from, so the open nodes stay a tree grown from the first node |
| CarveRun.InnerRun | src/testmaze.cc:55-82 | the inner do-while as a function of the oracle: each pass reads one roll, a multiple of 5 also reads a shuffle, and the pass carves or ends the loop; cells only open, done never falls, it fails only when the roll or shuffle stream is used up, and a run that lasts reads exactly one roll more than it carves (one that runs out at most that many) |
| CarveRun.OuterRun | src/testmaze.cc:40-85 | the restart do-while as a function of the oracle: two rolls per restart, a shuffle and an inner run from an open node; cells only open and it fails only when two rolls or a shuffle are missing or the inner run ran out |
| CarveRun.Carved | src/testmaze.cc:31-85 | the carving of makeMaze from an all-wall grid with dirs in its initial order; it reads no more rolls and shuffles than the oracle holds and fails only when two rolls or a shuffle are missing |
| Generator.ScanAndCarve | src/testmaze.cc:61-80 | the scan either carves towards the first carvable entry of dirs, keeping the carving invariant and the tree with done + 1, or finds all four blocked and changes nothing; a blocked cursor has done > 0 and no carvable direction |
| Generator.InnerPass | src/testmaze.cc:57-82 | one pass of the inner do-while reads exactly one roll, reshuffles dirs on a multiple of 5, and is one step of InnerRun; it keeps the carving invariant and the tree |
| Generator.CarveFrom | src/testmaze.cc:55-82 | the inner do-while computes InnerRun, success flag, read positions, cursor, dirs, open cells and done included; it only ever opens cells and nodes, keeps the carving invariant and the tree, reads exactly one roll more than it carves when it lasts, and ends only when no direction is carvable from the cursor |
| Generator.FirstPassCarves | src/testmaze.cc:46-82 | from the single first open node a carve is always possible, so done is positive after the first inner loop |
| MazeGrid.LoneNodeCanCarve | src/testmaze.cc:46-50 | a lone open node can always carve north or south |
| MazeGrid.LatticeSize | src/testmaze.cc:85 | the loop bound ((H - 1) * (W - 1)) / 4 is the number of lattice nodes |
| MazeGrid.AllNodesOpenAtBound | src/testmaze.cc:85 | once done + 1 reaches the bound, every lattice node is open and the open nodes number exactly the bound |
| MazeGrid.RootedReaches | src/testmaze.cc:70-73 | from every open node, following the carves back leads to the first node through open cells |
| MazeGrid.CarvedIsConnected | src/testmaze.cc:40-85 | the fully carved interior is connected: every open cell walks to the first node |
| Generator.Restart | src/testmaze.cc:43-83 | one restart pass reads two rolls for an odd interior node, opens it when done is 0, and is one step of OuterRun; when it lasts the carving invariant and the tree hold with done > 0 |
| Generator.RestartOpen | src/testmaze.cc:50-83 | from an open restart node it shuffles dirs and runs the inner loop, which is one step of OuterRun; with no shuffle left it fails after the two rolls |
| Generator.CarveMaze | src/testmaze.cc:31-85 | started on an all-wall grid, the restart loop computes Carved(o), flag, read positions and open cells included; when it lasts every lattice node is open, there are 2 * NodeCount - 1 open cells, all interior and each a node or a link, all connected |
| Generator.FreeColumns | src/testmaze.cc:99-105 | the free columns of a row are exactly its open cells in columns 1 .. W - 2, in increasing order |
| Generator.CollectFreeCols | src/testmaze.cc:99-105 | the push_back loop builds exactly that list |
| MazeGrid.OpenColumns | src/testmaze.cc:99-105 | the open columns 1 .. hi - 1 of a row of a set of cells are exactly its members there, in increasing order |
| Generator.FreeColumnsAgree | src/testmaze.cc:99-105 | on a row where the array and the set of open cells agree, the freeCols list of the array is the open-column list of the set |
| MazeGrid.PickColumn | src/testmaze.cc:107 | the picked column, freeCols[roll % freeCols.size()], lies in 1 .. W - 2 and is open in the row scanned |
| MazeGrid.Openings | src/testmaze.cc:87-91 | the finished open cells contain the carved ones, plus the entrance and the exit at the picked columns |
| Generator.MakeEntrance | src/testmaze.cc:98-107 | None exactly when row 1 has no open interior cell; otherwise (0, c) with c the column the roll picks from freeCols, 1 <= c <= W - 2 and cell (1, c) open; the grid is not changed |
| Generator.MakeExit | src/testmaze.cc:112-121 | None exactly when row H - 2 has no open interior cell; otherwise (H - 1, c) with c the column the roll picks, 1 <= c <= W - 2 and cell (H - 2, c) open; the grid is not changed |
| Generator.OpenEntranceAndExit | src/testmaze.cc:87-91 | after carving neither pick fails; ce and cx are the columns PickColumn takes with the entrance and exit rolls, and the grid gains exactly the entrance above (1, ce) and the exit below (H - 2, cx), both open |
| Generator.OpeningsFinishMaze | src/testmaze.cc:87-93 | those two openings on a fully carved, connected interior give the finished layout: the only open border cells are the entrance and the exit, and every open cell reaches the entrance |
| Generator.OpeningsArePicked | src/testmaze.cc:87-91 | the entrance and exit opened at the picked columns are exactly the cells Openings adds to the carved interior |
| Generator.OpeningsMakeMaze | src/testmaze.cc:87-93 | a grid whose open cells are Openings(carved, rollEntrance, rollExit) is a finished maze whose interior is the carved cells |
| Generator.Snapshot | src/testmaze.cc:93 | the returned value grid has H rows of W cells, equal to the array, and its open cells are the mirrored set |
| Generator.FinishMaze | src/testmaze.cc:87-93 | after a full carving the returned grid is a finished maze whose open cells are exactly Openings(carved, rollEntrance, rollExit): the carved cells plus the two openings the rolls pick |
| Generator.MakeMaze | src/testmaze.cc:22-94 | the result is None exactly when Carved(o) runs out or no two rolls remain for the pickers; the counts returned are those Carved(o) read plus the two picker rolls; every grid it returns is a finished maze whose open cells are exactly the cells Carved(o) opens plus the entrance and exit that the next two rolls pick |
| InlineGenerator.OpenEntranceAndExit | testmaze.cc:79-93 | both freeCols lists are non-empty, so the unchecked `rand() % freeCols.size()` index is in range; ce and cx are the columns PickColumn takes with the two rolls; the grid gains exactly the entrance and the exit |
| InlineGenerator.FinishInline | testmaze.cc:79-93 | after a full carving the grid main prints is a finished maze whose open cells are exactly Openings(carved, rollEntrance, rollExit) |
| InlineGenerator.GenerateInline | testmaze.cc:15-93 | the result is None exactly when Carved(o) runs out or no two rolls remain for the entrance and the exit; the counts are pinned as for MakeMaze; every grid it returns, the one main prints, is a finished maze whose open cells are exactly the cells Carved(o) opens plus the entrance and exit the next two rolls pick |

## Left out

- Text output: `draw` and the `putchar` loops in both files. These are presentation only.
- Seeding with `srand(time(NULL))`. The clock is a source of entropy only; the oracle replaces it.
- The distributions of libc `rand()` and `std::random_shuffle`. Each call takes the next oracle entry, so uniformity is not stated.
- Generator.CarveMaze: termination of the outer restart loop is not proved, because it holds only with probability one. An adversarial oracle can keep picking blocked nodes. The loop decreases the unread part of the finite roll stream instead, and a run that exhausts the oracle fails.
- Generator.MakeMaze, InlineGenerator.GenerateInline: which oracles last long enough is not characterised in closed form. The contracts pin the grid to `Carved(o)` and the two picker rolls that follow it, but they do not bound how many entries a run needs.
- The draws that the two-argument `std::random_shuffle` makes internally (from `rand()` in common standard libraries). The roll stream holds only the program's explicit `rand()` calls, and each shuffle's result comes separately from the permutation stream.
- RandomOracle.Permuted: states that the four entries are kept as a set, not as a multiset. This suffices here because dirs always holds the four distinct directions.
- Acyclicity (the "exactly one path" half of a perfect maze) is not proved as a separate statement. What is proved is connectivity, plus exactly `NodeCount - 1` links joining `NodeCount` nodes, and these two together imply a tree.
- The swap steps inside `std::random_shuffle`. The shuffle is modelled by the permutation it produces.
- The autonomous walker, sprite rendering and windowing are not part of this model.
