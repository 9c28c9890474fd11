# Minesweeper rule engine in Dafny

This project models the rule engine of a Minesweeper game, `GameEngine`, and the
`Cell` record it owns, and proves what the engine promises. The board is 10 x 10
with 5 mines. Mines are placed by a rejection loop over random indices. Every
safe cell stores the number of mined cells around it. The player can do two
things: reveal a cell and toggle a flag. Revealing a mine loses the game.
Revealing a safe cell with no mined neighbour starts a breadth-first flood fill:
it uses a queue and a per-call `seen` array. A counter of revealed safe cells
drives the win test. `revealAll` uncovers the whole board for the end-of-game
display.

Layout, one module per file:

- `cell.dfy` (`CellRecord`): the class `Cell`. Its coordinates are `const`; its
  mine, flag, count and revealed fields are assigned in place.
- `engine.dfy` (`Engine`): the class `GameEngine`. It has a `const board` of
  cells, the fields `gameOver`, `won` and `revealedSafe`, and one method per
  engine operation. Each loop of the source is a loop here, with its
  invariants. The flood fill runs over the same queue and `seen` array as the
  source.
- `rules.dfy` (`Rules`), pure definitions:
  - the constants and the board geometry (`Grid`, `Neighbours`);
  - the reference count `MinesAround`, and the offset scan that computes it;
  - the rejection loop of mine placement as a function of the draws (`Sample`);
  - the counting facts behind the win test.
- `flood.dfy` (`Flood`): the flood fill on values.
  - One inner-loop step is `Visit`; the loops keep the invariant `Inv`.
  - The region the fill should open is defined independently, as rounds of
    spreading through zero cells (`Region`).
  - `FillIsRegion` proves that a finished fill opened exactly that region.
- `game.dfy` (`Play`): the whole engine as a value `Game`.
  - `Consistent` is the invariant every public operation keeps.
  - There is one step function per public operation: `RevealStep`,
    `ToggleStep` and `Disclose`.
  - Each public method of `GameEngine` ensures that its new abstract `State()`
    is that step applied to the old one.
  - The lemmas here state what each step does.

The board's abstract state is read through `MineSet`, `FlagSet`,
`RevealedSet` and `Adj`, one set or map per mutable cell field.

The code has fixed constants and no construction-error path, so the model has
none either. Coordinates outside the board are a precondition of `reveal` and
`toggleFlag` (see "Left out").

## Model

| member | source | states |
|---|---|---|
| CellRecord.Cell.constructor | app/src/main/java/com/example/gridlayout/Cell.java:4-13 | the cell keeps the given row and column for good; a fresh cell is not a mine, not flagged, not revealed, and has count 0 |
| Rules.OffsetNeighbour | app/src/main/java/com/example/gridlayout/GameEngine.java:33-37 | an in-bounds cell at a non-zero offset in {-1,0,1}^2 is a neighbour |
| Rules.MinesAround | app/src/main/java/com/example/gridlayout/GameEngine.java:28-41 | the count of mined in-bounds neighbours is at most 8, and is 0 exactly when no neighbour is mined |
| Rules.NeighboursAtMostEight | app/src/main/java/com/example/gridlayout/GameEngine.java:33-37 | a cell has at most eight in-bounds neighbours |
| Rules.TallyIsMinesAround | app/src/main/java/com/example/gridlayout/GameEngine.java:32-38 | the two offset loops, skipping (0,0) and off-board cells, count exactly the mined neighbours |
| Rules.CountsStore | app/src/main/java/com/example/gridlayout/GameEngine.java:31-39 | visiting a safe cell stores the number of mines around it and nothing else |
| Rules.CountsSkip | app/src/main/java/com/example/gridlayout/GameEngine.java:31 | visiting a mine (the `continue`) changes no count |
| Rules.CountsDone | app/src/main/java/com/example/gridlayout/GameEngine.java:29-30 | after the row-major pass every safe cell holds its target and every mine its old count |
| Rules.GridSize | app/src/main/java/com/example/gridlayout/GameEngine.java:5 | the board has ROWS * COLS cells |
| Rules.SafeCellCount | app/src/main/java/com/example/gridlayout/GameEngine.java:5 | with MINES cells mined exactly ROWS * COLS - MINES cells are safe |
| Rules.SafeCounterFull | app/src/main/java/com/example/gridlayout/GameEngine.java:56 | the revealed safe cells never exceed ROWS * COLS - MINES, and reach it exactly when every safe cell is revealed |
| Rules.CellOfInjective | app/src/main/java/com/example/gridlayout/GameEngine.java:24 | idx / COLS, idx % COLS names an in-bounds cell, and distinct indices name distinct cells |
| Rules.SampleSize | app/src/main/java/com/example/gridlayout/GameEngine.java:22-25 | given enough distinct draws, the rejection loop stops holding exactly MINES indices, all of them drawn |
| Rules.DrawStep | app/src/main/java/com/example/gridlayout/GameEngine.java:22-24 | while the loop runs a draw remains, and taking it adds one index and its cell |
| Rules.PosOfSize | app/src/main/java/com/example/gridlayout/GameEngine.java:24 | in-range indices name as many distinct board cells as there are indices |
| Rules.RowScan | app/src/main/java/com/example/gridlayout/GameEngine.java:99-101 | the row-major scan covers one more cell per column, one more row per row, and the whole board at the end |
| Flood.RegionHidden | app/src/main/java/com/example/gridlayout/GameEngine.java:80-82 | the region a fill opens lies on the board and holds no mine, no flagged cell and no cell revealed before |
| Flood.FillStarts | app/src/main/java/com/example/gridlayout/GameEngine.java:61-65 | the start (queue and seen hold only the start) satisfies the fill invariant |
| Flood.Pop | app/src/main/java/com/example/gridlayout/GameEngine.java:67-69 | the polled head is a reached zero cell, the invariant holds without it, and the work left shrinks |
| Flood.QueuePush | app/src/main/java/com/example/gridlayout/GameEngine.java:84 | the queue holds only reached zero cells, and each reached zero cell is queued or already expanded |
| Flood.VisitKeeps | app/src/main/java/com/example/gridlayout/GameEngine.java:73-84 | one visit keeps the fill invariant, marks its offset seen, never grows the work left, and unmarks nothing |
| Flood.VisitReveals | app/src/main/java/com/example/gridlayout/GameEngine.java:80-84 | revealing a hidden, unflagged safe neighbour keeps the fill invariant (it is counted once) and records the polled zero cell as its parent, one step further from the start |
| Flood.FillCloses | app/src/main/java/com/example/gridlayout/GameEngine.java:67-87 | when every reached zero cell is expanded, every neighbour of one is revealed or flagged |
| Flood.FillIsRegion | app/src/main/java/com/example/gridlayout/GameEngine.java:60-88 | a finished fill has revealed exactly the region reachable through zero cells and counted each cell of it once |
| Play.FreshConsistent | app/src/main/java/com/example/gridlayout/GameEngine.java:11-17 | a board with MINES mines, correct counts, no flags and nothing revealed satisfies the game invariant |
| Play.CascadeHidden | app/src/main/java/com/example/gridlayout/GameEngine.java:54 | the cascade of a reveal lies on the board and holds no revealed, mined or flagged cell |
| Play.CascadeCount | app/src/main/java/com/example/gridlayout/GameEngine.java:53-56 | after a safe reveal the revealed safe cells grow by one plus the cascade, stay at most ROWS * COLS - MINES, and reach it exactly when all safe cells are revealed |
| Play.MineKeeps | app/src/main/java/com/example/gridlayout/GameEngine.java:50-51 | revealing a mine keeps the invariant |
| Play.SafeKeeps | app/src/main/java/com/example/gridlayout/GameEngine.java:53-56 | a safe reveal keeps the invariant, counts each new cell once, and ends the game exactly when it is won, which is exactly when every safe cell is revealed |
| Play.RevealKeeps | app/src/main/java/com/example/gridlayout/GameEngine.java:45-58 | reveal keeps the invariant: the counter equals the revealed safe cells and no cell is both flagged and revealed |
| Play.RevealActs | app/src/main/java/com/example/gridlayout/GameEngine.java:45-50 | reveal changes something exactly when the game is on and the cell is neither flagged nor revealed, otherwise nothing; it never changes mines, flags or counts, and reveals the cell when it acts |
| Play.RevealMine | app/src/main/java/com/example/gridlayout/GameEngine.java:50-51 | revealing a mine reveals only it and ends the game lost |
| Play.RevealSafe | app/src/main/java/com/example/gridlayout/GameEngine.java:53-54 | a safe reveal uncovers no mine and no flag, and only the cell itself when it has a mined neighbour |
| Play.RevealSafeCounts | app/src/main/java/com/example/gridlayout/GameEngine.java:53-56 | a safe reveal adds one to the counter per newly revealed cell; afterwards won holds exactly when every safe cell is revealed, and exactly when the counter reaches ROWS * COLS - MINES; gameOver equals won |
| Play.Toggled | app/src/main/java/com/example/gridlayout/GameEngine.java:94 | the flag set toggled at p differs from the old one at p alone |
| Play.ToggledTwice | app/src/main/java/com/example/gridlayout/GameEngine.java:94 | toggling twice restores the flag set |
| Play.ToggleActs | app/src/main/java/com/example/gridlayout/GameEngine.java:90-96 | toggleFlag acts exactly when the game is on and the cell is unrevealed, then flips that cell's flag alone; nothing but the flags ever changes |
| Play.ToggleKeeps | app/src/main/java/com/example/gridlayout/GameEngine.java:90-96 | toggleFlag keeps the invariant; in particular no revealed cell becomes flagged |
| Play.ToggleTwice | app/src/main/java/com/example/gridlayout/GameEngine.java:90-96 | toggling the same cell twice leaves the game as it was |
| Play.DiscloseActs | app/src/main/java/com/example/gridlayout/GameEngine.java:98-102 | revealAll reveals every cell and leaves mines, flags, counts, counter, gameOver and won alone |
| Play.DiscloseKeeps | app/src/main/java/com/example/gridlayout/GameEngine.java:98-102 | revealAll keeps the invariant; the counter and flag clauses are set aside once it has run |
| Play.Monotone | app/src/main/java/com/example/gridlayout/GameEngine.java:45-102 | no operation hides a revealed cell or resumes a finished game |
| Engine.NewSeen | app/src/main/java/com/example/gridlayout/GameEngine.java:62-65 | a fresh seen array holding only the start |
| Engine.MarkSeen | app/src/main/java/com/example/gridlayout/GameEngine.java:78 | marking adds exactly that cell to the seen set |
| Engine.NewBoard | app/src/main/java/com/example/gridlayout/GameEngine.java:12-14 | a ROWS x COLS grid of fresh, blank cells, each at its own coordinates |
| Engine.GameEngine.constructor | app/src/main/java/com/example/gridlayout/GameEngine.java:11-17 | a new game is valid, not over, has no flag and nothing revealed, its mines are the cells the rejection loop picks from the draws, and every mine keeps the count 0 of a fresh cell |
| Engine.GameEngine.Arm | app/src/main/java/com/example/gridlayout/GameEngine.java:15-16 | placing mines and then counting yields exactly MINES mines, correct counts on every safe cell, and the count 0 kept on every mine |
| Engine.GameEngine.MarkMine | app/src/main/java/com/example/gridlayout/GameEngine.java:24 | mining one cell adds it to the mines and changes nothing else |
| Engine.GameEngine.StoreAdj | app/src/main/java/com/example/gridlayout/GameEngine.java:39 | storing a count changes that cell's count alone |
| Engine.GameEngine.MarkRevealed | app/src/main/java/com/example/gridlayout/GameEngine.java:50 | revealing one cell adds it to the revealed cells and changes nothing else |
| Engine.GameEngine.SetFlag | app/src/main/java/com/example/gridlayout/GameEngine.java:94 | setting one flag changes that cell's flag alone |
| Engine.GameEngine.PlaceMines | app/src/main/java/com/example/gridlayout/GameEngine.java:19-26 | the rejection loop mines exactly the cells of the indices it keeps, and nothing else changes |
| Engine.GameEngine.CountMinedNeighbours | app/src/main/java/com/example/gridlayout/GameEngine.java:32-38 | the offset loops count exactly the mined in-bounds neighbours |
| Engine.GameEngine.ComputeAdjacency | app/src/main/java/com/example/gridlayout/GameEngine.java:28-41 | every safe cell ends up holding the number of mines around it; mines keep their count; mines, flags and revealed cells are unchanged |
| Engine.GameEngine.VisitNeighbour | app/src/main/java/com/example/gridlayout/GameEngine.java:73-84 | one pass of the inner loop body changes the seen array, revealed cells, counter and queue as the step Visit says |
| Engine.GameEngine.FloodFillFromZero | app/src/main/java/com/example/gridlayout/GameEngine.java:60-88 | the fill terminates, reveals exactly the region reachable through zero cells, adds its size to the counter, and changes no mine, flag or count |
| Engine.GameEngine.ExpandHead | app/src/main/java/com/example/gridlayout/GameEngine.java:67-87 | one turn of the queue loop keeps the fill invariant and strictly shrinks the work left (unseen cells plus queued cells) |
| Engine.GameEngine.ScanAround | app/src/main/java/com/example/gridlayout/GameEngine.java:71-86 | the offset loops mark every neighbour of the polled cell seen and keep the fill invariant |
| Engine.GameEngine.Reveal | app/src/main/java/com/example/gridlayout/GameEngine.java:45-58 | reveal keeps the engine valid, and its new state and result are RevealStep of the old state |
| Engine.GameEngine.Uncover | app/src/main/java/com/example/gridlayout/GameEngine.java:50-56 | past the guards, the cell is revealed and a mine or a safe cell is handled as RevealStep says |
| Engine.GameEngine.OpenSafe | app/src/main/java/com/example/gridlayout/GameEngine.java:53-56 | the safe branch of reveal has the effect of OpenStep |
| Engine.GameEngine.CountAndFill | app/src/main/java/com/example/gridlayout/GameEngine.java:53-54 | the safe cell is counted, and a zero cell also reveals and counts its cascade |
| Engine.GameEngine.Settle | app/src/main/java/com/example/gridlayout/GameEngine.java:56 | the game ends won exactly when the counter reaches ROWS * COLS - MINES; otherwise nothing changes |
| Engine.GameEngine.ToggleFlag | app/src/main/java/com/example/gridlayout/GameEngine.java:90-96 | toggleFlag keeps the engine valid, and its new state and result are ToggleStep of the old state |
| Engine.GameEngine.RevealAll | app/src/main/java/com/example/gridlayout/GameEngine.java:98-102 | revealAll keeps the engine valid, and its new state is Disclose of the old state |
| Engine.GameEngine.RevealEvery | app/src/main/java/com/example/gridlayout/GameEngine.java:99-101 | the nested loops reveal every cell and change no mine, flag or count |

## Left out

- `java.util.Random` is not modelled. The indices it would return are the
  constructor's parameter `draws`. `HashSet<Integer>` is a `set<int>`.
- Engine.GameEngine.PlaceMines: requires that the finite `draws` hold at least
  MINES distinct in-range values. The source draws from an unbounded random
  stream, and its loop ends only with probability one; the requirement stands in
  for that.
- Out-of-range coordinates in `reveal` and `toggleFlag` are a precondition.
  While the game is on, the source then throws
  `ArrayIndexOutOfBoundsException`. Once the game is over, both methods return
  false before they index the board, so they throw nothing. Neither the
  exception nor the over-game answer for off-board coordinates is modelled.
- `MainActivity.java` and `ResultActivity.java` (the Android screens, timer and
  navigation) are not part of this model.
- The `ArrayDeque<int[]>` of the flood fill is a `seq<Pos>` that the loop
  reassigns. Each `int[]{r, c}` pair is a `Pos` tuple. `seen` is an
  `array2<bool>`. `Cell[][] board` is a `const seq<seq<Cell>>`: the source never
  reassigns rows, and the cells are still updated in place.
- The ghost field `disclosed` records that `revealAll` has run. The source keeps
  no such field. After `revealAll` every cell is revealed, flags included, and
  the counter no longer matches the revealed safe cells, so the invariant sets
  those two clauses aside from then on.
- Some loop bodies and single-field writes are separate methods, each with its
  own contract: `Arm`, `NewBoard`, `CountMinedNeighbours`, `VisitNeighbour`,
  `ExpandHead`, `ScanAround`, `NewSeen`, `MarkSeen`, `Uncover`, `OpenSafe`,
  `CountAndFill`, `Settle`, `RevealEvery`, `MarkMine`, `StoreAdj`,
  `MarkRevealed` and `SetFlag`. Their statements and their order are those of
  the source.
