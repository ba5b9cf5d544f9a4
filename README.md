# Conway's Game of Life board, modelled in Dafny

This project models the simulation core of a browser Game of Life:
- the `Cell` and `Board` classes of `main.js`;
- the neighbour-counting pass `boardSlider`;
- the rule engine `calculateNextGeneration`;
- the manual toggle `setCellManually`;
- the 0/1 snapshot `getBoardState`.

The model has three modules:

- `Cells` (`cell.dfy`): a cell is a value with a `cellNumber` and a boolean `cellState`. `IsAlive` gives the state as 0 or 1. `Toggle` is the effect of a manual toggle request on one cell. Cells are never shared between positions, so the source's in-place `cell.cellState = …` becomes an update of the cell stored at that position of the board.
- `Life` (`life.dfy`): the pure rules on a grid of states (`seq<seq<bool>>`) with a dead boundary, which the board is proved against:
  - `Alive` reads a position, and positions off the grid read as 0;
  - `Window` lists the eight neighbours at the offsets {-1,0,1}² minus (0,0), in the source's slot order;
  - `NeighborCount` is their bounds-checked sum, and `Counts` is the grid of all counts;
  - `NextState` is the B3/S23 rule;
  - `Advance` applies the rule to a grid from a grid of counts captured beforehand;
  - `Step` is one generation;
  - `Iterate` is k generations.
  
  The module also proves that the counts are bounded, that an isolated 2×2 block is a still life, and that the glider moves to its next phase.
- `Boards` (`board.dfy`): the class `Board` with `board: array2<Cell>`, `length`, the consts `width`, `height` and `random`, and `surroundingsMap: seq<seq<int>>`. That field starts empty and `BoardSlider` rebuilds it row by row, as the source's array of arrays.
  - `Valid()` says the board is `height × width`, that `length == height`, and that cell (r, c) has number `r*width + c`.
  - `Cells()` and `States()` read the board out as sequences.
  - The module also holds the lemmas about the numbering and about toggling.

`BoardSlider` keeps the source's nine hand-written boundary cases (corners, edges, interior). They fill the eight named slots, and a loop adds the slots up. `Slide` proves the result equal to the bounds-checked count. `Tick` is one pass of the driver: `BoardSlider`, then `CalculateNextGeneration`. Its contract is that the two together are exactly one synchronous `Step` of the old grid.

Inputs taken as parameters: the grid size comes from the page layout in the source, so `width` and `height` are constructor arguments. The random initial state of each cell is the constructor argument `initial`, applied to the cell's number.

## Model

| member | source | states |
|---|---|---|
| `Cells.Cell.IsAlive` | main.js:72-74 | the result is 0 or 1, and it is 1 exactly when the cell is alive |
| `Cells.Cell.Toggle` | main.js:279-283 | the cell's number never changes; its state flips exactly when its number equals the requested number |
| `Life.NextState` | main.js:253-266 | B3/S23: the next state is alive iff the count is 3, or the cell is alive and the count is 2; a live cell with fewer than 2 or more than 3 neighbours dies; a dead cell with any count other than 3 stays dead |
| `Life.Step` | main.js:246-269 | one generation keeps the grid's shape, and each cell's new state follows B3/S23 from its count in the old grid |
| `Life.StepIsAdvanceOfCounts` | main.js:300-305 | synchronous update: computing every count first and then advancing every cell from those counts is exactly one `Step` |
| `Life.WindowSum` | main.js:227-237 | adding up the eight window slots one after another gives the bounds-checked neighbour count |
| `Life.NeighborCountBounds` | main.js:158-225 | every count lies in 0..8; a corner cell's count is at most 3 and any other border cell's at most 5 |
| `Life.LoneCornerDies` | main.js:158-198 | any of the four corner cells, with no other live cell on the board, is dead in the next generation: off-grid positions never count as neighbours |
| `Life.BlockIsStillLife` | main.js:246-269 | a 2×2 block of live cells, all other cells dead, is unchanged by one generation, also when it touches the border |
| `Life.BlockStaysForever` | main.js:300-305 | such a block is unchanged after any number of generations |
| `Life.GliderStep` | main.js:246-269 | on an 8×8 board, the glider at (0,1),(1,2),(2,0),(2,1),(2,2) becomes (1,0),(1,2),(2,1),(2,2),(3,1) after one generation |
| `Boards.CellNumberInRange` | main.js:101-111 | the number r*w + c of a cell of an h×w board lies in 0..h*w-1 |
| `Boards.CellNumberPosition` | main.js:101-111 | a cell number gives back its row and column by division and remainder by the width |
| `Boards.NumberingIsBijection` | main.js:101-111 | on a board numbered row by row, every number is in 0..h*w-1, no number repeats, and every number in that range belongs to the cell at (n / w, n % w) |
| `Boards.ToggleAllTwice` | main.js:277-285 | two toggle requests for the same number give back the original cells |
| `Boards.ToggleAllMissing` | main.js:277-285 | a toggle request for a number that no cell has changes nothing |
| `Boards.ToggleAllHitsOne` | main.js:277-285 | a toggle request for a number n in range flips the cell at (n / w, n % w) and no other, and it changes no cell's number |
| `Boards.AdvanceCells` | main.js:251-268 | updating every cell's state by the rule from its own count gives `Advance` of the old grid |
| `Boards.Board.constructor` | main.js:79-87 | a valid board of `height` rows and `width` columns; the cell at (r, c) has number r*width + c and its initial state; `length == height`; the counts start empty |
| `Boards.Board.CreateCells` | main.js:89-112 | a fresh `height × width` array whose cell (r, c) has the counter value r*width + c as its number |
| `Boards.Board.GetBoardState` | main.js:114-125 | a `height × width` grid of 0/1 values whose entry (r, c) is 1 exactly when cell (r, c) is alive; changes nothing |
| `Boards.Board.BoardSlider` | main.js:139-244 | `surroundingsMap` becomes `height × width`, and each entry is the number of live in-grid neighbours of its cell in the current board; only `surroundingsMap` changes; requires at least two rows and two columns unless the board is empty |
| `Boards.Board.Slide` | main.js:148-237 | the nine boundary cases of the sliding window followed by the slot sum give exactly the bounds-checked neighbour count |
| `Boards.Board.CalculateNextGeneration` | main.js:246-269 | each cell keeps its number and gets the B3/S23 state from its previous state and its captured count; the new grid is `Advance` of the old grid by `surroundingsMap`; requires the counts to have the board's shape |
| `Boards.Board.SetCellManually` | main.js:271-286 | the cells become `ToggleAll` of the old cells; if no cell has the number nothing changes, otherwise exactly the cell at (n / width, n % width) changes |
| `Boards.Board.Tick` | main.js:300-305 | one driver tick (counts, then the rule) turns the board's states into `Step` of the old states, leaves `surroundingsMap` holding the `height × width` counts of the old states, and keeps the board valid |

## Left out

- DOM rendering and page setup (`affectDom`, `clearDom`, `setUpGrid`, the `.app` lookup, main.js:6, main.js:32-63): presentation I/O.
- Window resize and click listeners, and grid sizing from `offsetWidth`/`offsetHeight` (main.js:9-10, main.js:15-30, main.js:295-299): UI input and layout. Width and height are constructor parameters.
- The `setInterval` scheduling (main.js:25-29, main.js:300-305): only the body of one tick, without the rendering call, is modelled as `Tick`.
- `Math.random()` for the initial states (main.js:106): replaced by the function `initial` of the cell number. The `random` flag is stored and, as in the source, never read.
- `printBoardState` (main.js:127-137): console output only.
- `parseInt` of the DOM attribute (main.js:279, main.js:281): the requested cell number is an `int`.
- The duck-typed sum `arr[x].isAlive ? … : arr[x]` (main.js:231-236): each slot holds the 0/1 value of the cell it names, or 0 for a slot off the grid, so the sum adds numbers only.
- Negative width or height: the dimensions are `nat`.
- Boards.Board.BoardSlider: a board with exactly one row or one column is excluded by the precondition rather than modelled. The source reads a row or column that does not exist there and throws.
- Boards.Board.CalculateNextGeneration: calling it before any `BoardSlider` on a non-empty board is excluded by the precondition. The source throws on the empty `surroundingsMap` there.
- Cells as separate heap objects: cells live as values in the board's array. Because no cell is shared or referenced from outside the board, no aliasing is lost.
