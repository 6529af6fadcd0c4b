# Minesweeper game engine in Dafny

This project models the engine of a browser minesweeper game. It has three parts.

- **The board** (`src/Board.js`). This is a rectangular grid of cell records. Each cell has `isMined`, `isFlagged`, `isCovered` and `neighboringMines`. The `Board` class updates the grid in place. It creates a board, copies it, places mines and counts each cell's mined neighbours. It uncovers a cell, flooding outwards with an explicit stack. It also handles "chording" on an uncovered cell, reveals or flags every mine at the end of a game, and counts covered and flagged cells.
- **The game session** (`src/Game.jsx`). A session holds a board, a resolution (none, won or lost) and the mine count. A left click and a right click each copy the board and change the copy. A left click also settles whether the game is won or lost; a right click never changes the resolution. The status line shows the outcome or the flag count.
- **The configuration panel** (`src/Panel.jsx`). It keeps the height and width in [1, 50] and the mine count in [0, height × width]. It has three small handlers: start, start afresh, and reconfigure.

The Dafny files are organised as follows.

- `grid.dfy` (module `Grid`) has cells, positions, the grid as `seq<seq<Cell>>`, and single-cell replacement.
- `counting.dfy` (module `Counting`) has the counting scans as recursive functions, with lemmas about them.
- `neighbors.dfy` (module `Neighbors`):
  - `Neighborhood` is the reference for the cells `forEachNeighbor` visits.
  - `MinedNeighbors` is the true mine count around a cell.
  - `Consistent` says every count is right.
  - `WithNeighborCounts` specifies `computeNeighborCounts`.
  - `Tallied` is that loop's state part way through.
- `flood.dfy` (module `Flood`) specifies the two cell operations, each by a function of the grid before the call.
  - `Uncover` specifies `uncoverCell`. When the start is covered it is uncovered, and when it is also unmined, so is every covered cell reachable by steps out of zero-count cells. An uncovered start changes nothing.
  - `Chord`/`ChordOver` specify `uncoverNeighbors`.
  - `Click` specifies `handleCellClick`.
  - The file also holds `RevealMines` and `FlagMines`, and the flood loop's invariant `Flooding` with its lemmas.
- `board.dfy` (module `Boards`) holds class `Board`.
  - Its field `rows` is reassigned by every method that changes a cell, and each method is proved against the functions above.
  - Each pass of `forEachNeighbor` is a loop over the sequence of positions that `ForEachNeighbor` returns. The loops are in `IncrementNeighbors`, `SpreadFrom`, `CountFlaggedNeighbors` and `UncoverUnflaggedNeighbors`. The chording callback for one neighbour is the method `ChordVisitCell`, which `UncoverUnflaggedNeighbors` calls for each position.
  - `Height` and `Get` are plain reads of `rows`.
- `game.dfy` (module `Games`):
  - `GameState` holds the board, resolution and mine count.
  - `NewGame`, `HandleClick` and `HandleRightClick` build the new state from the old one. The click handlers have no `modifies` clause, so the old board provably stays as it was, and every change goes to a fresh copy.
  - `ClickOutcome` and `ToggleFlag` specify the two handlers.
  - `Playing` is the invariant a session keeps between clicks.
  - `Message` builds the status line.
- `decimal.dfy` (module `Decimal`) writes integers as a template literal does, and proves that the result reads back.
- `panel.dfy` (module `Panel`) has the configuration record and its handlers as pure functions.

The central invariant is `Consistent`: every cell's `neighboringMines` equals the true number of mined cells around it. `PlaceMines` on a new board (`NewGame`) establishes it, and every game operation keeps it. The flood fill never looks at `isMined`. It is safe only because of this invariant: in a consistent grid the flood never uncovers a mine (`Flood.UncoverAvoidsMines`). The flood terminates because the number of covered cells plus the length of the stack decreases on every pass.

## Model

| member | source | states |
|---|---|---|
| `Boards.Board.constructor` | src/Board.js:3-20 | The grid is `Fresh(height, width)`: `height` rows of `width` cells, each covered, unmined and unflagged, with count 0 |
| `Grid.Fresh` | src/Board.js:5-20 | A new grid has `height` rows, each of length `width`, and every cell in it is the blank cell |
| `Boards.Board.Height` | src/Board.js:22-24 | Returns the number of rows |
| `Boards.Board.Get` | src/Board.js:30-32 | Returns the cell at the given row and column; the position must be on the board |
| `Boards.Board.Width` | src/Board.js:26-28 | It needs at least one row; on a valid board every row has the returned length |
| `Boards.Board.Clone` | src/Board.js:34-39 | Returns a fresh board with the same cells; the grid is a value, so later changes to either board leave the other unchanged |
| `Boards.Board.PlaceMines` | src/Board.js:41-58 | Given `count` ≤ the number of unmined cells, exactly `count` more cells end up mined (none when `count` ≤ 0). No mine is removed, flags and cover are unchanged, and each count grows by the cell's true number of mined neighbours |
| `Counting.AddMine` | src/Board.js:50-53 | Mining a chosen unmined cell raises the mine count by exactly one and changes no other field |
| `Counting.CountFresh` | src/Board.js:41-44 | A new `height` × `width` board has `height*width` unmined cells and no mined one, so any count up to its size can be placed |
| `Boards.Board.ComputeNeighborCounts` | src/Board.js:60-72 | The grid becomes `WithNeighborCounts` of the old grid |
| `Boards.Board.ComputeRowNeighborCounts` | src/Board.js:61-71 | One pass of the outer loop moves the scan state `Tallied` from the start of row `row` to the start of the next row |
| `Boards.Board.CountAround` | src/Board.js:62-69 | One cell of the inner loop moves the scan state `Tallied` one cell further along the row |
| `Boards.Board.IncrementNeighbors` | src/Board.js:63-68 | Adds one to the count of every neighbour of the mined cell, and changes nothing else |
| `Neighbors.WithNeighborCountsAt` | src/Board.js:60-72 | After counting, each cell is unchanged except that its count is raised by the number of mined cells around it |
| `Neighbors.WithNeighborCountsConsistent` | src/Board.js:60-72 | Counting on a grid whose counts are all zero makes every count the true number of mined neighbours |
| `Neighbors.TallyStep` | src/Board.js:62-69 | The scan state after a cell is its state before, with the neighbours' counts raised when the cell is mined |
| `Neighbors.TallyEnd` | src/Board.js:60-72 | When the scan has passed every row, the result is `WithNeighborCounts` of the grid it started from |
| `Boards.Board.ForEachNeighbor` | src/Board.js:197-209 | The positions handed to the callback are exactly `Neighborhood(rows, center)` |
| `Neighbors.NeighborhoodIsAdjacentInBounds` | src/Board.js:197-209 | A position is visited iff it is in bounds, at row and column distance ≤ 1, and not the centre; visits go in row-major order, at most 8 of them |
| `Neighbors.NeighborhoodDistinct` | src/Board.js:202-207 | No position is visited twice |
| `Neighbors.ConsistentSameLayout` | src/Board.js:131-162 | Changing only cover and flags keeps every count right |
| `Neighbors.ZeroHasNoMinedNeighbor` | src/Board.js:139-151 | In a consistent grid, no neighbour of a cell with count zero is mined |
| `Flood.Uncover` | src/Board.js:127-162 | The grid after `uncoverCell`: only the cover changes, and a cell is uncovered afterwards iff it was already uncovered, or it is the covered start, or the start was covered and unmined and reaches it by steps out of zero-count cells |
| `Flood.UncoverOnlyUncovers` | src/Board.js:135-153 | Uncovering only moves `isCovered` from true to false; it never changes mines, flags or counts |
| `Flood.UncoverIdempotent` | src/Board.js:131-162 | Uncovering an already uncovered cell changes nothing |
| `Flood.UncoverSingle` | src/Board.js:135-139 | A covered cell that is mined, or has a count other than zero, is uncovered alone |
| `Flood.ReachedOnlyStart` | src/Board.js:139-140 | From a cell whose count is not zero, the flood reaches that cell and nothing else |
| `Flood.FloodNeedsZeroStart` | src/Board.js:139-157 | Any flood path longer than the start cell begins at a cell whose count is zero |
| `Flood.UncoverAvoidsMines` | src/Board.js:139-153 | In a consistent grid, every cell the flood uncovers besides the start is unmined |
| `Flood.UncoverIsClosed` | src/Board.js:140-157 | The flood is maximal: every neighbour of a zero-count cell uncovered by this call is uncovered afterwards |
| `Flood.UncoverHitIff` | src/Board.js:135-139 | In a consistent grid, uncovering a covered cell uncovers some mine iff that cell is mined |
| `Flood.FloodBegin` | src/Board.js:136-141 | Uncovering the zero start and pushing it establishes the flood invariant |
| `Flood.FloodVisit` | src/Board.js:147-153 | Uncovering a covered neighbour, and pushing it when its count is zero, keeps the flood invariant |
| `Flood.FloodEnd` | src/Board.js:140-157 | When the stack is empty, the grid is exactly `Uncover` of the grid before the call |
| `Boards.Board.UncoverCell` | src/Board.js:127-162 | The grid becomes `Uncover(old grid, cell)`. The result is true iff the cell was covered and mined, so it is false on an uncovered cell |
| `Boards.Board.SpreadFrom` | src/Board.js:143-156 | Keeps the flood invariant with the pushed cells on the stack; it only uncovers, and each push is paid for by one newly uncovered cell |
| `Boards.SpreadStep` | src/Board.js:147-153 | Visiting the next neighbour keeps the callback's invariant |
| `Boards.SpreadEnd` | src/Board.js:144-155 | After the last neighbour, the popped cell can leave the stack, and the termination measure has not grown |
| `Boards.Board.HandleCellClick` | src/Board.js:118-125 | The grid and result are `Click`: it uncovers a covered cell and chords on an uncovered one |
| `Flood.ClickHitIff` | src/Board.js:118-125 | In a consistent grid, the click reports a hit iff it uncovered a mine |
| `Boards.Board.UncoverNeighbors` | src/Board.js:164-195 | The grid and result are `Chord`: the unflagged neighbours are uncovered only when the flagged neighbours are at least the cell's count |
| `Boards.Board.CountFlaggedNeighbors` | src/Board.js:168-177 | Returns the number of covered, flagged neighbours |
| `Boards.Board.UncoverUnflaggedNeighbors` | src/Board.js:179-192 | The grid and result are `ChordOver` of the neighbours, in visiting order |
| `Boards.Board.ChordVisitCell` | src/Board.js:186-190 | For one neighbour: a covered, unflagged cell is uncovered unless a mine was already hit |
| `Flood.ChordOver` | src/Board.js:183-191 | Chording only uncovers, and once a mine has been hit the result stays a hit |
| `Flood.ChordOverUncoversAll` | src/Board.js:164-191 | A chord that hits no mine leaves every covered, unflagged neighbour uncovered |
| `Flood.ChordAfterHit` | src/Board.js:188 | Once a mine has been hit, the rest of the chord changes nothing and the result stays a hit |
| `Flood.ChordStep` | src/Board.js:183-191 | Visiting one neighbour keeps the chord loop's invariant |
| `Flood.ChordNeedsFlags` | src/Board.js:179-195 | With fewer flagged neighbours than the count, chording changes nothing and returns false |
| `Flood.ChordOverHitIff` | src/Board.js:183-191 | In a consistent grid, chording reports a hit iff it uncovered a mine |
| `Flood.ChordSafeWithCorrectFlags` | src/Board.js:164-182 | In a consistent grid where every mined neighbour is covered and flagged, chording uncovers no mine and reports no hit |
| `Boards.Board.UncoverMines` | src/Board.js:74-82 | The grid becomes `RevealMines` of the old grid |
| `Flood.RevealMines` | src/Board.js:74-82 | Only the cover changes; a cell stays covered iff it was covered and is unmined |
| `Boards.Board.MarkMines` | src/Board.js:84-92 | The grid becomes `FlagMines` of the old grid |
| `Flood.FlagMines` | src/Board.js:84-92 | Only flags change; a cell is flagged iff it was flagged or is mined |
| `Boards.Board.CountCovered` | src/Board.js:94-104 | Returns the number of covered cells |
| `Boards.Board.CountFlagged` | src/Board.js:106-116 | Returns the number of cells that are both covered and flagged |
| `Counting.CountPut` | src/Board.js:140-157 | Replacing one cell changes a count by exactly the old and new cells' share; this gives the flood's termination measure |
| `Counting.CountMonotone` | src/Game.jsx:37-40 | If every P-cell is a Q-cell, there are no more P-cells than Q-cells, and the same number iff the two sets are the same |
| `Games.NewGame` | src/Game.jsx:6-17 | The session is unresolved with the requested mine count, on a fresh `height` × `width` board. Every cell is covered and unflagged, counts are right, and exactly max(`mineCount`, 0) cells are mined |
| `Games.ClickOutcome` | src/Game.jsx:19-47 | A resolved game or a flagged cell is left as it was. A lost click has every mine uncovered; a won click has every mine flagged |
| `Games.HandleClick` | src/Game.jsx:19-47 | The new board and resolution are `ClickOutcome`, and the mine count is kept. The same state comes back when the game is resolved or the cell is flagged; otherwise the board is a fresh copy |
| `Games.ClickKeepsPlaying` | src/Game.jsx:30-44 | A left click keeps the session invariant: counts right, `mineCount` mines, and no mine uncovered while the game is on |
| `Games.LostIffMineUncovered` | src/Game.jsx:33-36 | In a game that is on, a click is lost iff it uncovers a mine |
| `Games.WonIffAllSafeUncovered` | src/Game.jsx:37-40 | In a game that is on, a click that hits no mine wins iff every cell left covered is mined |
| `Games.ToggleFlag` | src/Game.jsx:49-64 | Only the clicked cell can change, and only its flag; the flag flips iff the game is on and the cell is covered |
| `Games.HandleRightClick` | src/Game.jsx:49-64 | The new board is `ToggleFlag`, with resolution and mine count kept. The same state comes back when the game is resolved or the cell is uncovered; otherwise the board is a fresh copy |
| `Games.ToggleFlagTwice` | src/Game.jsx:55-58 | Two right clicks on the same cell give back the board |
| `Games.ToggleFlagKeepsPlaying` | src/Game.jsx:55-61 | A right click keeps the session invariant |
| `Games.Message` | src/Game.jsx:98-104 | A won game's line is "You’ve won!" and a lost game's is "You’ve lost!". Otherwise the line ends with " flagged"; it starts with a digit iff the game is on |
| `Games.StatusMessage` | src/Game.jsx:98-104 | Returns `Message` for the session's resolution, its number of covered flagged cells and its mine count; the cells are counted only while the game is on |
| `Games.MessageInjective` | src/Game.jsx:98-104 | The status line determines the resolution, and while the game is on, both the flag count and the mine count |
| `Games.FlagCountMessageInjective` | src/Game.jsx:101-103 | Equal "flagged/mines flagged" lines have equal flag counts and equal mine counts |
| `Decimal.ValueOfDigits` | src/Game.jsx:103 | Reading back the decimal digits of `n` gives `n` |
| `Decimal.RenderInjective` | src/Game.jsx:103 | Different integers are written as different strings |
| `Panel.InitialInRange` | src/Panel.jsx:11-19 | The initial settings are 9 × 9 with 10 mines, key 0 and no game showing; these are in range |
| `Panel.Clamp` | src/Panel.jsx:37-44 | The result lies in [lo, hi]; a value inside is kept, one below becomes lo, one above becomes hi |
| `Panel.HandleChange` | src/Panel.jsx:29-47 | The result is in range: height and width in [1, 50], mines in [0, height*width] using the clamped size. Key and `inProgress` are kept, and each field is the edited record's value clamped |
| `Panel.ChangeKeepsInRangeEdit` | src/Panel.jsx:31-44 | The edit comes through exactly iff the edited record is already in range |
| `Panel.ResizeMineCount` | src/Panel.jsx:40-44 | After a height or width edit, the mine count is kept when it fits and otherwise drops to the new number of cells |
| `Panel.ChangeIdempotent` | src/Panel.jsx:29-47 | Making the same edit twice is the same as making it once |
| `Panel.InRangeCanPlaceMines` | src/Panel.jsx:37-44 | In-range settings give at least one row and no more mines than a fresh board has unmined cells, which is what mine placement needs |
| `Panel.HandleStart` | src/Panel.jsx:22-27 | Shows the game; nothing else changes |
| `Panel.HandleStartFresh` | src/Panel.jsx:49-54 | Shows a game and raises the key by one; the settings are unchanged |
| `Panel.HandleReconfigure` | src/Panel.jsx:56-61 | Goes back to the form and raises the key by one; the settings are unchanged |
| `Panel.HandlersKeepInRange` | src/Panel.jsx:22-61 | Start, start afresh and reconfigure keep the settings in range |

## Left out

- Random choice in `placeMines` (src/Board.js:47-55) becomes a nondeterministic choice among the unmined cells. The model says nothing about probability or uniformity.
- `Boards.Board.PlaceMines` requires `count` to be at most the number of unmined cells. The source would retry forever otherwise. The retry loop itself is not modelled: each mine goes directly to an unmined cell.
- Cells are values in a `seq<seq<Cell>>`, so an update in place becomes a replacement of the cell. Sharing of cell objects between boards is not modelled. `clone` copies every cell, so no board shares cells with another.
- `forEachNeighbor`'s callbacks (src/Board.js:64-68, 144-155, 169-177, 183-191) are methods run over the sequence `ForEachNeighbor` returns, not closures. Each step reads the grid as the earlier steps left it, as the source does.
- Games.HandleClick: the promise that the old board is left unmodified is given by the missing `modifies` clause, not by an `ensures`.
- Games.HandleRightClick: the same promise has the same form.
- Both click handlers require the clicked position to be on the board. Every call site passes a cell of the board. On a position off the board the source fails only while the game is on; a resolved session returns before it reads the cell.
- `Boards.Board.Width` requires at least one row, because the source reads `rows[0]`.
- Boards.Board.constructor: takes `nat` sizes, so a negative height or width cannot be passed. The source's `new Array(height)` throws a `RangeError` on a negative size (src/Board.js:6, 8); that error path is not modelled.
- Games.NewGame: takes `nat` sizes for the same reason.
- JavaScript numbers are modelled as unbounded integers. All counts are at most 2,500, so no wrap-around or rounding applies.
- `Number(e.target.value)` parsing, NaN and fractional input in `handleChange` are not modelled. The new value is an integer, and the edited field is one of the three named fields.
- React plumbing is not modelled: `setState` batching, event objects, `preventDefault` and the `key` re-mounting of `Game`. A handler's `null` or `undefined` return is modelled as returning the same state.
- The `render` methods are not modelled, apart from the status line: no markup and no pixel-width arithmetic. `src/Cell.jsx` (cell rendering) and the build configuration are not part of this model.
