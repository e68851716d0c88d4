# Sliding puzzle: the `SlidingPuzzle` state machine

This project models the core of a 3 x 3 picture sliding puzzle, the
`SlidingPuzzle` class of `main.py`, and proves the properties it relies on.

The class holds a grid of three rows of three cells. Each cell holds one of
the level's tile images or is the blank (`None`). The class also keeps a move
counter, a solved flag, the current level and the total score. Its operations
are:

- `reset_puzzle`: shuffles `tiles[:-1] + [None]` until the board passes
  `is_solvable` and is not already solved.
- `is_solvable`: the inversion count and blank-row parity test.
- `find_empty`: finds the first blank cell in row-major order.
- `is_solved`: compares the flattened grid with the solved layout.
- `move_tile`: slides the neighbour of the blank named by a direction into
  the blank. "up" takes the cell below the blank.
- `get_hint`: makes a single greedy move.
- `next_level`: awards the level's score and starts a new board.

The model has four modules:

- `Board` (board.dfy) covers the board as values:
  - cells, positions and the row-major layout;
  - `Arrange`, which cuts a list of nine cells into rows, and `Flatten`,
    which joins them;
  - the solved layout, the first blank and a single slide.
- `Solvability` (solvability.dfy) is `is_solvable` exactly as written. Its counter adds one for every
  pair of cells that hold two *different* tiles, whatever their order. So on
  a board without repeated tiles the count is k * (k - 1) / 2 for k tiles.
  For the odd size 3 the test therefore accepts every board. For an even size
  it would depend only on the blank's row. Both facts are proved.
  As a consequence, the shuffle's exit test rejects only the solved layout.
  An accepted board need not be solvable by sliding tiles (by the standard
  parity argument, which the model does not prove).
- `Hints` (hints.dfy) is the row-major scan of `get_hint` as a function, with
  its properties.
- `Game` (puzzle.dfy) is the class `SlidingPuzzle`:
  - its fields are the source's fields, the grid as a sequence of rows;
  - its methods update the fields in place, with the source's loops and early
    returns;
  - each method is proved against the functions of the other modules.

  `Valid()` is the invariant of every reachable state:
  - the grid holds exactly the cells of the solved layout;
  - the tile set has no repeated image;
  - the solved flag is set exactly when the grid is solved;
  - the counters are in range.

  The constructor, `ResetPuzzle`, `NextLevel`, `MoveTile` and `GetHint` all
  establish or preserve `Valid()`.

Modelling decisions:

- Tile images are integer handles. `tiles` is a sequence of nine distinct
  handles. The game compares surfaces by identity, which handle equality
  models. The ninth handle never appears on the board.
- The random shuffle is an input. The constructor, `ResetPuzzle` and
  `NextLevel` take `draws`, the successive orders that `random.shuffle`
  gives `tile_list`. Each draw is required to be a permutation of the solved
  layout, and at least one must pass the loop's exit test. The loop then stops
  at the first accepted draw, and the methods say so.
- A new tile set for `next_level` and for the constructor is a parameter.
  Image loading is not modelled.
- `move_tile` is split into three methods. `MoveTile` checks the direction
  against the blank's position. `CommitMove` counts the move and updates the
  flag. Its helper `FillBlank` performs the two grid assignments.
- `get_hint` is split the same way. `HintScan` and `ScanRow` hold the nested
  loop with its early returns.
- `move_tile` unpacks `find_empty()` without a check, so it would raise on a
  grid without a blank. The model requires `Valid()`, under which a blank
  always exists.
- `get_hint` ignores the result of its own `move_tile` call and returns
  True whenever it finds a candidate. `GetHint` proves that the call always
  succeeds on a valid state, because a solved board has no candidate.
- Each row of `self.grid` is a fresh slice of `tile_list`, so rows never
  alias. A sequence of rows models the grid faithfully.

## Definitions

The contracts below are stated in terms of these reference definitions. Each
spells out, as a value, what the cited source lines compute. Most of these
have no contract of their own; those that do also have a row under
"## Model".

- `Board.Flatten` (main.py:131-133, 164-166): joins the rows in order, as
  the `flat.extend(row)` loops of `is_solvable` and `is_solved` do.
- `Board.Solution` (main.py:116, 168): the solved layout `tiles[:-1] + [None]`.
- `Board.ValidBoard` (main.py:116-120): a board of the game. It has nine
  cells and the same multiset of cells as the solved layout, for a tile set of
  nine distinct handles.
- `Board.BlankFrom` and `Board.Blank` (main.py:157-161): the nested early-return
  scan of `find_empty`, and its result on a board that has a blank.
- `Board.Neighbour` (main.py:178-187): the cell the if/elif chain of
  `move_tile` picks, or none for the `else` branch.
- `Board.MoveInto` (main.py:189-190): the two assignments of `move_tile`
  on the flat board.
- `Board.Slide` (main.py:175-190): the whole move of `move_tile` on the flat
  board. It is none when the move is refused, and otherwise `MoveInto` at the
  blank and its neighbour.
- `Solvability.PairsWith`, `Solvability.RowInversions`,
  `Solvability.InversionsBefore` and `Solvability.Inversions`
  (main.py:135-143): what the inner loop has added to the `inversions`
  counter for cell i so far, what one pass of the outer loop adds, the counter
  after the first i passes, and the counter at the end.
- `Solvability.EmptyRowScan` and `Solvability.EmptyRowDistance`
  (main.py:145-149): the reverse row scan that sets `empty_row`.
- `Solvability.Solvable` (main.py:130-154): the value `is_solvable` returns
  for an n x n grid.
- `Hints.Misplaced` and `Hints.Candidate` (main.py:288-296): a cell the
  `continue` test does not skip, and such a cell that is next to the blank.
- `Hints.ScanFrom` and `Hints.HintCell` (main.py:286-297): the nested scan
  of `get_hint`, and the cell it stops at when it starts from the blank.
- `Hints.DirectionTo` (main.py:291, 295): the direction `get_hint` passes
  to `move_tile`.
- `Hints.Hint` (main.py:285-297): the move `get_hint` makes, if any.
- `Game.Accepted` (main.py:121): the exit test of the shuffle loop.
- `Game.Shuffles` (main.py:116-118): what the `draws` input supplies. Each
  draw is a shuffle of `tile_list`, and some draw passes the exit test.
- `Game.SlidingPuzzle.Cells` (main.py:131-133): the grid flattened.
- `Game.SlidingPuzzle.Valid` (main.py:62-69, 111-122, 189-194): the invariant
  over the fields.
  - `ValidBoard` holds for the grid, and the grid has a blank.
  - The counters are in range.
  - `game_solved` holds exactly when `Cells() == Solution(tiles)`.

## Model

| member | source | states |
|---|---|---|
| Board.Arrange | main.py:119-120 | cell c of row r of the arranged board is cell 3 * r + c of the list, in 3 rows of 3 |
| Board.FlattenArrange | main.py:119-120 | joining the rows of an arranged board gives the list back |
| Board.ArrangeFlatten | main.py:131-133 | joining 3 rows of 3 cells gives 9 cells, and arranging them gives the rows back |
| Board.FlattenCells | main.py:131-133 | rows whose cell (r, c) is cell 3 * r + c of s join to s |
| Board.CellOfRows | main.py:164-166 | cell 3 * r + c of the flattened grid is `grid[r][c]` |
| Board.FlattenLength | main.py:131-133 | rows of n cells each join to a list of (number of rows) * n cells |
| Board.Solution | main.py:116 | the solved layout has 9 cells: tile k in cell k for k < 8, the blank last |
| Board.BlankFromSpec | main.py:157-161 | the scan from a cell finds the first blank at or after it, and finds none exactly when there is none |
| Board.Blank | main.py:156-161 | the position `find_empty` returns is on the board and blank |
| Board.BlankIsFirst | main.py:157-160 | no cell before that position, in row-major order, is blank |
| Board.SolutionBlank | main.py:116 | the blank of the solved layout is the bottom-right cell |
| Board.SingleBlankAt | main.py:156-161 | on a board with one blank, `find_empty` returns that blank |
| Board.Neighbour | main.py:178-187 | the neighbour is on the board and adjacent to the blank; an unknown direction gives none |
| Board.SlideLegal | main.py:178-187 | a move is refused exactly when the blank has no neighbour in that direction |
| Board.NeighbourAtEdge | main.py:178-185 | each of the four directions has a neighbour exactly when the blank is not on the matching edge |
| Board.SlideAtEdge | main.py:178-187 | each of the four directions is refused exactly when the blank is on the matching edge |
| Board.MoveInto | main.py:189-190 | the two assignments of `move_tile` keep the board at 9 cells |
| Board.MoveIntoAt | main.py:189-190 | after the move the neighbour is blank, the blank's cell holds the neighbour's tile, and every other cell is unchanged |
| Board.RowsAfterMove | main.py:189-190 | the same, cell by cell, on the rows of the grid |
| Board.MoveIntoRows | main.py:189-190 | the two assignments on the rows give the flattened board after the move |
| Board.MoveIntoCells | main.py:189-190 | the move keeps the multiset of cells and a blank |
| Board.MoveIntoKeepsBoard | main.py:189-190 | the move keeps a valid board valid |
| Board.SlideEffect | main.py:178-190 | a slide swaps the blank with one adjacent neighbour, leaves all other cells alone and keeps the multiset of cells |
| Board.SlideMovesBlank | main.py:178-190 | after a slide the board still has one blank, and it sits where the neighbour was |
| Board.SlideKeepsBoard | main.py:189-190 | a slide keeps a valid board valid, blank included |
| Board.NeighbourOpposite | main.py:178-185 | the neighbour in the opposite direction of a neighbour is the original cell |
| Board.SlideInverse | main.py:178-190 | sliding back in the opposite direction restores the board |
| Board.NoDupCount | main.py:116 | in a list without repeats each element occurs at most once |
| Board.RepeatCount | main.py:116 | an element found at two indices occurs at least twice |
| Board.NoDupPermutation | main.py:116-118 | a shuffle of a list without repeats has no repeats |
| Board.ValidBoardShape | main.py:116-118 | a board of the game has distinct cells, one blank, and never shows the ninth tile |
| Solvability.TileCount | main.py:136-143 | the number of tile cells is at most the length of the board |
| Solvability.PairsWith | main.py:139-143 | the inner loop adds at most one per cell it visits |
| Solvability.TileCountBlanks | main.py:136-143 | tiles and blanks together make up the board |
| Solvability.TileCountAppend | main.py:136-143 | the tile count of a concatenation is the sum of the counts |
| Solvability.PairsWithDistinct | main.py:139-143 | without repeated tiles the inner loop counts every later tile |
| Solvability.InversionsBeforeDistinct | main.py:136-143 | without repeated tiles the outer loop has counted all pairs except those among the remaining tiles |
| Solvability.InversionsOfDistinct | main.py:135-143 | without repeated tiles the counter is k * (k - 1) / 2 for k tiles |
| Solvability.TriangleClosedForm | main.py:135-143 | 0 + 1 + ... + (k - 1) is k * (k - 1) / 2 |
| Solvability.TriangleFourTimes | main.py:151-152 | the pair count of 4 * q tiles is even |
| Solvability.OddSquare | main.py:151-152 | an odd square is one more than a multiple of 4 |
| Solvability.OddSizeAlwaysSolvable | main.py:130-152 | for an odd board size the test accepts every board with one blank and no repeated tile |
| Solvability.EmptyRowScanFinds | main.py:145-149 | the reverse row scan gives n - r for the lowest row r that holds a blank |
| Solvability.EvenSizeDependsOnBlankRow | main.py:130-154 | for an even board size the test depends only on the blank's row, not on the tiles' order |
| Hints.ScanFrom | main.py:286-297 | a cell the scan returns is on the board |
| Hints.ScanFromSpec | main.py:286-298 | the scan from a cell stops at the first candidate at or after it, and returns none exactly when there is none |
| Hints.ScanFirst | main.py:286-297 | no cell before the one the scan returns is a candidate |
| Hints.ScanFound | main.py:286-297 | the cell the scan returns is misplaced and next to the blank |
| Hints.ScanStep | main.py:288-297 | one step of the scan: cell (row, col) is taken exactly when it is misplaced and next to the blank |
| Hints.HintFromScan | main.py:285-298 | the hint is read off the scan from the blank `find_empty` returns |
| Hints.DirectionToNeighbour | main.py:290-296 | the chosen direction makes `move_tile` take exactly the chosen neighbour |
| Hints.HintExistsIff | main.py:284-298 | there is a hint exactly when some neighbour of the blank is misplaced |
| Hints.HintIsLegalMove | main.py:284-297 | the hint's cell is on the board, misplaced and next to the blank, and its direction names that cell |
| Hints.HintIsFirst | main.py:286-297 | the hint's cell is the first candidate in row-major order |
| Hints.NoHintWhenSolved | main.py:284-298 | on the solved layout `get_hint` finds nothing |
| Hints.LastCellMisplaced | main.py:288 | on a board of the game the bottom-right cell always counts as misplaced |
| Game.LevelAward | main.py:126 | the award is `max(1000 - 10 * move_count, 100)`: at least 100, and at most 1000 for a non-negative count |
| Game.FirstAcceptedFrom | main.py:117-122 | the draw where the shuffle loop stops is accepted, and no earlier draw is |
| Game.FirstAccepted | main.py:117-122 | the same, from the first draw on |
| Game.BoardSolvable | main.py:130-152 | every board of the game passes `is_solvable` |
| Game.AcceptedUnlessSolved | main.py:121 | the shuffle loop accepts a board of the game exactly when it is not the solved layout |
| Game.SlidingPuzzle.Cells | main.py:131-133 | the flattened grid has 9 cells |
| Game.SlidingPuzzle.CellAt | main.py:164-166 | cell 3 * r + c of the flattened grid is `grid[r][c]` |
| Game.SlidingPuzzle.ScanStepAt | main.py:288-297 | one step of the hint scan, read off the grid |
| Game.SlidingPuzzle.constructor | main.py:62-69 | level 1, score 0, no moves, not solved, the first accepted draw (`FirstAccepted`) as the board, which passes `is_solvable` (`Solvable(3, grid)`) and is not the `Solution`; `Valid()` holds |
| Game.SlidingPuzzle.ResetPuzzle | main.py:111-122 | moves 0, not solved, the grid is the first accepted draw (`FirstAccepted`), which passes `is_solvable` (`Solvable(3, grid)`) and is not the `Solution`; level, score and tiles are kept; `Valid()` holds |
| Game.SlidingPuzzle.NextLevel | main.py:124-128 | level + 1, score + the level award (between 100 and 1000), new tiles, moves 0, not solved, a fresh shuffle (`FirstAccepted`); `Valid()` holds |
| Game.SlidingPuzzle.IsSolvable | main.py:130-154 | the nested loops and the reverse row scan return exactly `Solvable(3, grid)`, with `inversions` tracked as `InversionsBefore` and `PairsWith` and `empty_row` as `EmptyRowDistance` |
| Game.SlidingPuzzle.FlatGrid | main.py:131-133 | the flattening loop gives `Cells()`, that is `Flatten(grid)` |
| Game.SlidingPuzzle.FindEmpty | main.py:156-161 | None exactly when the grid has no blank, and otherwise `Blank(Cells())`, the first blank in row-major order |
| Game.SlidingPuzzle.IsSolved | main.py:163-169 | true exactly when `Cells() == Solution(tiles)` |
| Game.SlidingPuzzle.MoveTile | main.py:171-196 | accepted exactly when not yet solved and the blank has a neighbour in that direction; that is, when `Slide(Cells(), direction)` is not none. Then the board is that slide and the count rises by one. Otherwise nothing changes. `Valid()` holds either way |
| Game.SlidingPuzzle.CommitMove | main.py:189-194 | the board becomes `MoveInto(Cells(), b, q)` for the blank b and its neighbour q, the count rises by one, and `Valid()` holds, so the flag says whether the new board is solved |
| Game.SlidingPuzzle.FillBlank | main.py:189-190 | the two grid assignments give `MoveInto(old Cells(), (r, c), (r', c'))` |
| Game.SlidingPuzzle.GetHint | main.py:284-298 | true exactly when `Hint(Cells(), tiles)` is some direction. Then exactly `Slide(Cells(), that direction)` is made and counted. Otherwise it is false with nothing changed. `Valid()` holds |
| Game.SlidingPuzzle.HintScan | main.py:285-298 | the nested scan returns exactly `Hint(Cells(), tiles)` |
| Game.SlidingPuzzle.ScanRow | main.py:287-297 | the scan of one row returns `DirectionTo` of the first `Candidate` in it (as given by `ScanFrom`), or none and the scan goes on to the next row |

## Left out

- Pygame set-up, the screen, colours, fonts and the background image
  (main.py:1-47) are presentation.
- `draw` (main.py:198-282) is rendering only.
- The `main` event loop and its 60 fps clock (main.py:300-329) are
  presentation and event handling. The loop calls `next_level` only when
  the puzzle is solved. `NextLevel` does not require this, and neither does
  the source method.
- `load_random_image`, `get_image_paths` and `create_default_tiles`
  (main.py:71-109) load, crop and paint images. The model takes the tile set
  as nine distinct handles, passed to the constructor and to `NextLevel`.
- `random.shuffle` and `random.choice` are not modelled as a generator. The
  shuffle is the `draws` input described above. The model does not claim the
  loop ever stops for a real random source, only that it stops at the first
  accepted draw.
- `time.time()` and `start_time` (main.py:64, 113) read the wall clock.
- `move_tile` and `get_hint` raise an exception when `find_empty()` returns
  None (main.py:175, 285). The model does not include that error path.
  `MoveTile`, `GetHint` and `HintScan` require a blank, through `Valid()`
  or `Empty in Cells()`. Every reachable state has one, because the
  constructor and every method establish `Valid()`.
