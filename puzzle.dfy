/** The puzzle state machine: the `SlidingPuzzle` object of the game, whose
    methods change its grid and counters in place. */
module Game {
  import opened Board
  import opened Solvability
  import opened Hints

  /** The points `next_level` awards for a level finished in moveCount
      moves: `max(1000 - move_count * 10, 100)`. */
  function LevelAward(moveCount: int): (award: int)
    ensures award >= 100 && award >= 1000 - 10 * moveCount
    ensures award == 100 || award == 1000 - 10 * moveCount
    ensures moveCount >= 0 ==> award <= 1000
  {
    if 1000 - moveCount * 10 >= 100 then 1000 - moveCount * 10 else 100
  }

  /** The exit test of the shuffle loop: the arranged board passes
      `is_solvable` and is not the solved layout. */
  predicate Accepted(s: seq<Cell>, tiles: seq<int>)
  {
    |s| == Size && |tiles| == Size && Solvable(3, Arrange(s)) && s != Solution(tiles)
  }

  /** What the random source supplies to one run of the shuffle loop: the
      successive orders of `tile_list`, each a permutation of the solved
      layout, at least one of which the loop accepts. */
  ghost predicate Shuffles(draws: seq<seq<Cell>>, tiles: seq<int>)
  {
    |tiles| == Size &&
    (forall k :: 0 <= k < |draws| ==> |draws[k]| == Size && multiset(draws[k]) == multiset(Solution(tiles))) &&
    exists k :: 0 <= k < |draws| && Accepted(draws[k], tiles)
  }

  /** The draw at which the shuffle loop stops, searching from draw i on. */
  function FirstAcceptedFrom(draws: seq<seq<Cell>>, tiles: seq<int>, i: nat): (k: nat)
    requires exists k :: i <= k < |draws| && Accepted(draws[k], tiles)
    ensures i <= k < |draws| && Accepted(draws[k], tiles)
    ensures forall j :: i <= j < k ==> !Accepted(draws[j], tiles)
    decreases |draws| - i
  {
    if Accepted(draws[i], tiles) then i else FirstAcceptedFrom(draws, tiles, i + 1)
  }

  function FirstAccepted(draws: seq<seq<Cell>>, tiles: seq<int>): (k: nat)
    requires exists k :: 0 <= k < |draws| && Accepted(draws[k], tiles)
    ensures k < |draws| && Accepted(draws[k], tiles)
    ensures forall j :: 0 <= j < k ==> !Accepted(draws[j], tiles)
  {
    FirstAcceptedFrom(draws, tiles, 0)
  }

  /** Every board of the game passes the solvability test: the 3 x 3 board
      has an odd size (see OddSizeAlwaysSolvable). */
  lemma BoardSolvable(s: seq<Cell>, tiles: seq<int>)
    requires ValidBoard(s, tiles)
    ensures Solvable(3, Arrange(s))
  {
    ValidBoardShape(s, tiles);
    FlattenArrange(s);
    NoDupDistinct(s);
    OddSizeAlwaysSolvable(3, Arrange(s));
  }

  /** So the shuffle rejects exactly one arrangement: the solved layout. */
  lemma AcceptedUnlessSolved(s: seq<Cell>, tiles: seq<int>)
    requires ValidBoard(s, tiles)
    ensures Accepted(s, tiles) <==> s != Solution(tiles)
  {
    BoardSolvable(s, tiles);
  }

  class SlidingPuzzle {
    var moveCount: int
    var gameSolved: bool
    var currentLevel: int
    var totalScore: int
    /** Handles of the nine tile images of the current level. */
    var tiles: seq<int>
    /** `self.grid`: the board, row by row; `Empty` is the blank. */
    var grid: seq<seq<Cell>>

    /** The grid has 3 rows of 3 cells. */
    predicate Shaped()
      reads this`grid
    {
      |grid| == 3 && forall r :: 0 <= r < 3 ==> |grid[r]| == 3
    }

    /** The cells in row-major order, as `is_solvable` and `is_solved`
        flatten them. */
    function Cells(): (s: seq<Cell>)
      reads this`grid
      requires Shaped()
      ensures |s| == Size
    {
      ArrangeFlatten(grid);
      Flatten(grid)
    }

    /** The invariant of every reachable state: the grid holds the cells of
        the solved layout, the solved flag tells whether it is solved, and
        the counters are in range. */
    ghost predicate Valid()
      reads this
    {
      Shaped() && ValidBoard(Cells(), tiles) && Empty in Cells() &&
      moveCount >= 0 && currentLevel >= 1 && totalScore >= 0 &&
      (gameSolved <==> Cells() == Solution(tiles))
    }

    /** `grid[r][c]` is cell `r * 3 + c` of the flattened grid: a thin
        wrapper over Board.CellOfRows for this object's grid. */
    lemma CellAt(r: nat, c: nat)
      requires Shaped() && r < 3 && c < 3
      ensures Cells()[3 * r + c] == grid[r][c]
    {
      CellOfRows(grid, r, c);
    }

    /** One step of the hint scan, read off the grid: the cell (row, col) is
        taken when it does not hold its own tile and is next to the blank b.
        A thin wrapper over Hints.ScanStep for this object's grid. */
    lemma ScanStepAt(b: Pos, row: nat, col: nat)
      requires Shaped() && |tiles| == Size && row < 3 && col < 3
      ensures var here := grid[row][col] != Tile(tiles[3 * row + col]) &&
                          ((row == b.row && Abs(col - b.col) == 1) || (col == b.col && Abs(row - b.row) == 1));
        ScanFrom(Cells(), tiles, b, row, col) ==
          if here then Some(Pos(row, col)) else ScanFrom(Cells(), tiles, b, row, col + 1)
    {
      CellAt(row, col);
      ScanStep(Cells(), tiles, b, row, col);
    }

    /** `__init__`: level 1, no score, a freshly shuffled board of the given
        tile set. */
    constructor (tileSet: seq<int>, draws: seq<seq<Cell>>)
      requires |tileSet| == Size && NoDup(tileSet) && Shuffles(draws, tileSet)
      ensures Valid()
      ensures moveCount == 0 && !gameSolved && currentLevel == 1 && totalScore == 0 && tiles == tileSet
      ensures Cells() == draws[FirstAccepted(draws, tileSet)]
      ensures Solvable(3, grid) && Cells() != Solution(tiles)
    {
      moveCount := 0;
      gameSolved := false;
      currentLevel := 1;
      totalScore := 0;
      tiles := tileSet;
      grid := [];
      new;
      ResetPuzzle(draws);
    }

    /** `reset_puzzle`: shuffles until the board passes the solvability test
        and is not solved. Level, score and tile set are kept. */
    method ResetPuzzle(draws: seq<seq<Cell>>)
      requires |tiles| == Size && NoDup(tiles) && currentLevel >= 1 && totalScore >= 0
      requires Shuffles(draws, tiles)
      modifies this
      ensures Valid()
      ensures moveCount == 0 && !gameSolved
      ensures tiles == old(tiles) && currentLevel == old(currentLevel) && totalScore == old(totalScore)
      ensures Cells() == draws[FirstAccepted(draws, tiles)]
      ensures Solvable(3, grid) && Cells() != Solution(tiles)
    {
      moveCount := 0;
      gameSolved := false;
      var tileList := Solution(tiles);
      ghost var last := FirstAccepted(draws, tiles);
      var attempt := 0;
      while true
        invariant 0 <= attempt <= last
        invariant forall k :: 0 <= k < attempt ==> !Accepted(draws[k], tiles)
        invariant moveCount == 0 && !gameSolved
        invariant tiles == old(tiles) && currentLevel == old(currentLevel) && totalScore == old(totalScore)
        decreases last - attempt
      {
        tileList := draws[attempt];
        grid := Arrange(tileList);
        FlattenArrange(tileList);
        var solvable := IsSolvable();
        if solvable {
          var solved := IsSolved();
          if !solved {
            assert Accepted(draws[attempt], tiles);
            break;
          }
        }
        assert !Accepted(draws[attempt], tiles);
        attempt := attempt + 1;
      }
      assert attempt == last;
      assert multiset(Cells()) == multiset(Solution(tiles));
      assert Empty in multiset(Solution(tiles));
    }

    /** `next_level`: awards the level's points, moves to the next level with
        a new tile set and shuffles again. */
    method NextLevel(tileSet: seq<int>, draws: seq<seq<Cell>>)
      requires Valid()
      requires |tileSet| == Size && NoDup(tileSet) && Shuffles(draws, tileSet)
      modifies this
      ensures Valid()
      ensures currentLevel == old(currentLevel) + 1
      ensures totalScore == old(totalScore) + LevelAward(old(moveCount))
      ensures old(totalScore) + 100 <= totalScore <= old(totalScore) + 1000
      ensures tiles == tileSet && moveCount == 0 && !gameSolved
      ensures Cells() == draws[FirstAccepted(draws, tileSet)]
    {
      currentLevel := currentLevel + 1;
      totalScore := totalScore + LevelAward(moveCount);
      tiles := tileSet;
      ResetPuzzle(draws);
    }

    /** `is_solvable` on the current grid. */
    method IsSolvable() returns (solvable: bool)
      requires Shaped()
      ensures solvable <==> Solvable(3, grid)
    {
      var flat := FlatGrid();
      var inversions := 0;
      var i := 0;
      while i < |flat|
        invariant 0 <= i <= |flat|
        invariant inversions == InversionsBefore(flat, i)
      {
        if flat[i] != Empty {
          var j := i + 1;
          while j < |flat|
            invariant i + 1 <= j <= |flat|
            invariant inversions == InversionsBefore(flat, i) + PairsWith(flat, i, j)
          {
            if flat[j] != Empty && flat[i] != flat[j] {
              inversions := inversions + 1;
            }
            j := j + 1;
          }
        }
        i := i + 1;
      }
      var emptyRow := 0;
      var r: int := 2;
      while r >= 0
        invariant -1 <= r < 3
        invariant EmptyRowScan(grid, 3, r) == EmptyRowDistance(grid, 3)
        invariant emptyRow == 0
      {
        if Empty in grid[r] {
          emptyRow := 3 - r;
          break;
        }
        r := r - 1;
      }
      assert emptyRow == EmptyRowDistance(grid, 3);
      var parity := if 3 % 2 == 1 then inversions else inversions + emptyRow;
      solvable := parity % 2 == 0;
    }

    /** The grid flattened row by row, as `is_solvable` and `is_solved` build it. */
    method FlatGrid() returns (flat: seq<Cell>)
      requires Shaped()
      ensures flat == Cells()
    {
      flat := [];
      var row := 0;
      while row < 3
        invariant 0 <= row <= 3
        invariant flat == Flatten(grid[..row])
      {
        assert grid[..row + 1][..row] == grid[..row];
        flat := flat + grid[row];
        row := row + 1;
      }
      assert grid[..3] == grid;
    }

    /** `find_empty`: the first blank cell in row-major order, None when the
        grid has no blank. */
    method FindEmpty() returns (blank: Option<Pos>)
      requires Shaped()
      ensures blank.None? <==> Empty !in Cells()
      ensures blank.Some? ==> Empty in Cells() && blank.value == Blank(Cells())
    {
      ghost var cells := Cells();
      BlankFromSpec(cells, 0, 0);
      assert cells[0..] == cells;
      var row := 0;
      while row < 3
        invariant 0 <= row <= 3
        invariant BlankFrom(cells, row, 0) == BlankFrom(cells, 0, 0)
      {
        var col := 0;
        while col < 3
          invariant 0 <= col <= 3
          invariant BlankFrom(cells, row, col) == BlankFrom(cells, 0, 0)
        {
          CellAt(row, col);
          if grid[row][col] == Empty {
            return Some(Pos(row, col));
          }
          col := col + 1;
        }
        row := row + 1;
      }
      return None;
    }

    /** `is_solved`: the flattened grid is exactly `tiles[:-1] + [None]`. */
    method IsSolved() returns (solved: bool)
      requires Shaped() && |tiles| == Size
      ensures solved <==> Cells() == Solution(tiles)
    {
      var flat := FlatGrid();
      var solvedTiles := Solution(tiles);
      solved := flat == solvedTiles;
    }

    /** `move_tile`: slides the neighbour of the blank named by direction into
        the blank, counts the move and sets the solved flag when the board
        becomes solved. Refused, with nothing changed, once the puzzle is
        solved, towards the edge, or for an unknown direction. */
    method MoveTile(direction: string) returns (moved: bool)
      requires Valid()
      modifies this
      ensures Valid()
      ensures tiles == old(tiles) && currentLevel == old(currentLevel) && totalScore == old(totalScore)
      ensures moved <==> !old(gameSolved) && Slide(old(Cells()), direction).Some?
      ensures moved ==> Cells() == Slide(old(Cells()), direction).value && moveCount == old(moveCount) + 1
      ensures !moved ==> grid == old(grid) && moveCount == old(moveCount) && gameSolved == old(gameSolved)
    {
      if gameSolved {
        return false;
      }
      var blank := FindEmpty();
      var emptyRow, emptyCol := blank.value.row, blank.value.col;
      var newRow, newCol := emptyRow, emptyCol;
      if direction == "up" && emptyRow < 2 {
        newRow := emptyRow + 1;
      } else if direction == "down" && emptyRow > 0 {
        newRow := emptyRow - 1;
      } else if direction == "left" && emptyCol < 2 {
        newCol := emptyCol + 1;
      } else if direction == "right" && emptyCol > 0 {
        newCol := emptyCol - 1;
      } else {
        SlideLegal(Cells(), direction);
        return false;
      }
      CommitMove(Pos(emptyRow, emptyCol), Pos(newRow, newCol));
      assert Neighbour(blank.value, direction) == Some(Pos(newRow, newCol));
      moved := true;
    }

    /** The accepted half of `move_tile`: the tile at q, next to the blank b,
        slides into it, the move is counted and the solved flag is updated. */
    method CommitMove(b: Pos, q: Pos)
      requires Valid() && !gameSolved
      requires OnBoard(b) && OnBoard(q) && b != q && At(Cells(), b) == Empty
      modifies this
      ensures Valid()
      ensures tiles == old(tiles) && currentLevel == old(currentLevel) && totalScore == old(totalScore)
      ensures Cells() == MoveInto(old(Cells()), b, q) && moveCount == old(moveCount) + 1
    {
      ghost var before := Cells();
      CellAt(q.row, q.col);
      FillBlank(b.row, b.col, q.row, q.col);
      MoveIntoKeepsBoard(before, tiles, b, q);
      moveCount := moveCount + 1;
      var solved := IsSolved();
      if solved {
        gameSolved := true;
      }
    }

    /** The two assignments of `move_tile`: the tile at (r', c') moves into
        the blank cell (r, c), and (r', c') becomes blank. */
    method FillBlank(r: nat, c: nat, r': nat, c': nat)
      requires Shaped() && r < 3 && c < 3 && r' < 3 && c' < 3 && (r, c) != (r', c')
      modifies this`grid
      ensures Shaped()
      ensures Cells() == MoveInto(old(Cells()), Pos(r, c), Pos(r', c'))
    {
      ghost var g0 := grid;
      grid := grid[r := grid[r][c := grid[r'][c']]];
      grid := grid[r' := grid[r'][c' := Empty]];
      MoveIntoRows(g0, Pos(r, c), Pos(r', c'));
    }

    /** `get_hint`: makes the first move, in row-major order, that slides a
        misplaced neighbour of the blank into it; false when there is none. */
    method GetHint() returns (hinted: bool)
      requires Valid()
      modifies this
      ensures Valid()
      ensures tiles == old(tiles) && currentLevel == old(currentLevel) && totalScore == old(totalScore)
      ensures hinted <==> Hint(old(Cells()), tiles).Some?
      ensures hinted ==> Slide(old(Cells()), Hint(old(Cells()), tiles).value).Some?
      ensures hinted ==>
        Cells() == Slide(old(Cells()), Hint(old(Cells()), tiles).value).value &&
        moveCount == old(moveCount) + 1
      ensures !hinted ==> grid == old(grid) && moveCount == old(moveCount) && gameSolved == old(gameSolved)
    {
      var direction := HintScan();
      if direction.None? {
        return false;
      }
      HintIsLegalMove(Cells(), tiles);
      SlideLegal(Cells(), direction.value);
      NoHintWhenSolved(tiles);
      var moved := MoveTile(direction.value);
      return true;
    }

    /** The scan of `get_hint`: the direction of the first cell, in row-major
        order, that is next to the blank and does not hold its own tile. */
    method HintScan() returns (direction: Option<string>)
      requires Shaped() && |tiles| == Size && Empty in Cells()
      ensures direction == Hint(Cells(), tiles)
    {
      var blank := FindEmpty();
      var b := blank.value;
      HintFromScan(Cells(), tiles, b);
      var row := 0;
      while row < 3
        invariant 0 <= row <= 3
        invariant ScanFrom(Cells(), tiles, b, row, 0) == HintCell(Cells(), tiles)
      {
        direction := ScanRow(b, row);
        if direction.Some? {
          return;
        }
        row := row + 1;
      }
      return None;
    }

    /** The inner loop of `get_hint` over the cells of one row, for the blank
        at b: the direction of the first candidate in that row, if any. */
    method ScanRow(b: Pos, row: nat) returns (direction: Option<string>)
      requires Shaped() && |tiles| == Size && OnBoard(b) && row < 3
      ensures direction.None? ==> ScanFrom(Cells(), tiles, b, row, 0) == ScanFrom(Cells(), tiles, b, row + 1, 0)
      ensures direction.Some? ==>
        ScanFrom(Cells(), tiles, b, row, 0).Some? &&
        direction.value == DirectionTo(b, ScanFrom(Cells(), tiles, b, row, 0).value)
    {
      var emptyRow: int, emptyCol: int := b.row, b.col;
      var col := 0;
      while col < 3
        invariant 0 <= col <= 3
        invariant ScanFrom(Cells(), tiles, b, row, col) == ScanFrom(Cells(), tiles, b, row, 0)
      {
        ScanStepAt(b, row, col);
        if grid[row][col] != Tile(tiles[3 * row + col]) {
          if row == emptyRow && Abs(col - emptyCol) == 1 {
            return Some(if col > emptyCol then "left" else "right");
          }
          if col == emptyCol && Abs(row - emptyRow) == 1 {
            return Some(if row > emptyRow then "up" else "down");
          }
        }
        col := col + 1;
      }
      return None;
    }
  }
}
