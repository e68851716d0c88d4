/** The greedy hint: the first cell, in row-major order, that is next to the
    blank and does not hold its own tile, and the move that slides it into
    the blank. It is not a solver: it only ever proposes one legal move. */
module Hints {
  import opened Board

  /** The cell at p does not hold tile `tiles[p.row * 3 + p.col]`. The last
      cell never does: the last tile image never appears on the board. */
  predicate Misplaced(s: seq<Cell>, tiles: seq<int>, p: Pos)
    requires |s| == Size && |tiles| == Size && OnBoard(p)
  {
    At(s, p) != Tile(tiles[Index(p)])
  }

  /** A cell the hint may move: misplaced and next to the blank at b. */
  predicate Candidate(s: seq<Cell>, tiles: seq<int>, b: Pos, p: Pos)
    requires |s| == Size && |tiles| == Size && OnBoard(p)
  {
    Misplaced(s, tiles, p) && Adjacent(p, b)
  }

  /** The nested loops of `get_hint` from cell (row, col) on, for the blank
      at b: rows and columns in order, stopping at the first candidate. */
  function ScanFrom(s: seq<Cell>, tiles: seq<int>, b: Pos, row: nat, col: nat): (q: Option<Pos>)
    requires |s| == Size && |tiles| == Size && row <= 3 && col <= 3
    ensures q.Some? ==> OnBoard(q.value)
    decreases 3 - row, 3 - col
  {
    if row == 3 then None
    else if col == 3 then ScanFrom(s, tiles, b, row + 1, 0)
    else if Candidate(s, tiles, b, Pos(row, col)) then Some(Pos(row, col))
    else ScanFrom(s, tiles, b, row, col + 1)
  }

  /** The scan from (row, col) stops at the first candidate in row-major
      order at or after that cell, and finds nothing only when there is
      none. */
  lemma {:induction false} ScanFromSpec(s: seq<Cell>, tiles: seq<int>, b: Pos, row: nat, col: nat)
    requires |s| == Size && |tiles| == Size && row <= 3 && col <= 3 && 3 * row + col <= Size
    ensures var q := ScanFrom(s, tiles, b, row, col);
      (q.Some? ==> 3 * row + col <= Index(q.value) && Candidate(s, tiles, b, q.value)) &&
      (q.Some? ==> forall p {:trigger Candidate(s, tiles, b, p)} :: OnBoard(p) && 3 * row + col <= Index(p) < Index(q.value) ==>
                     !Candidate(s, tiles, b, p)) &&
      (q.None? ==> forall p {:trigger Candidate(s, tiles, b, p)} :: OnBoard(p) && 3 * row + col <= Index(p) ==> !Candidate(s, tiles, b, p))
    decreases 3 - row, 3 - col
  {
    if row < 3 {
      if col == 3 {
        ScanFromSpec(s, tiles, b, row + 1, 0);
      } else if !Candidate(s, tiles, b, Pos(row, col)) {
        ScanFromSpec(s, tiles, b, row, col + 1);
        forall p | OnBoard(p) && Index(p) == 3 * row + col ensures p == Pos(row, col) {
          IndexInjective(p, Pos(row, col));
        }
      }
    }
  }

  /** The whole scan stops at the first candidate in row-major order. */
  lemma ScanFirst(s: seq<Cell>, tiles: seq<int>, b: Pos)
    requires |s| == Size && |tiles| == Size && ScanFrom(s, tiles, b, 0, 0).Some?
    ensures var q := ScanFrom(s, tiles, b, 0, 0).value;
      forall p {:trigger Candidate(s, tiles, b, p)} :: OnBoard(p) && Index(p) < Index(q) ==> !Candidate(s, tiles, b, p)
  {
    ScanFromSpec(s, tiles, b, 0, 0);
  }

  /** One step of the scan at cell (row, col), with the test of `get_hint`
      written out on the flat cells. */
  lemma ScanStep(s: seq<Cell>, tiles: seq<int>, b: Pos, row: nat, col: nat)
    requires |s| == Size && |tiles| == Size && row < 3 && col < 3
    ensures var here := s[3 * row + col] != Tile(tiles[3 * row + col]) &&
                        ((row == b.row && Abs(col - b.col) == 1) || (col == b.col && Abs(row - b.row) == 1));
      ScanFrom(s, tiles, b, row, col) == if here then Some(Pos(row, col)) else ScanFrom(s, tiles, b, row, col + 1)
  {
  }

  /** A cell the whole scan returns is a candidate. */
  lemma ScanFound(s: seq<Cell>, tiles: seq<int>, b: Pos)
    requires |s| == Size && |tiles| == Size && ScanFrom(s, tiles, b, 0, 0).Some?
    ensures Candidate(s, tiles, b, ScanFrom(s, tiles, b, 0, 0).value)
  {
    ScanFromSpec(s, tiles, b, 0, 0);
  }

  /** The cell the hint slides into the blank, if any. */
  function HintCell(s: seq<Cell>, tiles: seq<int>): Option<Pos>
    requires |s| == Size && |tiles| == Size && Empty in s
  {
    ScanFrom(s, tiles, Blank(s), 0, 0)
  }

  /** The direction `get_hint` passes to `move_tile` for the neighbour q of
      the blank at b: "left"/"right" for a neighbour in the same row,
      "up"/"down" for one in the same column. */
  function DirectionTo(b: Pos, q: Pos): string
  {
    if q.row == b.row then (if q.col > b.col then "left" else "right")
    else (if q.row > b.row then "up" else "down")
  }

  /** The move `get_hint` makes, if any. */
  function Hint(s: seq<Cell>, tiles: seq<int>): Option<string>
    requires |s| == Size && |tiles| == Size && Empty in s
  {
    match HintCell(s, tiles)
    case None => None
    case Some(q) => Some(DirectionTo(Blank(s), q))
  }

  /** The hint read off a scan that starts from the blank. */
  lemma HintFromScan(s: seq<Cell>, tiles: seq<int>, b: Pos)
    requires |s| == Size && |tiles| == Size && Empty in s && b == Blank(s)
    ensures HintCell(s, tiles) == ScanFrom(s, tiles, b, 0, 0)
    ensures HintCell(s, tiles).None? ==> Hint(s, tiles).None?
    ensures HintCell(s, tiles).Some? ==> Hint(s, tiles) == Some(DirectionTo(b, HintCell(s, tiles).value))
  {
  }

  /** The direction towards a neighbour makes `move_tile` take exactly that
      neighbour. */
  lemma DirectionToNeighbour(b: Pos, q: Pos)
    requires OnBoard(b) && OnBoard(q) && Adjacent(b, q)
    ensures Neighbour(b, DirectionTo(b, q)) == Some(q)
  {
  }

  /** A hint exists exactly when some neighbour of the blank is misplaced. */
  lemma HintExistsIff(s: seq<Cell>, tiles: seq<int>)
    requires |s| == Size && |tiles| == Size && Empty in s
    ensures Hint(s, tiles).Some? <==> exists q {:trigger Candidate(s, tiles, Blank(s), q)} :: OnBoard(q) && Candidate(s, tiles, Blank(s), q)
  {
    var b := Blank(s);
    ScanFromSpec(s, tiles, b, 0, 0);
    if HintCell(s, tiles).Some? {
      var q := HintCell(s, tiles).value;
      assert OnBoard(q) && Candidate(s, tiles, b, q);
    }
  }

  /** The hint only ever makes a move that `move_tile` accepts in the board's
      geometry (see SlideLegal): it slides a misplaced neighbour of the blank
      into the blank. */
  lemma HintIsLegalMove(s: seq<Cell>, tiles: seq<int>)
    requires |s| == Size && |tiles| == Size && Empty in s && Hint(s, tiles).Some?
    ensures var q := HintCell(s, tiles).value;
      OnBoard(q) && Misplaced(s, tiles, q) && Adjacent(Blank(s), q) &&
      Neighbour(Blank(s), Hint(s, tiles).value) == Some(q)
  {
    var b := Blank(s);
    HintFromScan(s, tiles, b);
    ScanFound(s, tiles, b);
    DirectionToNeighbour(b, HintCell(s, tiles).value);
  }

  /** The cell the hint moves is the first candidate in row-major order. */
  lemma HintIsFirst(s: seq<Cell>, tiles: seq<int>)
    requires |s| == Size && |tiles| == Size && Empty in s && HintCell(s, tiles).Some?
    ensures var q := HintCell(s, tiles).value;
      forall p {:trigger Candidate(s, tiles, Blank(s), p)} :: OnBoard(p) && Index(p) < Index(q) ==> !Candidate(s, tiles, Blank(s), p)
  {
    ScanFirst(s, tiles, Blank(s));
  }

  /** On the solved layout every cell holds its tile except the last, which
      is the blank itself: no hint. */
  lemma NoHintWhenSolved(tiles: seq<int>)
    requires |tiles| == Size
    ensures Hint(Solution(tiles), tiles).None?
  {
    var s := Solution(tiles);
    SolutionBlank(tiles);
    forall p {:trigger Candidate(s, tiles, Pos(2, 2), p)} | OnBoard(p) ensures !Candidate(s, tiles, Pos(2, 2), p) {
      IndexInjective(p, Pos(2, 2));
    }
    ScanFromSpec(s, tiles, Pos(2, 2), 0, 0);
  }

  /** On a board of the game the bottom-right cell always counts as
      misplaced, because `tiles[8]` never appears on the board. */
  lemma LastCellMisplaced(s: seq<Cell>, tiles: seq<int>)
    requires ValidBoard(s, tiles)
    ensures Misplaced(s, tiles, Pos(2, 2))
  {
    ValidBoardShape(s, tiles);
  }
}
