/** The board of the 3x3 sliding puzzle, seen as values: cells, row-major
    layouts, the solved layout and a single slide of a tile into the blank. */
module Board {

  /* GRID_SIZE is 3: the board has 3 rows of 3 cells. The width is written
     as the literal 3 throughout, which keeps the index arithmetic linear. */

  /** Number of cells on the board (3 * 3). */
  const Size: nat := 9

  /** A cell holds the handle of one tile image, or is the blank (`None`). */
  datatype Cell = Empty | Tile(handle: int)

  datatype Option<T> = None | Some(value: T)

  function Abs(x: int): nat { if x < 0 then -x else x }

  /** A cell position: `(row, col)` as the game passes them around. */
  datatype Pos = Pos(row: nat, col: nat)

  predicate OnBoard(p: Pos)
  {
    p.row < 3 && p.col < 3
  }

  /** Row-major index of a position, `row * GRID_SIZE + col`. */
  function Index(p: Pos): nat
  {
    3 * p.row + p.col
  }

  /** Different positions on the board have different indices, all below 9. */
  lemma IndexInjective(p: Pos, q: Pos)
    requires OnBoard(p) && OnBoard(q)
    ensures Index(p) < Size
    ensures Index(p) == Index(q) <==> p == q
  {
  }

  /** The cell at a position of a row-major board. */
  function At(s: seq<Cell>, p: Pos): Cell
    requires |s| == Size && OnBoard(p)
  {
    s[Index(p)]
  }

  /** Two cells share a side: same row and neighbouring columns, or same
      column and neighbouring rows. */
  predicate Adjacent(p: Pos, q: Pos)
  {
    (p.row == q.row && Abs(p.col - q.col) == 1) ||
    (p.col == q.col && Abs(p.row - q.row) == 1)
  }

  /** No element occurs twice. */
  ghost predicate NoDup<T>(s: seq<T>)
  {
    forall i, j :: 0 <= i < j < |s| ==> s[i] != s[j]
  }

  /** The board has exactly one blank. */
  predicate SingleBlank(s: seq<Cell>)
  {
    multiset(s)[Empty] == 1
  }

  /** The row-major concatenation of the rows (`flat.extend(row)` for each row). */
  function Flatten(rows: seq<seq<Cell>>): (s: seq<Cell>)
  {
    if rows == [] then [] else Flatten(rows[..|rows| - 1]) + rows[|rows| - 1]
  }

  /** Cuts a row-major list of cells into 3 rows of 3 cells
      (`[tile_list[i:i + GRID_SIZE] for i in range(0, len(tile_list), GRID_SIZE)]`). */
  function Arrange(s: seq<Cell>): (rows: seq<seq<Cell>>)
    requires |s| == Size
    ensures |rows| == 3
    ensures forall r :: 0 <= r < 3 ==> |rows[r]| == 3
    ensures forall r, c :: 0 <= r < 3 && 0 <= c < 3 ==> rows[r][c] == s[3 * r + c]
  {
    seq(3, r requires 0 <= r < 3 => s[3 * r .. 3 * r + 3])
  }

  /** Every row of length n makes the concatenation |rows| * n long. */
  lemma {:induction false} FlattenLength(rows: seq<seq<Cell>>, n: nat)
    requires forall r :: 0 <= r < |rows| ==> |rows[r]| == n
    ensures |Flatten(rows)| == |rows| * n
  {
    if rows != [] {
      var init := rows[..|rows| - 1];
      assert forall r :: 0 <= r < |init| ==> init[r] == rows[r];
      FlattenLength(init, n);
      assert |Flatten(rows)| == |init| * n + n;
      assert |init| * n + n == |rows| * n by {
        assert |rows| == |init| + 1;
      }
    }
  }

  /** Cutting a board into rows and joining them again gives the board back. */
  lemma FlattenArrange(s: seq<Cell>)
    requires |s| == Size
    ensures Flatten(Arrange(s)) == s
  {
    var rows := Arrange(s);
    assert rows[..3][..2] == rows[..2];
    assert rows[..2][..1] == rows[..1];
    assert rows[..1][..0] == [];
    calc {
      Flatten(rows);
      Flatten(rows[..2]) + rows[2];
      Flatten(rows[..1]) + rows[1] + rows[2];
      rows[0] + rows[1] + rows[2];
      s[0..3] + s[3..6] + s[6..9];
    }
    assert s == s[0..3] + s[3..6] + s[6..9];
  }

  /** Rows that hold the cells of s, cell r * 3 + c in row r, column c,
      join to s. */
  lemma FlattenCells(rows: seq<seq<Cell>>, s: seq<Cell>)
    requires |rows| == 3 && forall r :: 0 <= r < 3 ==> |rows[r]| == 3
    requires |s| == Size && forall r, c :: 0 <= r < 3 && 0 <= c < 3 ==> rows[r][c] == s[3 * r + c]
    ensures Flatten(rows) == s
  {
    var back := Arrange(s);
    forall r | 0 <= r < 3 ensures rows[r] == back[r] {
      assert forall c :: 0 <= c < 3 ==> rows[r][c] == back[r][c];
    }
    assert rows == back;
    FlattenArrange(s);
  }

  /** The two assignments of `move_tile` on the rows: the tile at q moves
      into the blank cell p of its row, then q becomes blank. */
  lemma MoveIntoRows(rows: seq<seq<Cell>>, p: Pos, q: Pos)
    requires |rows| == 3 && forall r :: 0 <= r < 3 ==> |rows[r]| == 3
    requires OnBoard(p) && OnBoard(q) && p != q
    ensures var half := rows[p.row := rows[p.row][p.col := rows[q.row][q.col]]];
      var full := half[q.row := half[q.row][q.col := Empty]];
      |full| == 3 && (forall r :: 0 <= r < 3 ==> |full[r]| == 3) &&
      |Flatten(rows)| == Size && Flatten(full) == MoveInto(Flatten(rows), p, q)
  {
    var half := rows[p.row := rows[p.row][p.col := rows[q.row][q.col]]];
    var full := half[q.row := half[q.row][q.col := Empty]];
    ArrangeFlatten(rows);
    var after := MoveInto(Flatten(rows), p, q);
    forall r, c | 0 <= r < 3 && 0 <= c < 3 ensures full[r][c] == after[3 * r + c] {
      RowsAfterMove(rows, p, q, r, c);
      CellOfRows(rows, r, c);
      CellOfRows(rows, q.row, q.col);
      MoveIntoAt(Flatten(rows), p, q, Pos(r, c));
    }
    FlattenCells(full, after);
  }

  /** Cell r * 3 + c of the joined rows is column c of row r. */
  lemma CellOfRows(rows: seq<seq<Cell>>, r: nat, c: nat)
    requires |rows| == 3 && forall r :: 0 <= r < 3 ==> |rows[r]| == 3
    requires r < 3 && c < 3
    ensures |Flatten(rows)| == Size && Flatten(rows)[3 * r + c] == rows[r][c]
  {
    ArrangeFlatten(rows);
    assert Arrange(Flatten(rows))[r][c] == Flatten(rows)[3 * r + c];
  }

  /** One cell of the rows after the two assignments of `move_tile`. */
  lemma RowsAfterMove(rows: seq<seq<Cell>>, p: Pos, q: Pos, r: nat, c: nat)
    requires |rows| == 3 && forall r :: 0 <= r < 3 ==> |rows[r]| == 3
    requires OnBoard(p) && OnBoard(q) && p != q && r < 3 && c < 3
    ensures var half := rows[p.row := rows[p.row][p.col := rows[q.row][q.col]]];
      var full := half[q.row := half[q.row][q.col := Empty]];
      full[r][c] == if Pos(r, c) == q then Empty else if Pos(r, c) == p then rows[q.row][q.col] else rows[r][c]
  {
  }

  /** One cell of the flat board after a tile moves into the blank. */
  lemma MoveIntoAt(s: seq<Cell>, p: Pos, q: Pos, x: Pos)
    requires |s| == Size && OnBoard(p) && OnBoard(q) && OnBoard(x) && p != q
    ensures MoveInto(s, p, q)[Index(x)] == if x == q then Empty else if x == p then At(s, q) else At(s, x)
  {
    IndexInjective(x, p);
    IndexInjective(x, q);
  }

  /** Joining a square board's rows and cutting the result again gives the rows back. */
  lemma ArrangeFlatten(rows: seq<seq<Cell>>)
    requires |rows| == 3 && forall r :: 0 <= r < 3 ==> |rows[r]| == 3
    ensures |Flatten(rows)| == Size && Arrange(Flatten(rows)) == rows
  {
    assert rows[..3][..2] == rows[..2];
    assert rows[..2][..1] == rows[..1];
    assert rows[..1][..0] == [];
    var s := Flatten(rows);
    calc {
      s;
      Flatten(rows[..2]) + rows[2];
      Flatten(rows[..1]) + rows[1] + rows[2];
      rows[0] + rows[1] + rows[2];
    }
    var back := Arrange(s);
    assert back[0] == rows[0] && back[1] == rows[1] && back[2] == rows[2];
  }

  /** The solved layout `tiles[:-1] + [None]`: tile k in cell k, the blank last.
      The last tile image is never placed on the board. */
  function Solution(tiles: seq<int>): (s: seq<Cell>)
    requires |tiles| == Size
    ensures |s| == Size && s[Size - 1] == Empty
    ensures forall k :: 0 <= k < Size - 1 ==> s[k] == Tile(tiles[k])
  {
    seq(Size - 1, k requires 0 <= k < Size - 1 => Tile(tiles[k])) + [Empty]
  }

  /** A board reachable in the game: a 3x3 arrangement of exactly the cells of
      the solved layout, for a tile set of nine distinct handles. */
  ghost predicate ValidBoard(s: seq<Cell>, tiles: seq<int>)
  {
    |s| == Size && |tiles| == Size && NoDup(tiles) &&
    multiset(s) == multiset(Solution(tiles))
  }

  /** The nested loops of `find_empty` from (row, col) on: the first blank
      in row-major order, None when there is none. */
  function BlankFrom(s: seq<Cell>, row: nat, col: nat): Option<Pos>
    requires |s| == Size && row <= 3 && col <= 3
    decreases 3 - row, 3 - col
  {
    if row == 3 then None
    else if col == 3 then BlankFrom(s, row + 1, 0)
    else if s[3 * row + col] == Empty then Some(Pos(row, col))
    else BlankFrom(s, row, col + 1)
  }

  /** The scan from (row, col) finds the first blank at or after that cell,
      and finds none exactly when no later cell is blank. */
  lemma {:induction false} BlankFromSpec(s: seq<Cell>, row: nat, col: nat)
    requires |s| == Size && row <= 3 && col <= 3 && 3 * row + col <= Size
    ensures var b := BlankFrom(s, row, col);
      (b.None? <==> Empty !in s[3 * row + col..]) &&
      (b.Some? ==> OnBoard(b.value) && 3 * row + col <= Index(b.value) &&
                   At(s, b.value) == Empty && Empty !in s[3 * row + col..Index(b.value)])
    decreases 3 - row, 3 - col
  {
    var k := 3 * row + col;
    if row == 3 {
      assert s[k..] == [];
    } else if col == 3 {
      BlankFromSpec(s, row + 1, 0);
    } else {
      assert s[k..] == [s[k]] + s[k + 1..];
      if s[k] != Empty {
        BlankFromSpec(s, row, col + 1);
        var b := BlankFrom(s, row, col + 1);
        if b.Some? {
          assert s[k..Index(b.value)] == [s[k]] + s[k + 1..Index(b.value)];
        }
      } else {
        assert s[k..k] == [];
      }
    }
  }

  /** The position `find_empty` returns: a blank, the first one in row-major
      order (BlankIsFirst). */
  function Blank(s: seq<Cell>): (b: Pos)
    requires |s| == Size && Empty in s
    ensures OnBoard(b) && At(s, b) == Empty
  {
    BlankFromSpec(s, 0, 0);
    assert s[0..] == s;
    BlankFrom(s, 0, 0).value
  }

  /** No cell before the blank `find_empty` returns is blank. */
  lemma BlankIsFirst(s: seq<Cell>)
    requires |s| == Size && Empty in s
    ensures forall p {:trigger At(s, p)} :: OnBoard(p) && Index(p) < Index(Blank(s)) ==> At(s, p) != Empty
  {
    BlankFromSpec(s, 0, 0);
    assert s[0..] == s;
    forall p {:trigger At(s, p)} | OnBoard(p) && Index(p) < Index(Blank(s)) ensures At(s, p) != Empty {
      assert s[0..Index(Blank(s))][Index(p)] == At(s, p);
    }
  }

  /** The blank of the solved layout is the bottom-right cell. */
  lemma SolutionBlank(tiles: seq<int>)
    requires |tiles| == Size
    ensures Blank(Solution(tiles)) == Pos(2, 2)
  {
    IndexInjective(Blank(Solution(tiles)), Pos(2, 2));
  }

  /** On a board with one blank, the blank is wherever a blank is seen. */
  lemma SingleBlankAt(s: seq<Cell>, b: Pos)
    requires |s| == Size && SingleBlank(s) && OnBoard(b) && At(s, b) == Empty
    ensures Blank(s) == b
  {
    var c := Blank(s);
    IndexInjective(c, b);
    if Index(c) < Index(b) {
      RepeatCount(s, Index(c), Index(b));
    } else if Index(b) < Index(c) {
      RepeatCount(s, Index(b), Index(c));
    }
  }

  /** The neighbour of the blank at p that `move_tile(direction)` slides into
      it. The direction names the way the tile slides, so "up" takes the cell
      below the blank. Any other string, or a neighbour off the board, gives None. */
  function Neighbour(p: Pos, direction: string): (q: Option<Pos>)
    requires OnBoard(p)
    ensures q.Some? ==> OnBoard(q.value) && Adjacent(p, q.value)
    ensures direction != "up" && direction != "down" && direction != "left" && direction != "right" ==>
      q.None?
  {
    if direction == "up" && p.row < 2 then Some(Pos(p.row + 1, p.col))
    else if direction == "down" && p.row > 0 then Some(Pos(p.row - 1, p.col))
    else if direction == "left" && p.col < 2 then Some(Pos(p.row, p.col + 1))
    else if direction == "right" && p.col > 0 then Some(Pos(p.row, p.col - 1))
    else None
  }

  /** The tile at q moves into the blank cell p and q becomes blank: the two
      assignments of `move_tile`. */
  function MoveInto(s: seq<Cell>, p: Pos, q: Pos): (t: seq<Cell>)
    requires |s| == Size && OnBoard(p) && OnBoard(q)
    ensures |t| == Size
  {
    s[Index(p) := At(s, q)][Index(q) := Empty]
  }

  /** Moving a tile into the blank keeps the cells of the board, the blank
      included. */
  lemma MoveIntoCells(s: seq<Cell>, p: Pos, q: Pos)
    requires |s| == Size && OnBoard(p) && OnBoard(q) && p != q && At(s, p) == Empty
    ensures multiset(MoveInto(s, p, q)) == multiset(s) && Empty in MoveInto(s, p, q)
  {
    IndexInjective(p, q);
    var u := s[Index(p) := At(s, q)];
    assert multiset(u) == multiset(s) - multiset{Empty} + multiset{At(s, q)};
    assert u[Index(q)] == At(s, q);
    assert MoveInto(s, p, q)[Index(q)] == Empty;
  }

  /** Moving a tile into the blank keeps a valid board valid. */
  lemma MoveIntoKeepsBoard(s: seq<Cell>, tiles: seq<int>, p: Pos, q: Pos)
    requires ValidBoard(s, tiles) && OnBoard(p) && OnBoard(q) && p != q && At(s, p) == Empty
    ensures ValidBoard(MoveInto(s, p, q), tiles) && Empty in MoveInto(s, p, q)
  {
    MoveIntoCells(s, p, q);
  }

  /** The cells after `move_tile(direction)`: the neighbour's tile goes into
      the blank's cell and the neighbour becomes blank; None when the move is
      refused. */
  function Slide(s: seq<Cell>, direction: string): (t: Option<seq<Cell>>)
    requires |s| == Size && Empty in s
  {
    var p := Blank(s);
    match Neighbour(p, direction)
    case None => None
    case Some(q) => Some(MoveInto(s, p, q))
  }

  /** A slide is refused exactly when the blank has no neighbour in that
      direction. */
  lemma SlideLegal(s: seq<Cell>, direction: string)
    requires |s| == Size && Empty in s
    ensures Slide(s, direction).Some? <==> Neighbour(Blank(s), direction).Some?
  {
  }

  /** A slide exchanges the blank with one neighbour and touches no other
      cell, so the board keeps its cells. */
  lemma SlideEffect(s: seq<Cell>, direction: string)
    requires |s| == Size && Empty in s && Slide(s, direction).Some?
    ensures var p, q, t := Blank(s), Neighbour(Blank(s), direction).value, Slide(s, direction).value;
      |t| == Size && Adjacent(p, q) && At(t, p) == At(s, q) && At(t, q) == Empty &&
      (forall r {:trigger At(t, r)} :: OnBoard(r) && r != p && r != q ==> At(t, r) == At(s, r)) &&
      multiset(t) == multiset(s)
  {
    var p := Blank(s);
    var q := Neighbour(p, direction).value;
    var t := Slide(s, direction).value;
    forall r {:trigger At(t, r)} | OnBoard(r) && r != p && r != q ensures At(t, r) == At(s, r) {
      MoveIntoAt(s, p, q, r);
    }
    MoveIntoAt(s, p, q, p);
    MoveIntoAt(s, p, q, q);
    MoveIntoCells(s, p, q);
  }

  /** After a slide on a board with one blank, the blank is where the
      neighbour was: "up" and "down" move it one row down and up, "left"
      and "right" one column right and left. */
  lemma SlideMovesBlank(s: seq<Cell>, direction: string)
    requires |s| == Size && SingleBlank(s) && Slide(s, direction).Some?
    ensures SingleBlank(Slide(s, direction).value)
    ensures Blank(Slide(s, direction).value) == Neighbour(Blank(s), direction).value
  {
    var q := Neighbour(Blank(s), direction).value;
    SlideEffect(s, direction);
    SingleBlankAt(Slide(s, direction).value, q);
  }

  /** A slide keeps a valid board valid. */
  lemma SlideKeepsBoard(s: seq<Cell>, tiles: seq<int>, direction: string)
    requires ValidBoard(s, tiles) && Empty in s && Slide(s, direction).Some?
    ensures ValidBoard(Slide(s, direction).value, tiles) && Empty in Slide(s, direction).value
  {
    var p := Blank(s);
    MoveIntoKeepsBoard(s, tiles, p, Neighbour(p, direction).value);
  }

  /** A refused direction: one of the four names, facing the edge of the board. */
  lemma SlideAtEdge(s: seq<Cell>)
    requires |s| == Size && Empty in s
    ensures Blank(s).row == 2 <==> Slide(s, "up").None?
    ensures Blank(s).row == 0 <==> Slide(s, "down").None?
    ensures Blank(s).col == 2 <==> Slide(s, "left").None?
    ensures Blank(s).col == 0 <==> Slide(s, "right").None?
  {
    NeighbourAtEdge(Blank(s));
    SlideLegal(s, "up");
    SlideLegal(s, "down");
    SlideLegal(s, "left");
    SlideLegal(s, "right");
  }

  /** Each of the four directions has a neighbour except towards its edge. */
  lemma NeighbourAtEdge(p: Pos)
    requires OnBoard(p)
    ensures p.row == 2 <==> Neighbour(p, "up").None?
    ensures p.row == 0 <==> Neighbour(p, "down").None?
    ensures p.col == 2 <==> Neighbour(p, "left").None?
    ensures p.col == 0 <==> Neighbour(p, "right").None?
  {
    assert "down" != "up" && "left" != "up" && "right" != "up";
    assert "left" != "down" && "right" != "down" && "right" != "left";
  }

  /** The direction that undoes a slide. */
  function Opposite(direction: string): string
  {
    if direction == "up" then "down"
    else if direction == "down" then "up"
    else if direction == "left" then "right"
    else if direction == "right" then "left"
    else direction
  }

  /** The neighbour in the opposite direction leads back. */
  lemma NeighbourOpposite(p: Pos, direction: string)
    requires OnBoard(p) && Neighbour(p, direction).Some?
    ensures Neighbour(Neighbour(p, direction).value, Opposite(direction)) == Some(p)
  {
    if direction == "up" {
      assert Opposite(direction) == "down";
    } else if direction == "down" {
      assert Opposite(direction) == "up";
    } else if direction == "left" {
      assert Opposite(direction) == "right";
    } else {
      assert direction == "right" && Opposite(direction) == "left";
    }
  }

  /** Sliding a tile back the way it came restores the board ("up" then
      "down", "left" then "right", and the other way round). */
  lemma SlideInverse(s: seq<Cell>, direction: string)
    requires |s| == Size && SingleBlank(s) && Slide(s, direction).Some?
    ensures SingleBlank(Slide(s, direction).value)
    ensures Slide(Slide(s, direction).value, Opposite(direction)) == Some(s)
  {
    var p := Blank(s);
    var q := Neighbour(p, direction).value;
    var t := Slide(s, direction).value;
    SlideEffect(s, direction);
    IndexInjective(p, q);
    SlideMovesBlank(s, direction);
    NeighbourOpposite(p, direction);
    assert t[Index(q) := At(t, p)][Index(p) := Empty] == s;
  }

  /** Distinct elements occur at most once. */
  lemma {:induction false} NoDupCount<T>(t: seq<T>, x: T)
    requires NoDup(t)
    ensures multiset(t)[x] <= 1
  {
    if t != [] {
      assert t == [t[0]] + t[1..];
      assert NoDup(t[1..]) by {
        forall i, j | 0 <= i < j < |t[1..]| ensures t[1..][i] != t[1..][j] {
          assert t[1..][i] == t[i + 1] && t[1..][j] == t[j + 1];
        }
      }
      NoDupCount(t[1..], x);
      if x == t[0] {
        assert t[0] !in t[1..];
      }
    }
  }

  /** An element found at two indices occurs at least twice. */
  lemma RepeatCount<T>(s: seq<T>, i: nat, j: nat)
    requires i < j < |s| && s[i] == s[j]
    ensures multiset(s)[s[i]] >= 2
  {
    assert s == s[..j] + s[j..];
    assert s[..j][i] == s[i];
    assert s[j..][0] == s[i];
  }

  /** A permutation of a sequence without repetitions has none either. */
  lemma NoDupPermutation<T>(s: seq<T>, t: seq<T>)
    requires NoDup(t) && multiset(s) == multiset(t)
    ensures NoDup(s)
  {
    forall i, j | 0 <= i < j < |s| ensures s[i] != s[j] {
      if s[i] == s[j] {
        RepeatCount(s, i, j);
        NoDupCount(t, s[i]);
      }
    }
  }

  /** What a valid board looks like: every cell distinct, exactly one blank,
      and never the last tile image of the set. */
  lemma ValidBoardShape(s: seq<Cell>, tiles: seq<int>)
    requires ValidBoard(s, tiles)
    ensures NoDup(s) && SingleBlank(s)
    ensures Tile(tiles[Size - 1]) !in s
  {
    var sol := Solution(tiles);
    assert NoDup(sol) by {
      forall i, j | 0 <= i < j < |sol| ensures sol[i] != sol[j] {
        if j < Size - 1 {
          assert tiles[i] != tiles[j];
        }
      }
    }
    NoDupPermutation(s, sol);
    assert Empty in multiset(sol);
    forall k | 0 <= k < Size ensures sol[k] != Tile(tiles[Size - 1]) {
      if k < Size - 1 {
        assert tiles[k] != tiles[Size - 1];
      }
    }
    assert Tile(tiles[Size - 1]) !in multiset(sol);
  }
}
