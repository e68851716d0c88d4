/** The solvability test of the shuffle, exactly as the game computes it.

    The counter adds one for every pair of cells i < j that both hold a tile
    and hold DIFFERENT tiles; it never compares the tiles' order. On a board
    without repeated tiles every pair counts, so k tiles give k * (k - 1) / 2,
    a number fixed by the board size alone. For an odd board size the test
    therefore accepts every board; for an even size it depends only on the
    row of the blank. */
module Solvability {
  import opened Board

  /** Number of cells holding a tile. */
  function TileCount(s: seq<Cell>): (k: nat)
    ensures k <= |s|
  {
    if s == [] then 0 else (if s[0] == Empty then 0 else 1) + TileCount(s[1..])
  }

  /** The inner loop of the count after it has visited cells i + 1 .. j - 1:
      how many of them hold a tile different from the one in cell i. */
  function PairsWith(s: seq<Cell>, i: nat, j: nat): (c: nat)
    requires i < |s| && j <= |s|
    ensures c <= if j > i then j - i - 1 else 0
    decreases j
  {
    if j <= i + 1 then 0
    else PairsWith(s, i, j - 1) + (if s[j - 1] != Empty && s[i] != s[j - 1] then 1 else 0)
  }

  /** What the outer loop adds for cell i: nothing when that cell is blank. */
  function RowInversions(s: seq<Cell>, i: nat): nat
    requires i < |s|
  {
    if s[i] == Empty then 0 else PairsWith(s, i, |s|)
  }

  /** The counter after the outer loop has handled cells 0 .. i - 1. */
  function InversionsBefore(s: seq<Cell>, i: nat): nat
    requires i <= |s|
  {
    if i == 0 then 0 else InversionsBefore(s, i - 1) + RowInversions(s, i - 1)
  }

  /** The `inversions` counter of `is_solvable`. */
  function Inversions(s: seq<Cell>): nat
  {
    InversionsBefore(s, |s|)
  }

  /** The reverse row scan from row i upwards: n - i for the first row that
      holds a blank, 0 when no row does. */
  function EmptyRowScan(rows: seq<seq<Cell>>, n: int, i: int): int
    requires -1 <= i < |rows|
    decreases i + 1
  {
    if i < 0 then 0
    else if Empty in rows[i] then n - i
    else EmptyRowScan(rows, n, i - 1)
  }

  /** `empty_row`: the scan starts at the last row. */
  function EmptyRowDistance(rows: seq<seq<Cell>>, n: nat): int
    requires |rows| == n
  {
    EmptyRowScan(rows, n, n - 1)
  }

  /** `is_solvable` for an n x n board given by its rows. */
  predicate Solvable(n: nat, rows: seq<seq<Cell>>)
    requires |rows| == n
  {
    var inversions := Inversions(Flatten(rows));
    if n % 2 == 1 then inversions % 2 == 0
    else (inversions + EmptyRowDistance(rows, n)) % 2 == 0
  }

  /** No tile occurs in two cells (blanks may repeat). */
  ghost predicate DistinctTiles(s: seq<Cell>)
  {
    forall i, j :: 0 <= i < j < |s| && s[i] != Empty ==> s[i] != s[j]
  }

  /** A board without repeated cells has no repeated tile. */
  lemma NoDupDistinct(s: seq<Cell>)
    requires NoDup(s)
    ensures DistinctTiles(s)
  {
  }

  /** 0 + 1 + ... + (k - 1): the number of pairs among k items. */
  function Triangle(k: nat): nat
  {
    if k == 0 then 0 else Triangle(k - 1) + (k - 1)
  }

  lemma {:induction false} TriangleClosedForm(k: nat)
    ensures 2 * Triangle(k) == k * (k - 1)
  {
    if k > 0 {
      TriangleClosedForm(k - 1);
      assert (k - 1) * (k - 2) + 2 * (k - 1) == k * (k - 1);
    }
  }

  lemma {:induction false} TileCountAppend(a: seq<Cell>, b: seq<Cell>)
    ensures TileCount(a + b) == TileCount(a) + TileCount(b)
  {
    if a == [] {
      assert a + b == b;
    } else {
      assert (a + b)[0] == a[0];
      assert (a + b)[1..] == a[1..] + b;
      TileCountAppend(a[1..], b);
    }
  }

  /** Tiles and blanks together fill the board. */
  lemma {:induction false} TileCountBlanks(s: seq<Cell>)
    ensures TileCount(s) + multiset(s)[Empty] == |s|
  {
    if s != [] {
      assert s == [s[0]] + s[1..];
      TileCountBlanks(s[1..]);
    }
  }

  /** Without repeated tiles the inner loop counts every later tile. */
  lemma {:induction false} PairsWithDistinct(s: seq<Cell>, i: nat, j: nat)
    requires DistinctTiles(s) && i < |s| && s[i] != Empty && i < j <= |s|
    ensures PairsWith(s, i, j) == TileCount(s[i + 1..j])
  {
    if j > i + 1 {
      PairsWithDistinct(s, i, j - 1);
      assert s[i + 1..j] == s[i + 1..j - 1] + [s[j - 1]];
      TileCountAppend(s[i + 1..j - 1], [s[j - 1]]);
      assert s[j - 1] != Empty ==> s[i] != s[j - 1];
    }
  }

  lemma {:induction false} InversionsBeforeDistinct(s: seq<Cell>, m: nat)
    requires DistinctTiles(s) && m <= |s|
    ensures InversionsBefore(s, m) + Triangle(TileCount(s[m..])) == Triangle(TileCount(s))
  {
    if m > 0 {
      InversionsBeforeDistinct(s, m - 1);
      assert s[m - 1..][1..] == s[m..];
      if s[m - 1] != Empty {
        PairsWithDistinct(s, m - 1, |s|);
        assert s[m..|s|] == s[m..];
      }
    }
  }

  /** On a board without repeated tiles the counter is the number of pairs
      of tiles: k * (k - 1) / 2 for k tiles. */
  lemma InversionsOfDistinct(s: seq<Cell>)
    requires DistinctTiles(s)
    ensures Inversions(s) == Triangle(TileCount(s))
    ensures 2 * Inversions(s) == TileCount(s) * (TileCount(s) - 1)
  {
    InversionsBeforeDistinct(s, |s|);
    assert s[|s|..] == [];
    TriangleClosedForm(TileCount(s));
  }

  /** The number of pairs among 4 * q items is even. */
  lemma TriangleFourTimes(q: nat)
    ensures Triangle(4 * q) % 2 == 0
  {
    TriangleClosedForm(4 * q);
    var a := q * (4 * q - 1);
    assert (4 * q) * (4 * q - 1) == 4 * a;
  }

  /** For an odd board size the test accepts every board that has one blank
      and no repeated tile, whatever its arrangement. */
  lemma OddSizeAlwaysSolvable(n: nat, rows: seq<seq<Cell>>)
    requires n % 2 == 1 && |rows| == n
    requires forall r :: 0 <= r < n ==> |rows[r]| == n
    requires DistinctTiles(Flatten(rows)) && multiset(Flatten(rows))[Empty] == 1
    ensures Solvable(n, rows)
  {
    var s := Flatten(rows);
    FlattenLength(rows, n);
    TileCountBlanks(s);
    InversionsOfDistinct(s);
    var q := OddSquare(n);
    TriangleFourTimes(q);
  }

  /** The square of an odd number is one more than a multiple of four. */
  lemma OddSquare(n: nat) returns (q: nat)
    requires n % 2 == 1
    ensures n * n == 4 * q + 1
  {
    var m := n / 2;
    assert n == 2 * m + 1;
    q := m * (m + 1);
    calc {
      n * n;
      (2 * m + 1) * (2 * m + 1);
      4 * (m * m) + 4 * m + 1;
      4 * q + 1;
    }
  }

  /** The reverse scan stops at the lowest row holding a blank. */
  lemma {:induction false} EmptyRowScanFinds(rows: seq<seq<Cell>>, n: int, i: int, r: nat)
    requires r <= i < |rows| && Empty in rows[r]
    requires forall r' :: r < r' <= i ==> Empty !in rows[r']
    ensures EmptyRowScan(rows, n, i) == n - r
    decreases i
  {
    if i > r {
      EmptyRowScanFinds(rows, n, i - 1, r);
    }
  }

  /** For an even board size the test ignores the arrangement of the tiles:
      on a board with one blank and no repeated tile it depends only on the
      row r that holds the blank. */
  lemma EvenSizeDependsOnBlankRow(n: nat, rows: seq<seq<Cell>>, r: nat)
    requires n % 2 == 0 && |rows| == n
    requires forall i :: 0 <= i < n ==> |rows[i]| == n
    requires DistinctTiles(Flatten(rows)) && multiset(Flatten(rows))[Empty] == 1
    requires r < n && Empty in rows[r]
    requires forall r' :: r < r' < n ==> Empty !in rows[r']
    ensures Solvable(n, rows) <==> (Triangle(n * n - 1) + (n - r)) % 2 == 0
  {
    var s := Flatten(rows);
    FlattenLength(rows, n);
    TileCountBlanks(s);
    InversionsOfDistinct(s);
    EmptyRowScanFinds(rows, n, n - 1, r);
  }
}
