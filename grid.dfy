/**
 * The board of the snake game: its dimensions, its cells, and the set of
 * cells a snake leaves free. Cells and direction vectors are both integer
 * pairs, as in the game itself.
 */
module Grid {
  import opened Wrappers

  const GRID_WIDTH: int := 30
  const GRID_HEIGHT: int := 20

  /** An integer pair: a board cell, or a unit step between cells. */
  datatype Point = Point(x: int, y: int)

  predicate InBounds(p: Point) {
    0 <= p.x < GRID_WIDTH && 0 <= p.y < GRID_HEIGHT
  }

  /** Every cell of `s` lies on the board. */
  predicate InGrid(s: seq<Point>) {
    forall i :: 0 <= i < |s| ==> InBounds(s[i])
  }

  /** No cell occurs twice in `s`. */
  predicate Distinct(s: seq<Point>) {
    forall i, j :: 0 <= i < j < |s| ==> s[i] != s[j]
  }

  /** The cells a snake occupies, as a set. */
  function Cells(s: seq<Point>): (r: set<Point>)
    ensures forall p :: p in r <==> p in s
  {
    set p | p in s
  }

  /** Every cell of the board. */
  function AllCells(): (r: set<Point>)
    ensures forall p :: p in r <==> InBounds(p)
  {
    set x, y | 0 <= x < GRID_WIDTH && 0 <= y < GRID_HEIGHT :: Point(x, y)
  }

  /** The cells of the board that the snake does not occupy. */
  function FreeCells(snake: seq<Point>): (r: set<Point>)
    ensures forall p :: p in r <==> InBounds(p) && p !in snake
  {
    AllCells() - Cells(snake)
  }

  /** The first `w` cells of row `y`. */
  function Row(y: int, w: nat): set<Point> {
    set x | 0 <= x < w :: Point(x, y)
  }

  /** The full rows 0 .. h-1 of the board. */
  function Rows(h: nat): set<Point> {
    set x, y | 0 <= x < GRID_WIDTH && 0 <= y < h :: Point(x, y)
  }

  lemma {:induction false} RowCount(y: int, w: nat)
    ensures |Row(y, w)| == w
  {
    if w > 0 {
      RowCount(y, w - 1);
      assert Row(y, w) == Row(y, w - 1) + {Point(w - 1, y)};
      assert Point(w - 1, y) !in Row(y, w - 1);
    } else {
      assert Row(y, w) == {};
    }
  }

  lemma {:induction false} RowsCount(h: nat)
    ensures |Rows(h)| == GRID_WIDTH * h
  {
    if h > 0 {
      RowsCount(h - 1);
      RowCount(h - 1, GRID_WIDTH);
      assert Rows(h) == Rows(h - 1) + Row(h - 1, GRID_WIDTH);
      assert Rows(h - 1) !! Row(h - 1, GRID_WIDTH);
    } else {
      assert Rows(h) == {};
    }
  }

  /** The board has exactly GRID_WIDTH * GRID_HEIGHT cells. */
  lemma AllCellsCount()
    ensures |AllCells()| == GRID_WIDTH * GRID_HEIGHT
  {
    RowsCount(GRID_HEIGHT);
    assert AllCells() == Rows(GRID_HEIGHT);
  }

  /** A snake without repeated cells occupies as many cells as it has segments. */
  lemma {:induction false} DistinctCellsCount(s: seq<Point>)
    requires Distinct(s)
    ensures |Cells(s)| == |s|
  {
    if |s| > 0 {
      assert Distinct(s[1..]) by {
        forall i, j | 0 <= i < j < |s[1..]|
          ensures s[1..][i] != s[1..][j]
        {
          assert s[1..][i] == s[i + 1] && s[1..][j] == s[j + 1];
        }
      }
      DistinctCellsCount(s[1..]);
      assert Cells(s) == {s[0]} + Cells(s[1..]);
      assert s[0] !in Cells(s[1..]) by {
        forall k | 0 <= k < |s[1..]|
          ensures s[1..][k] != s[0]
        {
          assert s[1..][k] == s[k + 1];
        }
      }
    } else {
      assert Cells(s) == {};
    }
  }

  /**
   * For a snake that lies on the board without overlapping itself, no cell
   * is free exactly when the snake has one segment per board cell.
   */
  lemma NoFreeCellIffFull(snake: seq<Point>)
    requires InGrid(snake) && Distinct(snake)
    ensures FreeCells(snake) == {} <==> |snake| == GRID_WIDTH * GRID_HEIGHT
  {
    var all, used := AllCells(), Cells(snake);
    AllCellsCount();
    DistinctCellsCount(snake);
    assert used <= all;
    assert all == (all - used) + used;
    assert (all - used) !! used;
    assert |all| == |all - used| + |used|;
    assert FreeCells(snake) == all - used;
  }
}
