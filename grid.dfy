/** Cells of the board and the neighbourhood relation shared by the board and the solver. */
module Grid {

  /** A (row, column) coordinate; the solver may be handed any pair of integers. */
  datatype Cell = Cell(row: int, col: int)

  /** The conventional optional value; `None` is what Python's `None` return becomes. */
  datatype Option<T> = None | Some(value: T)

  predicate InGrid(height: nat, width: nat, c: Cell)
  {
    0 <= c.row < height && 0 <= c.col < width
  }

  /** Chebyshev distance exactly one: a different cell within one row and one column. */
  predicate Adjacent(a: Cell, b: Cell)
  {
    a != b && -1 <= a.row - b.row <= 1 && -1 <= a.col - b.col <= 1
  }

  /** The in-grid cells adjacent to `c` (`c` itself need not be in the grid). */
  ghost function Neighbours(height: nat, width: nat, c: Cell): set<Cell>
  {
    set r, k | 0 <= r < height && 0 <= k < width && Adjacent(Cell(r, k), c) :: Cell(r, k)
  }

  /** The eight cells around `c`, whether in the grid or not. */
  function Ring(c: Cell): (r: set<Cell>)
    ensures |r| == 8
    ensures forall d :: d in r <==> Adjacent(d, c)
  {
    var (i, j) := (c.row, c.col);
    var top := {Cell(i - 1, j - 1), Cell(i - 1, j), Cell(i - 1, j + 1)};
    var middle := {Cell(i, j - 1), Cell(i, j + 1)};
    var bottom := {Cell(i + 1, j - 1), Cell(i + 1, j), Cell(i + 1, j + 1)};
    assert |top| == 3 && |middle| == 2 && |bottom| == 3;
    assert top !! middle && (top + middle) !! bottom;
    forall d | Adjacent(d, c) ensures d in top + middle + bottom {
      if d.row == i - 1 { assert d in top; }
      else if d.row == i { assert d in middle; }
      else { assert d in bottom; }
    }
    top + middle + bottom
  }

  lemma SubsetCardinality<T>(a: set<T>, b: set<T>)
    requires a <= b
    ensures |a| <= |b|
    ensures |a| == |b| ==> a == b
  {
    assert b == a + (b - a);
    assert |b| == |a| + |b - a|;
  }

  /** A cell is never its own neighbour, and it has at most eight neighbours. */
  lemma NeighboursBound(height: nat, width: nat, c: Cell)
    ensures c !in Neighbours(height, width, c)
    ensures Neighbours(height, width, c) <= Ring(c)
    ensures |Neighbours(height, width, c)| <= 8
  {
    SubsetCardinality(Neighbours(height, width, c), Ring(c));
  }
}
