/** The game board: a fixed grid with a fixed set of mine cells. */
module Board {
  import opened Grid

  /** Python list indexing: `-n <= i < 0` counts from the end, anything else out of range fails. */
  function ListIndex(i: int, n: nat): (r: Option<nat>)
    ensures r.Some? <==> -(n as int) <= i < n
    ensures r.Some? ==> r.value < n && (r.value == i || r.value == i + n)
  {
    if 0 <= i < n then Some(i) else if -(n as int) <= i < 0 then Some(i + n) else None
  }

  class Minesweeper {
    const height: nat
    const width: nat
    const mines: set<Cell>
    /** The occupancy grid: `board[i][j]` is true exactly for the mine cells. */
    const board: seq<seq<bool>>
    /** The cells the player has flagged; the driver updates it. */
    var minesFound: set<Cell>

    ghost predicate Valid()
    {
      |board| == height &&
      (forall i :: 0 <= i < height ==> |board[i]| == width) &&
      (forall i, j :: 0 <= i < height && 0 <= j < width ==> (board[i][j] <==> Cell(i, j) in mines)) &&
      (forall m :: m in mines ==> InGrid(height, width, m))
    }

    /** The mine set is given instead of being drawn at random; every mine lies in the grid. */
    constructor (height: nat, width: nat, mines: set<Cell>)
      requires forall m :: m in mines ==> InGrid(height, width, m)
      ensures Valid()
      ensures this.height == height && this.width == width && this.mines == mines
      ensures minesFound == {}
    {
      this.height := height;
      this.width := width;
      this.mines := mines;
      this.board := seq(height, i => seq(width, j => Cell(i, j) in mines));
      this.minesFound := {};
    }

    /** `board[i][j]` with Python's indexing; `None` stands for the IndexError. */
    function IsMine(c: Cell): (r: Option<bool>)
      requires Valid()
      ensures InGrid(height, width, c) ==> r == Some(c in mines)
      ensures r.None? <==> !(-(height as int) <= c.row < height && -(width as int) <= c.col < width)
      ensures r.Some? ==> exists d :: InGrid(height, width, d) && r.value == (d in mines) &&
                                     (d.row == c.row || d.row == c.row + height) &&
                                     (d.col == c.col || d.col == c.col + width)
    {
      match (ListIndex(c.row, height), ListIndex(c.col, width))
      case (Some(i), Some(j)) =>
        assert InGrid(height, width, Cell(i, j)) && (Cell(i, j) in mines <==> board[i][j]);
        Some(board[i][j])
      case _ => None
    }

    /** The number of mines adjacent to `c`; cells outside the grid are ignored. */
    method NearbyMines(c: Cell) returns (count: nat)
      requires Valid()
      ensures count == |Neighbours(height, width, c) * mines|
      ensures count <= 8
    {
      ScanStart(mines, c);
      count := 0;
      for i := c.row - 1 to c.row + 2
        invariant count == |Scanned(mines, c, i, c.col - 1)|
      {
        for j := c.col - 1 to c.col + 2
          invariant count == |Scanned(mines, c, i, j)|
        {
          ScanStep(mines, c, i, j);
          // the cell itself is skipped; neighbours off the grid hold no mine
          if Cell(i, j) != c && 0 <= i < height && 0 <= j < width && board[i][j] {
            assert Cell(i, j) in mines && Adjacent(Cell(i, j), c);
            count := count + 1;
          } else {
            assert Cell(i, j) !in mines || !Adjacent(Cell(i, j), c) by {
              if Cell(i, j) in mines { assert InGrid(height, width, Cell(i, j)); }
            }
          }
        }
        ScanNextRow(mines, c, i);
      }
      ScanComplete(height, width, mines, c);
    }

    /** All mines have been flagged and nothing else has. */
    predicate Won()
      reads this
      ensures Won() <==> forall c :: c in minesFound <==> c in mines
    {
      minesFound == mines
    }

    /** Winning means the flags are exactly the cells `IsMine` reports. */
    lemma WonMeansFlagsAreMines()
      requires Valid()
      ensures Won() <==> forall c :: (c in minesFound <==> InGrid(height, width, c) && IsMine(c) == Some(true))
    {
    }
  }

  /** Mines adjacent to `c` met by a row-major scan before row `i`, column `j`. */
  ghost function Scanned(mines: set<Cell>, c: Cell, i: int, j: int): set<Cell>
  {
    set m | m in mines && Adjacent(m, c) && (m.row < i || (m.row == i && m.col < j))
  }

  /** Scanning one more cell counts it exactly when it is an adjacent mine. */
  lemma ScanStep(mines: set<Cell>, c: Cell, i: int, j: int)
    ensures |Scanned(mines, c, i, j + 1)| ==
      |Scanned(mines, c, i, j)| + (if Cell(i, j) in mines && Adjacent(Cell(i, j), c) then 1 else 0)
  {
    var hit := if Cell(i, j) in mines && Adjacent(Cell(i, j), c) then {Cell(i, j)} else {};
    assert Scanned(mines, c, i, j + 1) == Scanned(mines, c, i, j) + hit;
    assert Cell(i, j) !in Scanned(mines, c, i, j);
  }

  lemma ScanStart(mines: set<Cell>, c: Cell)
    ensures Scanned(mines, c, c.row - 1, c.col - 1) == {}
  {
  }

  lemma ScanNextRow(mines: set<Cell>, c: Cell, i: int)
    ensures Scanned(mines, c, i, c.col + 2) == Scanned(mines, c, i + 1, c.col - 1)
  {
  }

  lemma ScanComplete(height: nat, width: nat, mines: set<Cell>, c: Cell)
    requires forall m :: m in mines ==> InGrid(height, width, m)
    ensures Scanned(mines, c, c.row + 2, c.col - 1) == Neighbours(height, width, c) * mines
    ensures |Neighbours(height, width, c) * mines| <= 8
  {
    forall m ensures m in Scanned(mines, c, c.row + 2, c.col - 1) <==> m in Neighbours(height, width, c) * mines {
      if m in mines && Adjacent(m, c) {
        assert InGrid(height, width, m);
        assert m == Cell(m.row, m.col);
      }
    }
    NeighboursBound(height, width, c);
    SubsetCardinality(Neighbours(height, width, c) * mines, Neighbours(height, width, c));
  }
}
