/** The grid state of the visualiser: cell states, coordinates, the
    passability test and the four neighbour offsets (main.cpp:9-23, 59-61, 71-72). */
module Grid {

  /** The five mutually exclusive states of one cell. */
  datatype CellState = Empty | Wall | Start | Target | Path

  /** A grid coordinate (x, y): x selects the column, y the row, as in `grid[x][y]`. */
  type Cell = (int, int)

  /** The grid is 800 / 20 cells wide and 600 / 20 cells high. */
  const GridWidth: nat := 40
  const GridHeight: nat := 30

  /** The neighbour offsets, tried in this order by the search. */
  const Dx: seq<int> := [-1, 1, 0, 0]
  const Dy: seq<int> := [0, 0, -1, 1]

  predicate InBounds(c: Cell, width: int, height: int)
  {
    0 <= c.0 < width && 0 <= c.1 < height
  }

  /** Two cells are 4-neighbours: they differ by one step along exactly one axis. */
  predicate Adjacent(a: Cell, b: Cell)
  {
    (a.0 == b.0 && (a.1 - b.1 == 1 || b.1 - a.1 == 1)) ||
    (a.1 == b.1 && (a.0 - b.0 == 1 || b.0 - a.0 == 1))
  }

  /** The i-th neighbour of c in the search's fixed order. */
  function Neighbour(c: Cell, i: nat): (n: Cell)
    requires i < 4
    ensures Adjacent(c, n) && Adjacent(n, c)
    ensures n != c
  {
    (c.0 + Dx[i], c.1 + Dy[i])
  }

  /** The four offsets reach every 4-neighbour: none is skipped. */
  lemma AdjacentIsNeighbour(c: Cell, n: Cell)
    requires Adjacent(c, n)
    ensures exists i :: 0 <= i < 4 && Neighbour(c, i) == n
  {
    if n.0 == c.0 - 1 {
      assert Neighbour(c, 0) == n;
    } else if n.0 == c.0 + 1 {
      assert Neighbour(c, 1) == n;
    } else if n.1 == c.1 - 1 {
      assert Neighbour(c, 2) == n;
    } else {
      assert Neighbour(c, 3) == n;
    }
  }

  /** A cell may be entered by the search: it is inside the grid and not a
      wall. The conjunction short-circuits, so the grid is only read in bounds. */
  function IsValid(grid: array2<CellState>, x: int, y: int): (valid: bool)
    reads grid
    ensures valid <==>
      0 <= x < grid.Length0 && 0 <= y < grid.Length1 &&
      grid[x, y] in {Empty, Start, Target, Path}
  {
    x >= 0 && x < grid.Length0 && y >= 0 && y < grid.Length1 && grid[x, y] != Wall
  }

  /** The set of cells the search may enter, as a value. */
  ghost function Passable(grid: array2<CellState>): (open: set<Cell>)
    reads grid
    ensures forall c: Cell :: c in open <==> IsValid(grid, c.0, c.1)
  {
    set x, y | 0 <= x < grid.Length0 && 0 <= y < grid.Length1 && grid[x, y] != Wall :: (x, y)
  }

  /** At most h cells of one column lie inside the grid. */
  lemma {:induction false} ColumnBound(cells: set<Cell>, x: int, h: nat)
    requires forall c :: c in cells ==> c.0 == x && 0 <= c.1 < h
    ensures |cells| <= h
  {
    if h == 0 {
      assert cells == {} by {
        forall c | c in cells ensures false { }
      }
    } else {
      var upper := cells - {(x, h - 1)};
      forall c | c in upper ensures c.0 == x && 0 <= c.1 < h - 1 {
        assert c != (x, h - 1);
      }
      ColumnBound(upper, x, h - 1);
    }
  }

  /** A set of in-bounds cells has at most width * height members: the search
      can visit each cell once, so it visits at most that many. */
  lemma {:induction false} InBoundsBound(cells: set<Cell>, width: nat, height: nat)
    requires forall c :: c in cells ==> InBounds(c, width, height)
    ensures |cells| <= width * height
  {
    if width == 0 {
      assert cells == {} by {
        forall c | c in cells ensures false { }
      }
    } else {
      var column := set c | c in cells && c.0 == width - 1;
      var rest := cells - column;
      ColumnBound(column, width - 1, height);
      InBoundsBound(rest, width - 1, height);
      assert cells == rest + column;
      assert (width - 1) * height + height == width * height;
    }
  }
}
