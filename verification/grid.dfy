/**
  The cell and grid records of src/grid.rs and the grid constructor.

  Field names follow the source: `largeur` is the number of columns (cells per
  row) and `hauteur` the number of rows. Cells are stored row-major, so the
  cell in column `x` of row `y` is `cells[y][x]`.
 */
module GridModel {
  import opened Decimal

  /** Whether a cell holds a mine. */
  datatype CellType = Empty | Mine

  /** One square of the board. */
  datatype Cell = Cell(kind: CellType, isRevealed: bool, adjacentMines: U8)

  /** The board: its rows of cells, its dimensions and whether mines were placed. */
  datatype Grid = Grid(cells: seq<seq<Cell>>, largeur: nat, hauteur: nat, initialized: bool)

  /** The cell `Cell::new` builds: empty, already revealed, no adjacent mine. */
  function NewCell(): (c: Cell)
    ensures c.kind == Empty
    ensures c.isRevealed
    ensures c.adjacentMines == 0
  {
    Cell(Empty, true, 0)
  }

  /** A cell exactly as `Cell::new` leaves it. */
  predicate IsNewCell(c: Cell) {
    c.kind == Empty && c.isRevealed && c.adjacentMines == 0
  }

  /** `cells` has `hauteur` rows of `largeur` cells each. */
  predicate WellFormed(g: Grid) {
    && |g.cells| == g.hauteur
    && forall y :: 0 <= y < |g.cells| ==> |g.cells[y]| == g.largeur
  }

  /** Every cell of the grid is as `Cell::new` leaves it. */
  predicate AllNew(g: Grid) {
    forall y, x :: 0 <= y < |g.cells| && 0 <= x < |g.cells[y]| ==> IsNewCell(g.cells[y][x])
  }

  /** One row as the inner loop of `Grid::new` pushes it: `largeur` new cells. */
  function NewRow(largeur: nat): (row: seq<Cell>)
    ensures |row| == largeur
    ensures forall x :: 0 <= x < |row| ==> IsNewCell(row[x])
  {
    if largeur == 0 then [] else NewRow(largeur - 1) + [NewCell()]
  }

  /** The rows as the outer loop of `Grid::new` pushes them. */
  function NewRows(largeur: nat, hauteur: nat): (rows: seq<seq<Cell>>)
    ensures |rows| == hauteur
    ensures forall y :: 0 <= y < |rows| ==> |rows[y]| == largeur
    ensures forall y, x :: 0 <= y < |rows| && 0 <= x < |rows[y]| ==> IsNewCell(rows[y][x])
  {
    if hauteur == 0 then [] else NewRows(largeur, hauteur - 1) + [NewRow(largeur)]
  }

  /** `Grid::new(largeur, hauteur)`: the first argument is the number of columns. */
  function New(largeur: nat, hauteur: nat): (g: Grid)
    ensures WellFormed(g)
    ensures AllNew(g)
    ensures g.largeur == largeur && g.hauteur == hauteur
    ensures !g.initialized
  {
    Grid(NewRows(largeur, hauteur), largeur, hauteur, false)
  }
}
