/**
 * The QR symbol matrix. The source keeps it in a flat array indexed
 * `x + y * size` whose entries are `undefined` (not yet written), `false`
 * (light) or `true` (dark); here it is a two-dimensional array indexed
 * `[x, y]` of three-valued cells.
 */
module Matrix {
  /** A module of the symbol: not yet written, or written light or dark. */
  datatype Cell = Unset | Module(dark: bool)

  /** How the penalty score and the drawing read a cell: an unwritten cell is light. */
  predicate IsDark(c: Cell) {
    c.Module? && c.dark
  }

  /** A position (x, y): x is the column, y the row. */
  type Pos = (int, int)

  predicate InGrid(size: int, p: Pos) {
    0 <= p.0 < size && 0 <= p.1 < size
  }

  /** The cell at p of a matrix held as columns; outside the matrix, an unwritten cell. */
  function CellAt(g: seq<seq<Cell>>, p: Pos): Cell {
    if 0 <= p.0 < |g| && 0 <= p.1 < |g[p.0]| then g[p.0][p.1] else Unset
  }

  /** The contents of a symbol array, column by column. */
  ghost function Snapshot(sym: array2<Cell>): (g: seq<seq<Cell>>)
    reads sym
    ensures |g| == sym.Length0
    ensures forall a :: 0 <= a < sym.Length0 ==> |g[a]| == sym.Length1
    ensures forall a, b :: 0 <= a < sym.Length0 && 0 <= b < sym.Length1 ==> CellAt(g, (a, b)) == sym[a, b]
  {
    Columns(sym, sym.Length0)
  }

  /** Columns 0 to n - 1 of a symbol array. */
  ghost function Columns(sym: array2<Cell>, n: nat): (g: seq<seq<Cell>>)
    requires n <= sym.Length0
    reads sym
    ensures |g| == n
    ensures forall a :: 0 <= a < n ==> |g[a]| == sym.Length1
    ensures forall a, b :: 0 <= a < n && 0 <= b < sym.Length1 ==> g[a][b] == sym[a, b]
  {
    if n == 0 then [] else Columns(sym, n - 1) + [ColumnPrefix(sym, n - 1, sym.Length1)]
  }

  /** Rows 0 to n - 1 of column a of a symbol array. */
  ghost function ColumnPrefix(sym: array2<Cell>, a: nat, n: nat): (c: seq<Cell>)
    requires a < sym.Length0 && n <= sym.Length1
    reads sym
    ensures |c| == n
    ensures forall b :: 0 <= b < n ==> c[b] == sym[a, b]
  {
    if n == 0 then [] else ColumnPrefix(sym, a, n - 1) + [sym[a, n - 1]]
  }
}
