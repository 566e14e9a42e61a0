/** The 9x9 puzzle grid: cells hold integers, 0 marks an empty cell. */
module Grid {

  /** A grid value: nine rows of nine cells, read as `b[row][col]`. */
  type Board = b: seq<seq<int>> | |b| == 9 && forall i | 0 <= i < |b| :: |b[i]| == 9
    witness EmptyBoard()

  /** The all-empty grid a generation run starts from. */
  function EmptyBoard(): seq<seq<int>> {
    seq(9, _ => seq(9, _ => 0))
  }

  /** `is_valid_cell`: the coordinate lies on the 9x9 grid. */
  predicate IsValidCell(row: int, col: int) {
    0 <= row < 9 && 0 <= col < 9
  }

  function Abs(x: int): int {
    if x < 0 then -x else x
  }

  /** The grid with `d` written at (row, col). */
  function Place(b: Board, row: int, col: int, d: int): (r: Board)
    requires IsValidCell(row, col)
    ensures r[row][col] == d
    ensures forall i, j :: IsValidCell(i, j) && (i, j) != (row, col) ==> r[i][j] == b[i][j]
  {
    b[row := b[row][col := d]]
  }

  /** The set of empty cells; the search shrinks it by one at every recursive step. */
  ghost function Blanks(b: Board): set<(int, int)> {
    set i, j | 0 <= i < 9 && 0 <= j < 9 && b[i][j] == 0 :: (i, j)
  }

  /** No empty cell is left. */
  ghost predicate Full(b: Board) {
    forall i, j :: IsValidCell(i, j) ==> b[i][j] != 0
  }

  /** `s` keeps every non-zero cell of `b`. */
  ghost predicate Extends(b: Board, s: Board) {
    forall i, j :: IsValidCell(i, j) && b[i][j] != 0 ==> s[i][j] == b[i][j]
  }

  /** The current contents of a 9x9 array as a grid value. */
  function Cells(g: array2<int>): (b: Board)
    requires g.Length0 == 9 && g.Length1 == 9
    reads g
    ensures forall i, j :: IsValidCell(i, j) ==> b[i][j] == g[i, j]
  {
    seq(9, i requires 0 <= i < 9 reads g => seq(9, j requires 0 <= j < 9 reads g => g[i, j]))
  }

  /** Two grid values that agree on every cell are equal. */
  lemma BoardExt(a: Board, b: Board)
    requires forall i, j :: IsValidCell(i, j) ==> a[i][j] == b[i][j]
    ensures a == b
  {
    forall i | 0 <= i < 9 ensures a[i] == b[i] {
      assert forall j :: 0 <= j < 9 ==> a[i][j] == b[i][j];
    }
  }

  /** Writing a non-zero digit into an empty cell removes exactly that cell from the blanks. */
  lemma PlaceShrinksBlanks(b: Board, row: int, col: int, d: int)
    requires IsValidCell(row, col) && b[row][col] == 0 && d != 0
    ensures Blanks(Place(b, row, col, d)) == Blanks(b) - {(row, col)}
    ensures (row, col) in Blanks(b)
    ensures |Blanks(Place(b, row, col, d))| < |Blanks(b)|
  {
    var b' := Place(b, row, col, d);
    forall x | x in Blanks(b') ensures x in Blanks(b) - {(row, col)} {
      var (i, j) := x;
    }
    forall x | x in Blanks(b) - {(row, col)} ensures x in Blanks(b') {
      var (i, j) := x;
    }
  }

  /** Undoing a placement in a cell that was empty gives the grid back. */
  lemma PlaceUndo(b: Board, row: int, col: int, d: int)
    requires IsValidCell(row, col) && b[row][col] == 0
    ensures Place(Place(b, row, col, d), row, col, 0) == b
  {
    BoardExt(Place(Place(b, row, col, d), row, col, 0), b);
  }
}
