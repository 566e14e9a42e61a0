/** The after-the-fact check that no row, column or box repeats a non-zero digit. */
module Validator {
  import opened Grid
  import opened Constraints

  /** The non-zero entries of `xs`, in order. */
  function NonZero(xs: seq<int>): seq<int> {
    if xs == [] then [] else (if xs[0] != 0 then [xs[0]] else []) + NonZero(xs[1..])
  }

  function Elements(xs: seq<int>): set<int> {
    set x | x in xs
  }

  /** `is_valid_row`: the non-zero entries, put in a set, lose nothing. */
  predicate IsValidRow(xs: seq<int>) {
    |Elements(NonZero(xs))| == |NonZero(xs)|
  }

  /** No non-zero entry of `xs` occurs twice. */
  ghost predicate DistinctNonZero(xs: seq<int>) {
    forall i, j :: 0 <= i < |xs| && 0 <= j < |xs| && i != j && xs[i] != 0 ==> xs[i] != xs[j]
  }

  ghost predicate Distinct(xs: seq<int>) {
    forall i, j :: 0 <= i < j < |xs| ==> xs[i] != xs[j]
  }

  /** A sequence has as many distinct elements as entries exactly when no entry repeats. */
  lemma {:induction false} ElementsCard(xs: seq<int>)
    ensures |Elements(xs)| <= |xs|
    ensures |Elements(xs)| == |xs| <==> Distinct(xs)
  {
    if xs != [] {
      var t := xs[1..];
      ElementsCard(t);
      assert Elements(xs) == {xs[0]} + Elements(t);
      if xs[0] !in t {
        assert Distinct(xs) <==> Distinct(t) by {
          if Distinct(t) {
            forall i, j | 0 <= i < j < |xs| ensures xs[i] != xs[j] {
              if i > 0 { assert xs[i] == t[i - 1] && xs[j] == t[j - 1]; } else { assert xs[j] in t; }
            }
          }
          if Distinct(xs) {
            forall i, j | 0 <= i < j < |t| ensures t[i] != t[j] {
              assert t[i] == xs[i + 1] && t[j] == xs[j + 1];
            }
          }
        }
      }
    }
  }

  /** The membership of the filtered sequence. */
  lemma {:induction false} NonZeroMembers(xs: seq<int>, x: int)
    ensures x in NonZero(xs) <==> x in xs && x != 0
  {
    if xs != [] {
      NonZeroMembers(xs[1..], x);
      assert xs == [xs[0]] + xs[1..];
    }
  }

  /** Filtering out the zeros keeps the non-zero entries distinct exactly when they were. */
  lemma {:induction false} NonZeroDistinct(xs: seq<int>)
    ensures Distinct(NonZero(xs)) <==> DistinctNonZero(xs)
  {
    if xs != [] {
      var t := xs[1..];
      NonZeroDistinct(t);
      NonZeroMembers(t, xs[0]);
      var nz := NonZero(xs);
      var head := if xs[0] != 0 then [xs[0]] else [];
      assert nz == head + NonZero(t);
      assert DistinctNonZero(xs) <==> (xs[0] != 0 ==> xs[0] !in t) && DistinctNonZero(t) by {
        if DistinctNonZero(xs) {
          forall i, j | 0 <= i < |t| && 0 <= j < |t| && i != j && t[i] != 0 ensures t[i] != t[j] {
            assert t[i] == xs[i + 1] && t[j] == xs[j + 1];
          }
          if xs[0] != 0 {
            forall k | 0 <= k < |t| ensures t[k] != xs[0] {
              assert xs[k + 1] == t[k];
            }
          }
        }
        if (xs[0] != 0 ==> xs[0] !in t) && DistinctNonZero(t) {
          forall i, j | 0 <= i < |xs| && 0 <= j < |xs| && i != j && xs[i] != 0 ensures xs[i] != xs[j] {
            if i == 0 { assert xs[j] == t[j - 1]; }
            else if j == 0 { assert xs[i] == t[i - 1]; }
            else { assert xs[i] == t[i - 1] && xs[j] == t[j - 1]; }
          }
        }
      }
      assert Distinct(nz) <==> (xs[0] != 0 ==> xs[0] !in NonZero(t)) && Distinct(NonZero(t)) by {
        if xs[0] != 0 {
          if Distinct(NonZero(t)) && xs[0] !in NonZero(t) {
            forall i, j | 0 <= i < j < |nz| ensures nz[i] != nz[j] {
              if i == 0 { assert nz[j] in NonZero(t); }
              else { assert nz[i] == NonZero(t)[i - 1] && nz[j] == NonZero(t)[j - 1]; }
            }
          }
          if Distinct(nz) {
            forall i, j | 0 <= i < j < |NonZero(t)| ensures NonZero(t)[i] != NonZero(t)[j] {
              assert nz[i + 1] == NonZero(t)[i] && nz[j + 1] == NonZero(t)[j];
            }
            forall k | 0 <= k < |NonZero(t)| ensures NonZero(t)[k] != xs[0] {
              assert nz[0] == xs[0] && nz[k + 1] == NonZero(t)[k];
              assert nz[0] != nz[k + 1];
            }
          }
        } else {
          assert nz == NonZero(t);
        }
      }
    }
  }

  /** `is_valid_row` holds exactly when the non-zero entries are pairwise distinct. */
  lemma IsValidRowIff(xs: seq<int>)
    ensures IsValidRow(xs) <==> DistinctNonZero(xs)
  {
    ElementsCard(NonZero(xs));
    NonZeroDistinct(xs);
  }

  /** Column `col` read top to bottom. */
  function Column(b: Board, col: int): (xs: seq<int>)
    requires 0 <= col < 9
    ensures |xs| == 9 && forall i :: 0 <= i < 9 ==> xs[i] == b[i][col]
  {
    seq(9, i requires 0 <= i < 9 => b[i][col])
  }

  /** The box with corner (row0, col0) read row by row. */
  function Square(b: Board, row0: int, col0: int): (xs: seq<int>)
    requires 0 <= row0 <= 6 && 0 <= col0 <= 6
    ensures |xs| == 9 && forall m :: 0 <= m < 9 ==> xs[m] == b[row0 + m / 3][col0 + m % 3]
  {
    seq(9, m requires 0 <= m < 9 => b[row0 + m / 3][col0 + m % 3])
  }

  /** What `is_valid_sudoku` accepts: all nine rows, columns and boxes pass `is_valid_row`. */
  ghost predicate ValidSudoku(b: Board) {
    (forall row :: 0 <= row < 9 ==> IsValidRow(b[row])) &&
    (forall col :: 0 <= col < 9 ==> IsValidRow(Column(b, col))) &&
    (forall br, bc :: 0 <= br < 3 && 0 <= bc < 3 ==> IsValidRow(Square(b, 3 * br, 3 * bc)))
  }

  /** No two different cells of one row, column or box hold the same non-zero digit. */
  ghost predicate NoRepeats(b: Board) {
    forall i, j, k, l ::
      (IsValidCell(i, j) && IsValidCell(k, l) && (i, j) != (k, l) &&
       SameUnit(i, j, k, l) && b[i][j] != 0) ==> b[i][j] != b[k][l]
  }

  lemma RowsIff(b: Board, row: int)
    requires 0 <= row < 9
    ensures IsValidRow(b[row]) <==>
            forall j, l :: 0 <= j < 9 && 0 <= l < 9 && j != l && b[row][j] != 0 ==> b[row][j] != b[row][l]
  {
    IsValidRowIff(b[row]);
  }

  lemma ColumnsIff(b: Board, col: int)
    requires 0 <= col < 9
    ensures IsValidRow(Column(b, col)) <==>
            forall i, k :: 0 <= i < 9 && 0 <= k < 9 && i != k && b[i][col] != 0 ==> b[i][col] != b[k][col]
  {
    IsValidRowIff(Column(b, col));
  }

  /** Position `m` of a box sequence, and the cell it stands for. */
  lemma SquareIndex(br: int, bc: int, i: int, j: int)
    requires 0 <= br < 3 && 0 <= bc < 3 && IsValidCell(i, j) && i / 3 == br && j / 3 == bc
    ensures var m := (i % 3) * 3 + j % 3;
            0 <= m < 9 && 3 * br + m / 3 == i && 3 * bc + m % 3 == j
  {
  }

  lemma SquaresIff(b: Board, br: int, bc: int)
    requires 0 <= br < 3 && 0 <= bc < 3
    ensures IsValidRow(Square(b, 3 * br, 3 * bc)) <==>
            forall i, j, k, l ::
              (IsValidCell(i, j) && IsValidCell(k, l) && (i, j) != (k, l) &&
               i / 3 == br && k / 3 == br && j / 3 == bc && l / 3 == bc && b[i][j] != 0) ==> b[i][j] != b[k][l]
  {
    var sq := Square(b, 3 * br, 3 * bc);
    IsValidRowIff(sq);
    if DistinctNonZero(sq) {
      forall i, j, k, l | IsValidCell(i, j) && IsValidCell(k, l) && (i, j) != (k, l) &&
        i / 3 == br && k / 3 == br && j / 3 == bc && l / 3 == bc && b[i][j] != 0
        ensures b[i][j] != b[k][l]
      {
        SquareIndex(br, bc, i, j);
        SquareIndex(br, bc, k, l);
        var m, n := (i % 3) * 3 + j % 3, (k % 3) * 3 + l % 3;
        assert sq[m] == b[i][j] && sq[n] == b[k][l];
      }
    }
  }

  lemma ValidSudokuNoRepeats(b: Board)
    requires ValidSudoku(b)
    ensures NoRepeats(b)
  {
    forall i, j, k, l | IsValidCell(i, j) && IsValidCell(k, l) && (i, j) != (k, l) &&
      SameUnit(i, j, k, l) && b[i][j] != 0
      ensures b[i][j] != b[k][l]
    {
      if i == k {
        RowsIff(b, i);
      } else if j == l {
        ColumnsIff(b, j);
      } else {
        SquaresIff(b, i / 3, j / 3);
      }
    }
  }

  lemma NoRepeatsRow(b: Board, row: int)
    requires NoRepeats(b) && 0 <= row < 9
    ensures IsValidRow(b[row])
  {
    RowsIff(b, row);
    forall j, l | 0 <= j < 9 && 0 <= l < 9 && j != l && b[row][j] != 0 ensures b[row][j] != b[row][l] {
      assert SameUnit(row, j, row, l);
    }
  }

  lemma NoRepeatsColumn(b: Board, col: int)
    requires NoRepeats(b) && 0 <= col < 9
    ensures IsValidRow(Column(b, col))
  {
    ColumnsIff(b, col);
    forall i, k | 0 <= i < 9 && 0 <= k < 9 && i != k && b[i][col] != 0 ensures b[i][col] != b[k][col] {
      assert SameUnit(i, col, k, col);
    }
  }

  lemma NoRepeatsSquare(b: Board, br: int, bc: int)
    requires NoRepeats(b) && 0 <= br < 3 && 0 <= bc < 3
    ensures IsValidRow(Square(b, 3 * br, 3 * bc))
  {
    SquaresIff(b, br, bc);
    forall i, j, k, l | IsValidCell(i, j) && IsValidCell(k, l) && (i, j) != (k, l) &&
      i / 3 == br && k / 3 == br && j / 3 == bc && l / 3 == bc && b[i][j] != 0
      ensures b[i][j] != b[k][l]
    {
      assert SameUnit(i, j, k, l);
    }
  }

  lemma NoRepeatsValidSudoku(b: Board)
    requires NoRepeats(b)
    ensures ValidSudoku(b)
  {
    forall row | 0 <= row < 9 ensures IsValidRow(b[row]) { NoRepeatsRow(b, row); }
    forall col | 0 <= col < 9 ensures IsValidRow(Column(b, col)) { NoRepeatsColumn(b, col); }
    forall br, bc | 0 <= br < 3 && 0 <= bc < 3 ensures IsValidRow(Square(b, 3 * br, 3 * bc)) {
      NoRepeatsSquare(b, br, bc);
    }
  }

  /** `is_valid_sudoku` holds exactly when no unit repeats a non-zero digit. */
  lemma ValidSudokuIff(b: Board)
    ensures ValidSudoku(b) <==> NoRepeats(b)
  {
    if ValidSudoku(b) { ValidSudokuNoRepeats(b); }
    if NoRepeats(b) { NoRepeatsValidSudoku(b); }
  }

  /** A legal grid passes the validator. */
  lemma LegalIsValid(b: Board)
    requires Legal(b)
    ensures ValidSudoku(b)
  {
    forall i, j, k, l | IsValidCell(i, j) && IsValidCell(k, l) && (i, j) != (k, l) &&
      SameUnit(i, j, k, l) && b[i][j] != 0
      ensures b[i][j] != b[k][l]
    {
      assert Compatible(b, i, j, b[i][j]);
    }
    NoRepeatsValidSudoku(b);
  }

  /** The empty grid passes the validator. */
  lemma EmptyIsValid()
    ensures ValidSudoku(EmptyBoard())
  {
    NoRepeatsValidSudoku(EmptyBoard());
  }

  /** `is_valid_sudoku`: rows, then columns, then boxes, giving up at the first unit
      that fails `is_valid_row`. */
  method IsValidSudoku(b: Board) returns (ok: bool)
    ensures ok <==> ValidSudoku(b)
  {
    for row := 0 to 9
      invariant forall r :: 0 <= r < row ==> IsValidRow(b[r])
    {
      if !IsValidRow(b[row]) {
        return false;
      }
    }
    for col := 0 to 9
      invariant forall c :: 0 <= c < col ==> IsValidRow(Column(b, c))
    {
      var column := Column(b, col);
      if !IsValidRow(column) {
        return false;
      }
    }
    for startRow := 0 to 3
      invariant forall br, bc :: 0 <= br < startRow && 0 <= bc < 3 ==> IsValidRow(Square(b, 3 * br, 3 * bc))
    {
      for startCol := 0 to 3
        invariant forall br, bc :: 0 <= br < startRow && 0 <= bc < 3 ==> IsValidRow(Square(b, 3 * br, 3 * bc))
        invariant forall bc :: 0 <= bc < startCol ==> IsValidRow(Square(b, 3 * startRow, 3 * bc))
      {
        var square := Square(b, 3 * startRow, 3 * startCol);
        if !IsValidRow(square) {
          return false;
        }
      }
    }
    return true;
  }
}
