/** Candidate digits for a cell: the classical Sudoku rules (the base set) and the
    base set filtered through the adjacency rule (the full set). */
module Constraints {
  import opened Grid
  import opened Adjacency

  const Digits: set<int> := {1, 2, 3, 4, 5, 6, 7, 8, 9}

  /** First row (or column) of the 3x3 box holding row (or column) `x`. */
  function BoxStart(x: int): int {
    x - x % 3
  }

  function RowNums(b: Board, row: int): set<int>
    requires 0 <= row < 9
  {
    set j | 0 <= j < 9 :: b[row][j]
  }

  function ColNums(b: Board, col: int): set<int>
    requires 0 <= col < 9
  {
    set i | 0 <= i < 9 :: b[i][col]
  }

  function BoxNums(b: Board, row0: int, col0: int): set<int>
    requires 0 <= row0 <= 6 && 0 <= col0 <= 6
  {
    set i, j | row0 <= i < row0 + 3 && col0 <= j < col0 + 3 :: b[i][j]
  }

  /** `get_possible_numbers`: the digits 1..9 minus everything used in the row,
      the column and the box of (row, col). A filled cell never offers its own digit. */
  function PossibleNumbers(b: Board, row: int, col: int): (s: set<int>)
    requires IsValidCell(row, col)
    ensures s <= Digits
    ensures b[row][col] !in s
  {
    assert b[row][col] in RowNums(b, row);
    Digits - (RowNums(b, row) + ColNums(b, col) + BoxNums(b, BoxStart(row), BoxStart(col)))
  }

  /** Same row, same column, or same 3x3 box. */
  predicate SameUnit(i: int, j: int, k: int, l: int) {
    i == k || j == l || (i / 3 == k / 3 && j / 3 == l / 3)
  }

  /** The box rows starting at `BoxStart(row)` are those with the same `/ 3`. */
  lemma BoxRange(row: int, i: int)
    requires 0 <= row < 9 && 0 <= i < 9
    ensures BoxStart(row) <= i < BoxStart(row) + 3 <==> i / 3 == row / 3
  {
  }

  /** `d` is a base candidate exactly when it is a digit that neither the row, the
      column nor the box of (row, col) holds. */
  lemma PossibleNumbersSpec(b: Board, row: int, col: int, d: int)
    requires IsValidCell(row, col)
    ensures d in PossibleNumbers(b, row, col) <==>
            1 <= d <= 9 &&
            (forall j :: 0 <= j < 9 ==> b[row][j] != d) &&
            (forall i :: 0 <= i < 9 ==> b[i][col] != d) &&
            (forall i, j :: IsValidCell(i, j) && i / 3 == row / 3 && j / 3 == col / 3 ==> b[i][j] != d)
  {
    var r0, c0 := BoxStart(row), BoxStart(col);
    forall i | 0 <= i < 9 ensures (r0 <= i < r0 + 3 <==> i / 3 == row / 3) {
      BoxRange(row, i);
    }
    forall j | 0 <= j < 9 ensures (c0 <= j < c0 + 3 <==> j / 3 == col / 3) {
      BoxRange(col, j);
    }
    if d in PossibleNumbers(b, row, col) {
      forall i, j | IsValidCell(i, j) && i / 3 == row / 3 && j / 3 == col / 3 ensures b[i][j] != d {
        assert b[i][j] in BoxNums(b, r0, c0);
      }
    }
  }

  /** The full candidate set: base candidates that pass the adjacency rule. */
  function Candidates(b: Board, row: int, col: int): (s: set<int>)
    requires IsValidCell(row, col)
    ensures s <= Digits
  {
    set d | d in PossibleNumbers(b, row, col) && IsValidForKingKnightAdjacent(b, row, col, d)
  }

  lemma SubsetCard(a: set<int>, b: set<int>)
    requires a <= b
    ensures |a| <= |b|
  {
    assert b == a + (b - a);
    assert a * (b - a) == {};
  }

  /** A cell never has more than nine candidates. */
  lemma CandidatesAtMostNine(b: Board, row: int, col: int)
    requires IsValidCell(row, col)
    ensures |Candidates(b, row, col)| <= 9
  {
    SubsetCard(Candidates(b, row, col), Digits);
  }

  /** `get_numbers`: walks the base set (in whatever order the set yields it) and
      keeps the digits that pass the adjacency rule. */
  method GetNumbers(b: Board, row: int, col: int) returns (valid: seq<int>)
    requires IsValidCell(row, col)
    ensures forall d :: d in valid <==> d in PossibleNumbers(b, row, col) && IsValidForKingKnightAdjacent(b, row, col, d)
    ensures forall i, j :: 0 <= i < j < |valid| ==> valid[i] != valid[j]
    ensures |valid| == |Candidates(b, row, col)| <= 9
  {
    var possible := PossibleNumbers(b, row, col);
    var rest := possible;
    ghost var kept: set<int> := {};
    valid := [];
    while rest != {}
      invariant rest <= possible
      invariant forall d :: d in valid <==> d in kept
      invariant kept == set d | d in possible - rest && IsValidForKingKnightAdjacent(b, row, col, d)
      invariant forall i, j :: 0 <= i < j < |valid| ==> valid[i] != valid[j]
      invariant |valid| == |kept|
      decreases rest
    {
      var num :| num in rest;
      if IsValidForKingKnightAdjacent(b, row, col, num) {
        valid := valid + [num];
        kept := kept + {num};
      }
      rest := rest - {num};
    }
    assert kept == Candidates(b, row, col);
    CandidatesAtMostNine(b, row, col);
  }

  /** `get_possible_numbers_after_placement`: the base set of (row, col) on a copy of
      the grid with `num` written there; the caller's grid is a value and stays as it was. */
  function PossibleNumbersAfterPlacement(b: Board, row: int, col: int, num: int): (s: set<int>)
    requires IsValidCell(row, col)
    ensures num !in s
    ensures b[row][col] == 0 ==> s == PossibleNumbers(b, row, col) - {num}
  {
    var temp := Place(b, row, col, num);
    assert temp[row][col] == num;
    assert num in RowNums(temp, row);
    var s := PossibleNumbers(temp, row, col);
    if b[row][col] == 0 then
      assert s == PossibleNumbers(b, row, col) - {num} by {
        forall d ensures d in s <==> d in PossibleNumbers(b, row, col) - {num} {
          PossibleNumbersSpec(temp, row, col, d);
          PossibleNumbersSpec(b, row, col, d);
        }
      }
      s
    else
      s
  }

  // Legality of the grid as a whole.

  /** Digit `x` at (i, j) and digit `y` at (k, l) break one of the rules. */
  predicate Clash(x: int, y: int, i: int, j: int, k: int, l: int) {
    ((SameUnit(i, j, k, l) || KnightRelated(i, j, k, l) || KingRelated(i, j, k, l)) && x == y) ||
    (Orthogonal(i, j, k, l) && Abs(x - y) == 1)
  }

  /** Digit `d` at (row, col) clashes with no other filled cell. */
  ghost predicate Compatible(b: Board, row: int, col: int, d: int) {
    forall k, l :: IsValidCell(k, l) && (k, l) != (row, col) && b[k][l] != 0 ==>
      !Clash(d, b[k][l], row, col, k, l)
  }

  /** Every cell holds 0..9 and every filled cell is compatible with all the others. */
  ghost predicate Legal(b: Board) {
    forall i, j :: IsValidCell(i, j) ==>
      0 <= b[i][j] <= 9 && (b[i][j] != 0 ==> Compatible(b, i, j, b[i][j]))
  }

  /** For an empty cell, a digit is a full candidate exactly when placing it there
      keeps it compatible with every filled cell. */
  lemma CandidateIff(b: Board, row: int, col: int, d: int)
    requires IsValidCell(row, col) && b[row][col] == 0
    ensures d in Candidates(b, row, col) <==> 1 <= d <= 9 && Compatible(b, row, col, d)
  {
    PossibleNumbersSpec(b, row, col, d);
    AdjacencySpec(b, row, col, d);
    if d in Candidates(b, row, col) {
      forall k, l | IsValidCell(k, l) && (k, l) != (row, col) && b[k][l] != 0
        ensures !Clash(d, b[k][l], row, col, k, l)
      {
        assert !Forbids(b, row, col, d, k, l);
      }
    }
    if 1 <= d <= 9 && Compatible(b, row, col, d) {
      forall i, j | IsValidCell(i, j) ensures !Forbids(b, row, col, d, i, j) {
        if (i, j) != (row, col) && b[i][j] != 0 {
          assert !Clash(d, b[i][j], row, col, i, j);
        }
      }
    }
  }

  /** The rules do not care which of the two cells is named first. */
  lemma ClashSymmetric(x: int, y: int, i: int, j: int, k: int, l: int)
    ensures Clash(x, y, i, j, k, l) == Clash(y, x, k, l, i, j)
  {
  }

  /** After the placement, an old filled cell is still compatible: with the unchanged
      cells as before, and with the new digit by symmetry. */
  lemma PlaceKeepsCompatible(b: Board, row: int, col: int, d: int, i: int, j: int)
    requires IsValidCell(row, col) && IsValidCell(i, j) && (i, j) != (row, col)
    requires Compatible(b, i, j, b[i][j]) && Compatible(b, row, col, d)
    requires b[row][col] == 0 && b[i][j] != 0
    ensures Compatible(Place(b, row, col, d), i, j, b[i][j])
  {
    var b' := Place(b, row, col, d);
    forall k, l | IsValidCell(k, l) && (k, l) != (i, j) && b'[k][l] != 0
      ensures !Clash(b[i][j], b'[k][l], i, j, k, l)
    {
      if (k, l) == (row, col) {
        ClashSymmetric(d, b[i][j], row, col, i, j);
      }
    }
  }

  /** Placing a full candidate into an empty cell of a legal grid keeps it legal. */
  lemma PlaceKeepsLegal(b: Board, row: int, col: int, d: int)
    requires Legal(b) && IsValidCell(row, col) && b[row][col] == 0
    requires d in Candidates(b, row, col)
    ensures Legal(Place(b, row, col, d))
  {
    CandidateIff(b, row, col, d);
    var b' := Place(b, row, col, d);
    assert Compatible(b', row, col, d) by {
      forall k, l | IsValidCell(k, l) && (k, l) != (row, col) && b'[k][l] != 0
        ensures !Clash(d, b'[k][l], row, col, k, l)
      {
        assert b'[k][l] == b[k][l];
      }
    }
    forall i, j | IsValidCell(i, j)
      ensures 0 <= b'[i][j] <= 9 && (b'[i][j] != 0 ==> Compatible(b', i, j, b'[i][j]))
    {
      if (i, j) != (row, col) && b[i][j] != 0 {
        PlaceKeepsCompatible(b, row, col, d, i, j);
      }
    }
  }

  // Completions: the grids a successful search could end in.

  /** `s` is a full legal grid that keeps every filled cell of `b`. */
  ghost predicate IsCompletion(b: Board, s: Board) {
    Full(s) && Legal(s) && Extends(b, s)
  }

  /** A completion of `b` fills an empty cell with one of its full candidates, and is
      also a completion of `b` with that digit placed. */
  lemma CompletionChoosesCandidate(b: Board, s: Board, row: int, col: int)
    requires IsCompletion(b, s) && IsValidCell(row, col) && b[row][col] == 0
    ensures s[row][col] in Candidates(b, row, col)
    ensures IsCompletion(Place(b, row, col, s[row][col]), s)
  {
    var d := s[row][col];
    assert Compatible(s, row, col, d);
    forall k, l | IsValidCell(k, l) && (k, l) != (row, col) && b[k][l] != 0
      ensures !Clash(d, b[k][l], row, col, k, l)
    {
      assert s[k][l] == b[k][l];
    }
    CandidateIff(b, row, col, d);
  }

  /** An empty cell of a grid that has a completion still has a base candidate. */
  lemma CompletionLeavesCandidates(b: Board, s: Board, i: int, j: int)
    requires IsCompletion(b, s) && IsValidCell(i, j) && b[i][j] == 0
    ensures PossibleNumbers(b, i, j) != {}
  {
    CompletionChoosesCandidate(b, s, i, j);
  }
}
