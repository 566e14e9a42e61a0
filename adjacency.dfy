/** The chess-move rules: knight and king neighbours may not repeat a digit, and
    orthogonal neighbours may not hold consecutive digits. */
module Adjacency {
  import opened Grid

  const KnightMoves: seq<(int, int)> :=
    [(-2, -1), (-2, 1), (-1, -2), (-1, 2), (1, -2), (1, 2), (2, -1), (2, 1)]
  const KingMoves: seq<(int, int)> :=
    [(-1, -1), (-1, 0), (-1, 1), (0, -1), (0, 1), (1, -1), (1, 0), (1, 1)]
  const AdjacentMoves: seq<(int, int)> :=
    [(-1, 0), (1, 0), (0, -1), (0, 1)]

  /** (row, col) is on the grid and holds `num`. */
  predicate HoldsAt(b: Board, row: int, col: int, num: int) {
    IsValidCell(row, col) && b[row][col] == num
  }

  /** (row, col) is on the grid and holds a non-zero digit one away from `num`. */
  predicate ConsecutiveAt(b: Board, row: int, col: int, num: int) {
    IsValidCell(row, col) && b[row][col] != 0 && Abs(num - b[row][col]) == 1
  }

  /** `is_valid_for_king_knight_adjacent`: the three offset scans, each of which
      rejects `num` on its first hit. */
  predicate IsValidForKingKnightAdjacent(b: Board, row: int, col: int, num: int) {
    (forall m :: 0 <= m < |KnightMoves| ==>
       !HoldsAt(b, row + KnightMoves[m].0, col + KnightMoves[m].1, num)) &&
    (forall m :: 0 <= m < |KingMoves| ==>
       !HoldsAt(b, row + KingMoves[m].0, col + KingMoves[m].1, num)) &&
    (forall m :: 0 <= m < |AdjacentMoves| ==>
       !ConsecutiveAt(b, row + AdjacentMoves[m].0, col + AdjacentMoves[m].1, num))
  }

  /** `is_valid_placement` delegates to the adjacency rule alone. */
  predicate IsValidPlacement(b: Board, row: int, col: int, num: int) {
    IsValidForKingKnightAdjacent(b, row, col, num)
  }

  // The three relations between cells, stated geometrically (and symmetrically).

  predicate KnightRelated(i: int, j: int, k: int, l: int) {
    (Abs(i - k) == 1 && Abs(j - l) == 2) || (Abs(i - k) == 2 && Abs(j - l) == 1)
  }

  predicate KingRelated(i: int, j: int, k: int, l: int) {
    Abs(i - k) <= 1 && Abs(j - l) <= 1 && (i, j) != (k, l)
  }

  predicate Orthogonal(i: int, j: int, k: int, l: int) {
    Abs(i - k) + Abs(j - l) == 1
  }

  /** Cell (i, j), holding whatever the grid holds there, forbids `n` at (row, col). */
  predicate Forbids(b: Board, row: int, col: int, n: int, i: int, j: int)
    requires IsValidCell(i, j)
  {
    ((KnightRelated(row, col, i, j) || KingRelated(row, col, i, j)) && b[i][j] == n) ||
    (Orthogonal(row, col, i, j) && b[i][j] != 0 && Abs(n - b[i][j]) == 1)
  }

  /** Every offset of each list is a move of the matching kind. */
  lemma MovesGeometry()
    ensures forall m :: 0 <= m < |KnightMoves| ==> KnightRelated(0, 0, KnightMoves[m].0, KnightMoves[m].1)
    ensures forall m :: 0 <= m < |KingMoves| ==> KingRelated(0, 0, KingMoves[m].0, KingMoves[m].1)
    ensures forall m :: 0 <= m < |AdjacentMoves| ==> Orthogonal(0, 0, AdjacentMoves[m].0, AdjacentMoves[m].1)
  {
    forall m | 0 <= m < 8
      ensures KnightRelated(0, 0, KnightMoves[m].0, KnightMoves[m].1)
      ensures KingRelated(0, 0, KingMoves[m].0, KingMoves[m].1)
    {
      assert m == 0 || m == 1 || m == 2 || m == 3 || m == 4 || m == 5 || m == 6 || m == 7;
    }
    forall m | 0 <= m < 4 ensures Orthogonal(0, 0, AdjacentMoves[m].0, AdjacentMoves[m].1) {
      assert m == 0 || m == 1 || m == 2 || m == 3;
    }
  }

  /** Every knight, king or orthogonal step appears in the matching offset list. */
  lemma MovesComplete(di: int, dj: int)
    ensures KnightRelated(0, 0, di, dj) ==> (di, dj) in KnightMoves
    ensures KingRelated(0, 0, di, dj) ==> (di, dj) in KingMoves
    ensures Orthogonal(0, 0, di, dj) ==> (di, dj) in AdjacentMoves
  {
  }

  /** The offset scans reject `n` exactly when some on-grid cell forbids it. */
  lemma {:induction false} AdjacencySpec(b: Board, row: int, col: int, n: int)
    requires IsValidCell(row, col)
    ensures IsValidForKingKnightAdjacent(b, row, col, n) <==>
            forall i, j :: IsValidCell(i, j) ==> !Forbids(b, row, col, n, i, j)
  {
    MovesGeometry();
    if IsValidForKingKnightAdjacent(b, row, col, n) {
      forall i, j | IsValidCell(i, j) ensures !Forbids(b, row, col, n, i, j) {
        MovesComplete(i - row, j - col);
        if KnightRelated(row, col, i, j) {
          var m :| 0 <= m < |KnightMoves| && KnightMoves[m] == (i - row, j - col);
          assert !HoldsAt(b, row + KnightMoves[m].0, col + KnightMoves[m].1, n);
        }
        if KingRelated(row, col, i, j) {
          var m :| 0 <= m < |KingMoves| && KingMoves[m] == (i - row, j - col);
          assert !HoldsAt(b, row + KingMoves[m].0, col + KingMoves[m].1, n);
        }
        if Orthogonal(row, col, i, j) {
          var m :| 0 <= m < |AdjacentMoves| && AdjacentMoves[m] == (i - row, j - col);
          assert !ConsecutiveAt(b, row + AdjacentMoves[m].0, col + AdjacentMoves[m].1, n);
        }
      }
    } else {
      if m :| 0 <= m < |KnightMoves| && HoldsAt(b, row + KnightMoves[m].0, col + KnightMoves[m].1, n) {
        assert Forbids(b, row, col, n, row + KnightMoves[m].0, col + KnightMoves[m].1);
      } else if m :| 0 <= m < |KingMoves| && HoldsAt(b, row + KingMoves[m].0, col + KingMoves[m].1, n) {
        assert Forbids(b, row, col, n, row + KingMoves[m].0, col + KingMoves[m].1);
      } else {
        var m :| 0 <= m < |AdjacentMoves| &&
                 ConsecutiveAt(b, row + AdjacentMoves[m].0, col + AdjacentMoves[m].1, n);
        assert Forbids(b, row, col, n, row + AdjacentMoves[m].0, col + AdjacentMoves[m].1);
      }
    }
  }

  /** The rule is symmetric: if (i, j) forbids `n` at (row, col) because it holds `x`,
      then (row, col) holding `n` forbids `x` at (i, j). */
  lemma ForbidsSymmetric(b: Board, row: int, col: int, n: int, i: int, j: int)
    requires IsValidCell(row, col) && IsValidCell(i, j) && n != 0
    requires Forbids(b, row, col, n, i, j)
    ensures Forbids(Place(b, row, col, n), i, j, b[i][j], row, col)
  {
  }
}
