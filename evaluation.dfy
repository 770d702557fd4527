/** `evaluate_position`: the material balance of the board, white pieces counting for and
    black pieces against, whoever is to move. */
module Evaluation {
  import opened Board

  /** `piece_values`: pawn, knight, bishop, rook, queen, king. */
  function PieceValue(kind: int): (r: nat)
    requires 1 <= kind <= 6
    ensures 100 <= r <= 20000
  {
    if kind == 1 then 100
    else if kind == 2 then 320
    else if kind == 3 then 330
    else if kind == 4 then 500
    else if kind == 5 then 900
    else 20000
  }

  /** What one cell adds to the score: its piece's value, with the sign of its colour. */
  function Worth(v: int): (r: int)
    requires IsPiece(v)
    ensures v == 0 <==> r == 0
    ensures v > 0 <==> r > 0
    ensures Abs(r) <= 20000
  {
    var p: int := if v == 0 then 0 else PieceValue(Abs(v));
    if v < 0 then -p else p
  }

  /** Every cell holds a piece code or 0. */
  predicate AllPieces(row: seq<int>) { forall i :: 0 <= i < |row| ==> IsPiece(row[i]) }

  /** The score of one row, its cells taken left to right. */
  function RowWorth(row: seq<int>): int
    requires AllPieces(row)
  {
    if row == [] then 0 else Worth(row[0]) + RowWorth(row[1..])
  }

  /** The score of the rows, top to bottom. */
  function RowsWorth(rows: seq<seq<int>>): int
    requires forall y :: 0 <= y < |rows| ==> AllPieces(rows[y])
  {
    if rows == [] then 0 else RowWorth(rows[0]) + RowsWorth(rows[1..])
  }

  /** `evaluate_position()` */
  function Evaluate(b: Grid): int
    requires WellFormed(b)
  {
    RowsWorth(b)
  }

  /** The value of the pieces of one side in a row. */
  function RowMaterial(row: seq<int>, side: int): (r: nat)
    requires AllPieces(row)
  {
    if row == [] then 0
    else (if row[0] * side > 0 then PieceValue(Abs(row[0])) else 0) + RowMaterial(row[1..], side)
  }

  function RowsMaterial(rows: seq<seq<int>>, side: int): (r: nat)
    requires forall y :: 0 <= y < |rows| ==> AllPieces(rows[y])
  {
    if rows == [] then 0 else RowMaterial(rows[0], side) + RowsMaterial(rows[1..], side)
  }

  /** The value of one side's pieces on the board. */
  function Material(b: Grid, side: int): (r: nat)
    requires WellFormed(b)
  {
    RowsMaterial(b, side)
  }

  // ---------------------------------------------------------------- properties

  lemma {:induction false} RowBalance(row: seq<int>)
    requires AllPieces(row)
    ensures RowWorth(row) == RowMaterial(row, 1) - RowMaterial(row, -1)
  {
    if row != [] { RowBalance(row[1..]); }
  }

  lemma {:induction false} RowsBalance(rows: seq<seq<int>>)
    requires forall y :: 0 <= y < |rows| ==> AllPieces(rows[y])
    ensures RowsWorth(rows) == RowsMaterial(rows, 1) - RowsMaterial(rows, -1)
  {
    if rows != [] { RowBalance(rows[0]); RowsBalance(rows[1..]); }
  }

  /** The score is white's material minus black's. */
  lemma Balance(b: Grid)
    requires WellFormed(b)
    ensures Evaluate(b) == Material(b, 1) - Material(b, -1)
  {
    RowsBalance(b);
  }

  lemma {:induction false} RowNegated(row: seq<int>, flipped: seq<int>)
    requires AllPieces(row) && AllPieces(flipped) && |flipped| == |row|
    requires forall i :: 0 <= i < |row| ==> flipped[i] == -row[i]
    ensures RowWorth(flipped) == -RowWorth(row)
  {
    if row != [] { RowNegated(row[1..], flipped[1..]); }
  }

  lemma {:induction false} RowsNegated(rows: seq<seq<int>>, flipped: seq<seq<int>>)
    requires forall y :: 0 <= y < |rows| ==> AllPieces(rows[y])
    requires forall y :: 0 <= y < |flipped| ==> AllPieces(flipped[y])
    requires |flipped| == |rows|
    requires forall y :: 0 <= y < |rows| ==> |flipped[y]| == |rows[y]|
    requires forall y, x :: 0 <= y < |rows| && 0 <= x < |rows[y]| ==> flipped[y][x] == -rows[y][x]
    ensures RowsWorth(flipped) == -RowsWorth(rows)
  {
    if rows != [] {
      RowNegated(rows[0], flipped[0]);
      RowsNegated(rows[1..], flipped[1..]);
    }
  }

  /** Swapping the colour of every piece negates the score. */
  lemma EvaluateNegated(b: Grid)
    requires WellFormed(b)
    ensures Evaluate(Negated(b)) == -Evaluate(b)
  {
    var n := Negated(b);
    forall y, x | 0 <= y < 8 && 0 <= x < 8 ensures n[y][x] == -b[y][x] {
      assert At(n, Sq(x, y)) == -At(b, Sq(x, y));
    }
    RowsNegated(b, n);
  }

  lemma {:induction false} RowBound(row: seq<int>)
    requires AllPieces(row)
    ensures Abs(RowWorth(row)) <= 20000 * |row|
  {
    if row != [] { RowBound(row[1..]); }
  }

  lemma {:induction false} RowsBound(rows: seq<seq<int>>)
    requires forall y :: 0 <= y < |rows| ==> AllPieces(rows[y]) && |rows[y]| == 8
    ensures Abs(RowsWorth(rows)) <= 160000 * |rows|
  {
    if rows != [] { RowBound(rows[0]); RowsBound(rows[1..]); }
  }

  /** No board scores more than 64 kings' worth either way. */
  lemma EvaluateBound(b: Grid)
    requires WellFormed(b)
    ensures -1280000 <= Evaluate(b) <= 1280000
  {
    RowsBound(b);
  }

  lemma {:induction false} RowUpdate(row: seq<int>, x: nat, v: int)
    requires AllPieces(row) && x < |row| && IsPiece(v)
    ensures AllPieces(row[x := v])
    ensures RowWorth(row[x := v]) == RowWorth(row) - Worth(row[x]) + Worth(v)
  {
    if x > 0 {
      RowUpdate(row[1..], x - 1, v);
      assert row[x := v][1..] == row[1..][x - 1 := v];
    }
  }

  lemma {:induction false} RowsUpdate(rows: seq<seq<int>>, y: nat, row: seq<int>)
    requires forall k :: 0 <= k < |rows| ==> AllPieces(rows[k])
    requires y < |rows| && AllPieces(row)
    ensures RowsWorth(rows[y := row]) == RowsWorth(rows) - RowWorth(rows[y]) + RowWorth(row)
  {
    if y > 0 {
      RowsUpdate(rows[1..], y - 1, row);
      assert rows[y := row][1..] == rows[1..][y - 1 := row];
    }
  }

  /** Writing a cell trades the worth of what stood there for the worth of what is put. */
  lemma EvaluatePut(b: Grid, s: Square, v: int)
    requires WellFormed(b) && InBounds(s) && IsPiece(v)
    ensures Evaluate(Put(b, s, v)) == Evaluate(b) - Worth(At(b, s)) + Worth(v)
  {
    RowUpdate(b[s.y], s.x, v);
    RowsUpdate(b, s.y, b[s.y][s.x := v]);
  }

  /** Moving a piece from c to an empty or enemy-held n, as the copy `valid_move` builds,
      changes the score by exactly the worth of what stood on n. */
  lemma EvaluateShift(b: Grid, c: Square, n: Square)
    requires WellFormed(b) && InBounds(c) && InBounds(n) && c != n
    ensures Evaluate(Put(Put(b, n, At(b, c)), c, 0)) == Evaluate(b) - Worth(At(b, n))
  {
    var b1 := Put(b, n, At(b, c));
    EvaluatePut(b, n, At(b, c));
    EvaluatePut(b1, c, 0);
  }

  /** The score of a row grows by the worth of a cell added at its end, as the inner loop
      of `evaluate_position` adds it. */
  lemma {:induction false} RowWorthAppend(row: seq<int>, v: int)
    requires AllPieces(row) && IsPiece(v)
    ensures AllPieces(row + [v])
    ensures RowWorth(row + [v]) == RowWorth(row) + Worth(v)
  {
    if row != [] {
      assert (row + [v])[1..] == row[1..] + [v];
      RowWorthAppend(row[1..], v);
    }
  }

  /** The score of the rows grows by the score of a row added at the end. */
  lemma {:induction false} RowsWorthAppend(rows: seq<seq<int>>, row: seq<int>)
    requires forall y :: 0 <= y < |rows| ==> AllPieces(rows[y])
    requires AllPieces(row)
    ensures forall y :: 0 <= y < |rows + [row]| ==> AllPieces((rows + [row])[y])
    ensures RowsWorth(rows + [row]) == RowsWorth(rows) + RowWorth(row)
  {
    if rows != [] {
      assert (rows + [row])[1..] == rows[1..] + [row];
      RowsWorthAppend(rows[1..], row);
    }
  }
}
