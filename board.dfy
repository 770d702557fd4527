/** The 8x8 grid of signed piece codes and the square-name codec.
    A piece is ±1 pawn, ±2 knight, ±3 bishop, ±4 rook, ±5 queen, ±6 king, positive for
    white; 0 is an empty square. The grid is indexed `board[row][column]`; row 0 is rank 8. */
module Board {
  import opened Text

  /** A square `(x, y)`: x is the column (file a..h = 0..7), y the row (rank 8..1 = 0..7). */
  datatype Square = Sq(x: int, y: int)

  type Grid = seq<seq<int>>

  const Files: string := "abcdefgh"
  const Ranks: string := "87654321"

  predicate InBounds(s: Square) { 0 <= s.x < 8 && 0 <= s.y < 8 }

  predicate IsPiece(v: int) { -6 <= v <= 6 }

  /** Eight rows of eight cells, each a piece code or 0. */
  predicate WellFormed(b: Grid) {
    && |b| == 8
    && (forall r :: 0 <= r < 8 ==> |b[r]| == 8)
    && (forall r, c :: 0 <= r < 8 && 0 <= c < 8 ==> IsPiece(b[r][c]))
  }

  function Abs(v: int): nat { if v < 0 then -v else v }

  function At(b: Grid, s: Square): (v: int)
    requires WellFormed(b) && InBounds(s)
    ensures IsPiece(v)
  {
    b[s.y][s.x]
  }

  /** `board[s.y][s.x] = v` */
  function Put(b: Grid, s: Square, v: int): (r: Grid)
    requires WellFormed(b) && InBounds(s) && IsPiece(v)
    ensures WellFormed(r)
    ensures At(r, s) == v
    ensures forall t :: InBounds(t) && t != s ==> At(r, t) == At(b, t)
  {
    b[s.y := b[s.y][s.x := v]]
  }

  const EmptyRow: seq<int> := [0, 0, 0, 0, 0, 0, 0, 0]

  /** The cleared board that `reset` starts from. */
  function Empty(): (b: Grid)
    ensures WellFormed(b)
    ensures forall s :: InBounds(s) ==> At(b, s) == 0
  {
    [EmptyRow, EmptyRow, EmptyRow, EmptyRow, EmptyRow, EmptyRow, EmptyRow, EmptyRow]
  }

  /** `board_2_array`: a two-character name such as "e4" (file in either case) to its
      square; anything else to None. */
  function BoardToArray(cord: string): (r: Option<Square>)
    ensures r.Some? ==> InBounds(r.value)
  {
    if |cord| == 2 && Lower(cord[0]) in Files && cord[1] in Ranks then
      Some(Sq(Lower(cord[0]) as int - 'a' as int, '8' as int - cord[1] as int))
    else
      None
  }

  /** `f"{x[s.x]}{y[s.y]}"`: the lower-case name of a square. */
  function SquareName(s: Square): string
    requires InBounds(s)
  {
    [Files[s.x], Ranks[s.y]]
  }

  /** A name decodes to a square exactly when it is that square's name with the file letter
      in either case; in particular every square's own name decodes back to it. */
  lemma BoardToArrayExact(cord: string, s: Square)
    requires InBounds(s)
    ensures BoardToArray(cord) == Some(s) <==>
              |cord| == 2 && Lower(cord[0]) == Files[s.x] && cord[1] == Ranks[s.y]
  {
  }

  lemma SquareNameRoundTrip(s: Square)
    requires InBounds(s)
    ensures BoardToArray(SquareName(s)) == Some(s)
    ensures LowerStr(SquareName(s)) == SquareName(s)
  {
    BoardToArrayExact(SquareName(s), s);
    assert LowerStr(SquareName(s))[0] == SquareName(s)[0];
  }

  /** t comes no earlier than (x, y) in row-major order. */
  predicate NotBefore(t: Square, x: int, y: int) { t.y > y || (t.y == y && t.x >= x) }

  /** The first square holding v, in row-major order, starting at column x of row y. */
  function FindFrom(b: Grid, v: int, x: nat, y: nat): (r: Option<Square>)
    requires WellFormed(b) && x <= 8
    ensures r.Some? ==> InBounds(r.value) && At(b, r.value) == v && NotBefore(r.value, x, y)
    ensures r.Some? ==> forall t :: InBounds(t) && NotBefore(t, x, y) && !NotBefore(t, r.value.x, r.value.y) ==> At(b, t) != v
    ensures r.None? <==> forall t :: InBounds(t) && NotBefore(t, x, y) ==> At(b, t) != v
    decreases 8 - y, 8 - x
  {
    if y >= 8 then None
    else if x == 8 then FindFrom(b, v, 0, y + 1)
    else if b[y][x] == v then Some(Sq(x, y))
    else FindFrom(b, v, x + 1, y)
  }

  /** The row-major search of the source's nested loops over rows and columns.
      It finds nothing exactly when v is absent, and otherwise the first occurrence. */
  function Find(b: Grid, v: int): (r: Option<Square>)
    requires WellFormed(b)
    ensures r.Some? ==> InBounds(r.value) && At(b, r.value) == v
    ensures r.Some? ==> forall t :: InBounds(t) && !NotBefore(t, r.value.x, r.value.y) ==> At(b, t) != v
    ensures r.None? <==> forall t :: InBounds(t) ==> At(b, t) != v
  {
    FindFrom(b, v, 0, 0)
  }

  /** Every piece with its colour flipped. */
  function Negated(b: Grid): (r: Grid)
    requires WellFormed(b)
    ensures WellFormed(r)
    ensures forall s :: InBounds(s) ==> At(r, s) == -At(b, s)
  {
    seq(8, y requires 0 <= y < 8 => seq(8, x requires 0 <= x < 8 => -b[y][x]))
  }

  /** The cells in the order the source's nested loops visit them. */
  function Cells(b: Grid): (r: seq<int>)
    requires WellFormed(b)
    ensures |r| == 64
    ensures forall s :: InBounds(s) ==> r[8 * s.y + s.x] == At(b, s)
  {
    b[0] + b[1] + b[2] + b[3] + b[4] + b[5] + b[6] + b[7]
  }
}
