/** Move legality and application: `valid_move`, `log_move`, `move` and `pawn_promotion`. */
module Rules {
  import opened Text
  import opened Board
  import opened Position
  import opened Movement
  import opened Descriptor

  predicate IsSide(p: int) { p == 1 || p == -1 }

  /** Some piece of `side` has `target` among the destinations its generator returns on g,
      called with the origin as a tuple and `capture=True`, as `valid_move` and
      `is_checkmate` call it. */
  predicate AttackedBy(g: Game, target: Square, side: int)
    requires WellFormed(g.board) && IsSide(side)
  {
    exists x, y | 0 <= x < 8 && 0 <= y < 8 :: AttacksFrom(g, Sq(x, y), target, side)
  }

  /** The piece on s belongs to `side` and its generator returns `target`. */
  predicate AttacksFrom(g: Game, s: Square, target: Square, side: int)
    requires WellFormed(g.board) && IsSide(side) && InBounds(s)
  {
    At(g.board, s) * side > 0 && target in Destinations(g, At(g.board, s), side, s, true, true)
  }

  /** A rook of `side` attacks every square its generator returns. */
  lemma RookAttacks(g: Game, s: Square, target: Square, side: int)
    requires WellFormed(g.board) && IsSide(side) && InBounds(s) && At(g.board, s) == 4 * side
    requires target in SliderMoves(g, side, s, RookDirs, true)
    ensures AttackedBy(g, target, side)
  {
    RookReach(g, s, target, side);
    assert AttacksFrom(g, Sq(s.x, s.y), target, side);
  }

  /** A rook attacks exactly the squares its generator returns. */
  lemma RookReach(g: Game, s: Square, target: Square, side: int)
    requires WellFormed(g.board) && IsSide(side) && InBounds(s) && At(g.board, s) == 4 * side
    ensures AttacksFrom(g, s, target, side) <==> target in SliderMoves(g, side, s, RookDirs, true)
  {
    DestinationsByKind(g, 4 * side, side, s, true, true);
  }

  /** The first king of `side` in row-major order is not attacked by the other side, or
      there is no such king. */
  predicate KingSafe(t: Game, side: int)
    requires WellFormed(t.board) && IsSide(side)
  {
    match Find(t.board, 6 * side)
    case None => true
    case Some(k) => !AttackedBy(t, k, -side)
  }

  /** The simulated board of `valid_move`: the piece moved from c to n and nothing else. */
  function Shifted(b: Grid, c: Square, n: Square): (r: Grid)
    requires WellFormed(b) && InBounds(c) && InBounds(n)
    ensures WellFormed(r)
  {
    Put(Put(b, n, At(b, c)), c, 0)
  }

  /** `valid_move(cur_pos, next_pos)` for positions that `board_2_array` produced. */
  predicate ValidMove(g: Game, cp: Option<Square>, np: Option<Square>)
    requires Valid(g)
    requires cp.Some? ==> InBounds(cp.value)
    requires np.Some? ==> InBounds(np.value)
  {
    if cp.None? || np.None? then false
    else
      var c, n := cp.value, np.value;
      var part := At(g.board, c);
      if part * g.pMove <= 0 then false
      else if n !in Destinations(g, part, g.pMove, c, true, true) then false
      else KingSafe(g.(board := Shifted(g.board, c, n)), g.pMove)
  }

  /** The four ways `valid_move` answers False, and that it answers True otherwise. */
  lemma ValidMoveCases(g: Game, cp: Option<Square>, np: Option<Square>)
    requires Valid(g)
    requires cp.Some? ==> InBounds(cp.value)
    requires np.Some? ==> InBounds(np.value)
    ensures cp.None? || np.None? ==> !ValidMove(g, cp, np)
    ensures cp.Some? && At(g.board, cp.value) * g.pMove <= 0 ==> !ValidMove(g, cp, np)
    ensures cp.Some? && np.Some? && At(g.board, cp.value) != 0
            && np.value !in Destinations(g, At(g.board, cp.value), g.pMove, cp.value, true, true)
            ==> !ValidMove(g, cp, np)
    ensures cp.Some? && np.Some?
            && (var t := g.(board := Shifted(g.board, cp.value, np.value));
                var k := Find(t.board, 6 * g.pMove);
                k.Some? && AttackedBy(t, k.value, -g.pMove))
            ==> !ValidMove(g, cp, np)
    ensures ValidMove(g, cp, np) <==>
            cp.Some? && np.Some? && At(g.board, cp.value) * g.pMove > 0
            && np.value in Destinations(g, At(g.board, cp.value), g.pMove, cp.value, true, true)
            && KingSafe(g.(board := Shifted(g.board, cp.value, np.value)), g.pMove)
  {
  }

  /** The shape of a move `valid_move` accepts: the piece is the mover's and leaves its
      square; a pawn moves one row forward, or two from its starting row; a king moves two
      columns only from e1 or e8 onto g-file or c-file of the same row; every other piece
      lands on an empty square or an opponent's piece. */
  predicate Shape(g: Game, c: Square, n: Square)
    requires Valid(g) && InBounds(c) && InBounds(n)
  {
    && At(g.board, c) * g.pMove > 0 && c != n
    && (Abs(At(g.board, c)) == 1 ==>
          n.y == c.y - g.pMove || (n.y == c.y - 2 * g.pMove && c.y == PawnStart(g.pMove)))
    && (Abs(At(g.board, c)) == 6 && n.x - c.x == 2 ==> c == Sq(4, c.y) && n == Sq(6, c.y) && (c.y == 0 || c.y == 7))
    && (Abs(At(g.board, c)) == 6 && n.x - c.x == -2 ==> c == Sq(4, c.y) && n == Sq(2, c.y) && (c.y == 0 || c.y == 7))
    && (Abs(At(g.board, c)) != 1 ==> Open(g.board, g.pMove, n))
  }

  /** Every move `valid_move` accepts has that shape. */
  lemma MoveGeometry(g: Game, c: Square, n: Square)
    requires Valid(g) && InBounds(c) && InBounds(n)
    requires ValidMove(g, Some(c), Some(n))
    ensures Shape(g, c, n)
  {
    DestinationLeave(g, c, n);
  }

  lemma DestinationLeave(g: Game, c: Square, n: Square)
    requires Valid(g) && InBounds(c) && InBounds(n) && At(g.board, c) != 0
    requires n in Destinations(g, At(g.board, c), g.pMove, c, true, true)
    ensures c != n
    ensures Abs(At(g.board, c)) == 1 ==>
              n.y == c.y - g.pMove || (n.y == c.y - 2 * g.pMove && c.y == PawnStart(g.pMove))
    ensures Abs(At(g.board, c)) == 6 && n.x - c.x == 2 ==> c == Sq(4, c.y) && n == Sq(6, c.y) && (c.y == 0 || c.y == 7)
    ensures Abs(At(g.board, c)) == 6 && n.x - c.x == -2 ==> c == Sq(4, c.y) && n == Sq(2, c.y) && (c.y == 0 || c.y == 7)
  {
    DestinationLeaves(g, At(g.board, c), g.pMove, c, true, true, n);
  }

  // ---------------------------------------------------------------- log_move

  /** The upper-case notation letter of a piece kind; the pawn has none. */
  function Notation(kind: int): (r: string)
    requires 1 <= kind <= 6
    ensures kind == 1 <==> r == ""
    ensures kind != 1 ==> |r| == 1 && IsUpper(r[0])
  {
    if kind == 1 then "" else [Upper(KindLetter(kind))]
  }

  /** A move takes something: the destination is occupied, or a pawn moves onto the en
      passant target. */
  predicate Takes(g: Game, part: int, n: Square)
    requires Valid(g) && InBounds(n)
  {
    At(g.board, n) != 0 || (Some(n) == g.enPassant && Abs(part) == 1)
  }

  /** The text `log_move` appends: `0-0` and `0-0-0` for a king moving two columns, the
      promotion form when a promotion piece is given for a pawn of the mover, and otherwise
      the piece letter, an `x` on a capture (a pawn's written after the origin's file
      character) and the destination in lower case. It never writes a check mark. */
  function LogEntry(g: Game, part: int, curCord: string, nextCord: string, c: Square, n: Square,
                    nPart: Option<string>): (r: string)
    requires Valid(g) && IsPiece(part) && part != 0 && InBounds(n)
    requires |curCord| > 0 && |nextCord| > 0
    ensures |r| > 0
    ensures part == 6 * g.pMove && n.x - c.x == 2 ==> r == "0-0"
    ensures part == 6 * g.pMove && n.x - c.x == -2 ==> r == "0-0-0"
    ensures '+' !in curCord && '+' !in nextCord && (nPart.Some? ==> '+' !in nPart.value) ==> '+' !in r
  {
    if part == 6 * g.pMove && n.x - c.x == 2 then "0-0"
    else if part == 6 * g.pMove && n.x - c.x == -2 then "0-0-0"
    else if part == g.pMove && nPart.Some? then LowerStr(nextCord) + "=" + UpperStr(nPart.value)
    else
      var letter := Notation(Abs(part));
      var mark := if !Takes(g, part, n) then "" else if letter != "" then "x" else [curCord[0], 'x'];
      letter + mark + LowerStr(nextCord)
  }

  // ---------------------------------------------------------------- move

  /** The castling rights after the mover's piece `part` leaves c. A king clears both of
      the mover's rights; a white rook leaving a1 clears the queen-side right and leaving
      any other square the king-side right, and likewise for black with a8. */
  function CastlingAfter(r: Rights, part: int, pMove: int, c: Square): Rights {
    if part == 6 * pMove then
      (if pMove == 1 then r.(wk := false, wq := false) else r.(bk := false, bq := false))
    else if part == 4 * pMove then
      (if pMove == 1 then (if c == Sq(0, 7) then r.(wq := false) else r.(wk := false))
       else (if c == Sq(0, 0) then r.(bq := false) else r.(bk := false)))
    else r
  }

  /** The branch of `move` that follows the log entry: a pawn landing on row 4 (white) or
      row 3 (black) sets the en passant target behind it; a king moving two columns moves
      the rook beside it and keeps the target; anything else clears the target. */
  function Landing(b: Grid, ep: Option<Square>, part: int, pMove: int, c: Square, n: Square): (r: (Grid, Option<Square>))
    requires WellFormed(b) && InBounds(n) && IsSide(pMove) && (ep.Some? ==> InBounds(ep.value))
    requires part == 6 * pMove && n.x - c.x == 2 ==> n.x == 6
    requires part == 6 * pMove && n.x - c.x == -2 ==> n.x == 2
    ensures WellFormed(r.0) && (r.1.Some? ==> InBounds(r.1.value))
  {
    if (part == 1 && n.y == 4) || (part == -1 && n.y == 3) then
      (b, Some(Sq(n.x, if part == 1 then n.y + 1 else n.y - 1)))
    else if part == 6 * pMove && n.x - c.x == 2 then
      (Put(Put(b, Sq(n.x - 1, n.y), 4 * pMove), Sq(n.x + 1, n.y), 0), ep)
    else if part == 6 * pMove && n.x - c.x == -2 then
      (Put(Put(b, Sq(n.x + 1, n.y), 4 * pMove), Sq(n.x - 2, n.y), 0), ep)
    else
      (b, None)
  }

  /** The board after the en passant removal of `move`, which runs before anything else:
      a pawn moving onto the target clears the square beside its origin row. */
  function EnPassantCleared(g: Game, c: Square, n: Square): (r: Grid)
    requires Valid(g) && InBounds(c) && InBounds(n) && Shape(g, c, n)
    ensures WellFormed(r)
  {
    if Some(n) == g.enPassant && Abs(At(g.board, c)) == 1 then Put(g.board, Sq(n.x, n.y + g.pMove), 0)
    else g.board
  }

  function Count(t: map<string, nat>, h: string): nat { if h in t then t[h] else 0 }

  /** The state before the side flip: board, log, en passant target and rights updated. */
  function Placed(g: Game, cur: string, next: string, c: Square, n: Square): (r: Game)
    requires Valid(g) && InBounds(c) && InBounds(n) && Shape(g, c, n)
    requires |cur| > 0 && |next| > 0
    ensures Valid(r)
    ensures r.pMove == g.pMove && r.epdTable == g.epdTable
  {
    var part := At(g.board, c);
    var b1 := EnPassantCleared(g, c, n);
    var entry := LogEntry(g.(board := b1), part, cur, next, c, n, None);
    var landed := Landing(b1, g.enPassant, part, g.pMove, c, n);
    g.(board := Put(Put(landed.0, c, 0), n, part),
       log := g.log + [entry],
       enPassant := landed.1,
       castling := CastlingAfter(g.castling, part, g.pMove, c))
  }

  /** `move(cur_pos, next_pos)`: False with nothing changed when `valid_move` rejects the
      decoded squares; otherwise True, with the move applied, the descriptor of the new
      position (still showing the mover as side to move) counted once more, and the side
      flipped. */
  function Move(g: Game, cur: string, next: string): (r: (bool, Game))
    requires Valid(g)
    ensures Valid(r.1)
    ensures r.0 == ValidMove(g, BoardToArray(cur), BoardToArray(next))
    ensures !r.0 ==> r.1 == g
  {
    var cp, np := BoardToArray(cur), BoardToArray(next);
    if !ValidMove(g, cp, np) then (false, g)
    else
      MoveGeometry(g, cp.value, np.value);
      (true, Commit(g, Placed(g, cur, next, cp.value, np.value)))
  }

  /** The end of `move`: count the descriptor of the placed position, then flip the side. */
  function Commit(g: Game, p: Game): (r: Game)
    requires Valid(p) && p.pMove == g.pMove
    ensures Valid(r)
  {
    p.(epdTable := g.epdTable[EPDHash(p) := Count(g.epdTable, EPDHash(p)) + 1], pMove := -g.pMove)
  }

  // ---------------------------------------------------------------- properties of move

  /** The descriptor only depends on the board, the side, the rights and the target. */
  lemma HashReadsPosition(g: Game, h: Game)
    requires Valid(g) && Valid(h)
    requires g.board == h.board && g.pMove == h.pMove && g.castling == h.castling && g.enPassant == h.enPassant
    ensures EPDHash(g) == EPDHash(h)
  {
  }

  /** The side letter sits right after the placement field, so two positions that differ
      only in the side to move have different descriptors. */
  lemma HashShowsSide(g: Game)
    requires Valid(g)
    ensures EPDHash(g)[|Placement(g.board)| + 1] == SideLetter(g.pMove)[0]
    ensures EPDHash(g) != EPDHash(g.(pMove := -g.pMove))
  {
    var h := g.(pMove := -g.pMove);
    var i := |Placement(g.board)| + 1;
    assert EPDHash(h)[i] == SideLetter(h.pMove)[0];
  }

  /** The name of a decoded square has no check mark in it. */
  lemma DecodedNoMark(cord: string)
    requires BoardToArray(cord).Some?
    ensures |cord| == 2 && '+' !in cord
  {
  }

  /** A move `move` accepts appends exactly one log entry, which has no check mark; it
      counts the descriptor of the new position written with the mover still shown as the
      side to move, once more than before; it flips the side; it updates the rights as
      `CastlingAfter` says; and it leaves the initial descriptor and the escape cache alone.
      The key counted differs from the descriptor of the resulting game. */
  lemma MoveEffects(g: Game, cur: string, next: string)
    requires Valid(g) && Move(g, cur, next).0
    ensures BoardToArray(cur).Some? && BoardToArray(next).Some?
    ensures var r := Move(g, cur, next).1;
      |r.log| == |g.log| + 1 && r.log[..|g.log|] == g.log && '+' !in r.log[|g.log|]
    ensures Move(g, cur, next).1.pMove == -g.pMove
    ensures var c := BoardToArray(cur).value;
      Move(g, cur, next).1.castling == CastlingAfter(g.castling, At(g.board, c), g.pMove, c)
    ensures Move(g, cur, next).1.initPos == g.initPos && Move(g, cur, next).1.cEscape == g.cEscape
  {
    var c, n := BoardToArray(cur).value, BoardToArray(next).value;
    MoveIsPlaced(g, cur, next);
    var p := Placed(g, cur, next, c, n);
    PlacedEffects(g, cur, next, c, n);
    CommitEffects(g, p);
  }

  /** The descriptor of a game with the side that has just moved shown as the side to
      move: the key `move` counts. */
  function MoverKey(r: Game): string
    requires Valid(r)
  {
    EPDHash(r.(pMove := -r.pMove))
  }

  lemma CommitEffects(g: Game, p: Game)
    requires Valid(p) && p.pMove == g.pMove
    ensures var r := Commit(g, p);
      && r.board == p.board && r.log == p.log && r.castling == p.castling && r.enPassant == p.enPassant
      && r.initPos == p.initPos && r.cEscape == p.cEscape
      && r.pMove == -g.pMove
      && MoverKey(r) == EPDHash(p)
      && r.epdTable == g.epdTable[MoverKey(r) := Count(g.epdTable, MoverKey(r)) + 1]
      && MoverKey(r) != EPDHash(r)
  {
    var r := Commit(g, p);
    HashReadsPosition(p, r.(pMove := -r.pMove));
    HashShowsSide(r);
  }

  /** A move `move` accepts is `Placed` followed by the count and the side flip. */
  lemma MoveIsPlaced(g: Game, cur: string, next: string)
    requires Valid(g) && Move(g, cur, next).0
    ensures BoardToArray(cur).Some? && BoardToArray(next).Some?
    ensures Shape(g, BoardToArray(cur).value, BoardToArray(next).value)
    ensures Move(g, cur, next).1 == Commit(g, Placed(g, cur, next, BoardToArray(cur).value, BoardToArray(next).value))
  {
    MoveGeometry(g, BoardToArray(cur).value, BoardToArray(next).value);
  }

  lemma PlacedEffects(g: Game, cur: string, next: string, c: Square, n: Square)
    requires Valid(g) && InBounds(c) && InBounds(n) && Shape(g, c, n)
    requires BoardToArray(cur) == Some(c) && BoardToArray(next) == Some(n)
    ensures var p := Placed(g, cur, next, c, n);
      && |p.log| == |g.log| + 1 && p.log[..|g.log|] == g.log && '+' !in p.log[|g.log|]
      && p.pMove == g.pMove
      && p.castling == CastlingAfter(g.castling, At(g.board, c), g.pMove, c)
      && p.initPos == g.initPos && p.cEscape == g.cEscape
  {
    DecodedNoMark(cur);
    DecodedNoMark(next);
  }

  /** What `move` does to the board: the piece lands on the destination and leaves its
      origin; a pawn moving onto the en passant target removes the square beside its
      origin row; a king moving two columns puts a rook of its side on the square it
      passed over and empties the corner beyond (h-file king side, a-file queen side);
      every other square keeps its piece. */
  lemma MoveBoard(g: Game, cur: string, next: string)
    requires Valid(g) && Move(g, cur, next).0
    ensures BoardToArray(cur).Some? && BoardToArray(next).Some?
    ensures var b, c, n := Move(g, cur, next).1.board, BoardToArray(cur).value, BoardToArray(next).value;
      var part, p := At(g.board, c), g.pMove;
      var passant := Some(n) == g.enPassant && Abs(part) == 1;
      var kingSide := part == 6 * p && n.x - c.x == 2;
      var queenSide := part == 6 * p && n.x - c.x == -2;
      forall s :: InBounds(s) ==>
        At(b, s) == (
          if s == n then part
          else if s == c then 0
          else if kingSide && s == Sq(5, n.y) then 4 * p
          else if kingSide && s == Sq(7, n.y) then 0
          else if queenSide && s == Sq(3, n.y) then 4 * p
          else if queenSide && s == Sq(0, n.y) then 0
          else if passant && s == Sq(n.x, n.y + p) then 0
          else At(g.board, s))
  {
    var c, n := BoardToArray(cur).value, BoardToArray(next).value;
    MoveIsPlaced(g, cur, next);
    CommitEffects(g, Placed(g, cur, next, c, n));
    PlacedBoard(g, cur, next, c, n);
  }

  /** The board before the side flip, square by square. */
  lemma PlacedBoard(g: Game, cur: string, next: string, c: Square, n: Square)
    requires Valid(g) && InBounds(c) && InBounds(n) && Shape(g, c, n)
    requires |cur| > 0 && |next| > 0
    ensures var b := Placed(g, cur, next, c, n).board;
      var part, p := At(g.board, c), g.pMove;
      var passant := Some(n) == g.enPassant && Abs(part) == 1;
      var kingSide := part == 6 * p && n.x - c.x == 2;
      var queenSide := part == 6 * p && n.x - c.x == -2;
      forall s :: InBounds(s) ==>
        At(b, s) == (
          if s == n then part
          else if s == c then 0
          else if kingSide && s == Sq(5, n.y) then 4 * p
          else if kingSide && s == Sq(7, n.y) then 0
          else if queenSide && s == Sq(3, n.y) then 4 * p
          else if queenSide && s == Sq(0, n.y) then 0
          else if passant && s == Sq(n.x, n.y + p) then 0
          else At(g.board, s))
  {
  }

  /** The en passant target after `move`: set behind a pawn that lands on row 4 (white)
      or row 3 (black), however far it moved; kept by a castling king; cleared by
      anything else. */
  lemma MoveEnPassant(g: Game, cur: string, next: string)
    requires Valid(g) && Move(g, cur, next).0
    ensures BoardToArray(cur).Some? && BoardToArray(next).Some?
    ensures var r, c, n := Move(g, cur, next).1, BoardToArray(cur).value, BoardToArray(next).value;
      var part := At(g.board, c);
      r.enPassant ==
        if part == 1 && n.y == 4 then Some(Sq(n.x, 5))
        else if part == -1 && n.y == 3 then Some(Sq(n.x, 2))
        else if part == 6 * g.pMove && (n.x - c.x == 2 || n.x - c.x == -2) then g.enPassant
        else None
  {
    var c, n := BoardToArray(cur).value, BoardToArray(next).value;
    MoveGeometry(g, c, n);
  }

  /** A single white pawn step from row 5 to row 4 sets the en passant target too. */
  lemma SinglePushSetsTarget(g: Game, cur: string, next: string)
    requires Valid(g) && Move(g, cur, next).0
    requires BoardToArray(cur) == Some(Sq(3, 5)) && BoardToArray(next) == Some(Sq(3, 4))
    requires At(g.board, Sq(3, 5)) == 1
    ensures Move(g, cur, next).1.enPassant == Some(Sq(3, 5))
  {
    MoveEnPassant(g, cur, next);
  }

  /** Rights only ever fall. A king move clears both of the mover's rights, a rook move
      clears exactly one of them, any other move none; the other side's rights are kept. */
  lemma CastlingOnlyFalls(r: Rights, part: int, pMove: int, c: Square)
    requires IsSide(pMove) && part * pMove > 0
    ensures var r' := CastlingAfter(r, part, pMove, c);
      && NoneGained(r', r)
      && (pMove == 1 ==> r'.bk == r.bk && r'.bq == r.bq)
      && (pMove == -1 ==> r'.wk == r.wk && r'.wq == r.wq)
      && (Abs(part) == 6 && pMove == 1 ==> !r'.wk && !r'.wq)
      && (Abs(part) == 6 && pMove == -1 ==> !r'.bk && !r'.bq)
      && (Abs(part) == 4 && pMove == 1 ==> (!r'.wk && r'.wq == r.wq) || (!r'.wq && r'.wk == r.wk))
      && (Abs(part) == 4 && pMove == -1 ==> (!r'.bk && r'.bq == r.bq) || (!r'.bq && r'.bk == r.bk))
      && (Abs(part) != 4 && Abs(part) != 6 ==> r' == r)
  {
  }

  /** Any white rook move that does not start on a1 clears the white king-side right, not
      only one from h1 (and likewise for black with a8). */
  lemma RookAnywhereClearsKingSide(r: Rights, c: Square)
    ensures c != Sq(0, 7) ==> !CastlingAfter(r, 4, 1, c).wk && CastlingAfter(r, 4, 1, c).wq == r.wq
    ensures c != Sq(0, 0) ==> !CastlingAfter(r, -4, -1, c).bk && CastlingAfter(r, -4, -1, c).bq == r.bq
  {
  }

  // ---------------------------------------------------------------- pawn promotion

  /** The piece class `getattr(Chess, name)` finds: its kind, or None where `Chess` has
      no such class and the lookup raises. */
  function ClassKind(name: string): (r: Option<int>)
    ensures r.Some? ==> 1 <= r.value <= 6 && ClassName(r.value) == name
    ensures forall k :: 1 <= k <= 6 && ClassName(k) == name ==> r == Some(k)
  {
    if name == "Pawn" then Some(1) else if name == "Knight" then Some(2)
    else if name == "Bishop" then Some(3) else if name == "Rook" then Some(4)
    else if name == "Queen" then Some(5) else if name == "King" then Some(6)
    else None
  }

  /** The name of the piece class of a kind, as in `parts`. */
  function ClassName(kind: int): string
    requires 1 <= kind <= 6
  {
    ["Pawn", "Knight", "Bishop", "Rook", "Queen", "King"][kind - 1]
  }

  /** The answers the prompt of `pawn_promotion()` accepts, in any case: the letter or the
      name of one of the four pieces a pawn may become. */
  predicate Accepted(answer: string) {
    LowerStr(answer) in {"q", "b", "n", "r", "queen", "bishop", "knight", "rook"}
  }

  /** `n_part` once the prompt has accepted an answer: a name longer than one character is
      replaced by the notation of the class it names after `capitalize()`. */
  function PromptLetter(answer: string): (r: string)
    requires Accepted(answer)
    ensures Promotes(r) && 2 <= PromotedKind(r) <= 5
    ensures |answer| == 1 ==> r == answer
    ensures |answer| > 1 ==> ClassKind(Capitalized(answer)) == Some(PromotedKind(r))
  {
    if |answer| > 1 then
      AcceptedName(answer);
      var k := ClassKind(Capitalized(answer)).value;
      NotationLetter(k);
      Notation(k)
    else
      AcceptedLetter(answer);
      answer
  }

  /** The four accepted names, in lower case, by kind. */
  function PieceName(kind: int): string
    requires 2 <= kind <= 5
  {
    if kind == 2 then "knight" else if kind == 3 then "bishop" else if kind == 4 then "rook" else "queen"
  }

  /** The class name of a kind a pawn may become is its accepted name capitalised. */
  lemma ClassNameCase(kind: int)
    requires 2 <= kind <= 5
    ensures LowerStr(ClassName(kind)) == PieceName(kind)
    ensures Capitalized(PieceName(kind)) == ClassName(kind)
  {
    var name, word := ClassName(kind), PieceName(kind);
    assert |name| == |word| && Upper(word[0]) == name[0] && Lower(name[0]) == word[0];
    assert forall i :: 1 <= i < |name| ==> name[i] == word[i] && IsLower(word[i]);
    assert LowerStr(name) == word;
    assert LowerStr(word[1..]) == name[1..];
  }

  /** An accepted name longer than one character names the class of a knight, bishop,
      rook or queen once capitalised. */
  lemma AcceptedName(answer: string)
    requires Accepted(answer) && |answer| > 1
    ensures ClassKind(Capitalized(answer)).Some?
    ensures 2 <= ClassKind(Capitalized(answer)).value <= 5
  {
    NameCapitalized(answer);
    var w := LowerStr(answer);
    var kind := if w == "knight" then 2 else if w == "bishop" then 3 else if w == "rook" then 4 else 5;
    ClassNameCase(kind);
    assert w == PieceName(kind);
  }

  /** An accepted single character is the letter of a knight, bishop, rook or queen. */
  lemma AcceptedLetter(answer: string)
    requires Accepted(answer) && |answer| <= 1
    ensures Promotes(answer) && 2 <= PromotedKind(answer) <= 5
  {
    assert |LowerStr(answer)| == |answer|;
    assert Lower(answer[0]) == LowerStr(answer)[0];
  }

  /** The notation of a knight, bishop, rook or queen is a letter for that kind. */
  lemma NotationLetter(kind: int)
    requires 2 <= kind <= 5
    ensures Promotes(Notation(kind)) && PromotedKind(Notation(kind)) == kind
  {
    assert Lower(Upper(KindLetter(kind))) == KindLetter(kind);
  }

  /** Capitalising a name ignores the case it was typed in. */
  lemma NameCapitalized(s: string)
    requires |s| > 0
    ensures Capitalized(s) == Capitalized(LowerStr(s))
  {
    assert LowerStr(s[1..]) == LowerStr(LowerStr(s)[1..]);
    assert Upper(s[0]) == Upper(Lower(s[0]));
  }

  /** `pawn_promotion` gets past `self.notation[str(n_part).lower()]`: the argument is a
      single piece letter, in either case. */
  predicate Promotes(nPart: string) {
    |nPart| == 1 && KindOf(Lower(nPart[0])).Some?
  }

  /** The kind the pawn becomes: the kind of the letter, in either case. */
  function PromotedKind(nPart: string): (r: int)
    requires Promotes(nPart)
    ensures 1 <= r <= 6 && KindLetter(r) == Lower(nPart[0])
  {
    KindOf(Lower(nPart[0])).value
  }

  /** The letter appended to the log entry after "=": `str(n_part).upper()`. */
  function PromotedMark(nPart: string): (r: char)
    requires Promotes(nPart)
    ensures r == Upper(KindLetter(PromotedKind(nPart)))
  {
    assert Upper(Lower(nPart[0])) == Upper(nPart[0]);
    Upper(nPart[0])
  }

  /** The square `pawn_promotion` reads from a log entry: the text after its last 'x',
      once check marks are removed, decoded as a square name. */
  function PromotionTarget(entry: string): (r: Option<Square>)
    ensures r.Some? ==> InBounds(r.value)
  {
    var parts := Split(Without(entry, '+'), 'x');
    BoardToArray(parts[|parts| - 1])
  }

  /** `pawn_promotion(n_part)` with the piece given: the lookup in `notation` raises
      unless the argument is one piece letter (a name is not replaced on this path, and
      "k" and "p" are keys too), the read of the last log entry raises on an empty log; then False, with nothing changed, when the entry does not end in a square
      name; otherwise True, with that square given the named piece in the colour of the
      side now to move and "=" and the upper-case letter appended to the entry. */
  function PawnPromotion(g: Game, nPart: string): (r: (Outcome, Game))
    requires Valid(g)
    ensures Valid(r.1)
    ensures r.0 == Raised <==> !Promotes(nPart) || |g.log| == 0
    ensures r.0 == Failed <==> Promotes(nPart) && |g.log| > 0 && PromotionTarget(g.log[|g.log| - 1]).None?
    ensures r.0 != Succeeded ==> r.1 == g
    ensures r.0 == Succeeded ==>
      var s, last := PromotionTarget(g.log[|g.log| - 1]).value, |g.log| - 1;
      && At(r.1.board, s) == PromotedKind(nPart) * g.pMove
      && (forall t :: InBounds(t) && t != s ==> At(r.1.board, t) == At(g.board, t))
      && |r.1.log| == |g.log| && r.1.log[..last] == g.log[..last]
      && r.1.log[last] == g.log[last] + ['=', PromotedMark(nPart)]
      && r.1.(board := g.board, log := g.log) == g
  {
    var key := LowerStr(nPart);
    if |key| != 1 || KindOf(key[0]).None? then (Raised, g)
    else if |g.log| == 0 then (Raised, g)
    else
      assert "=" + UpperStr(nPart) == ['=', Upper(nPart[0])];
      var part := KindOf(key[0]).value * g.pMove;
      var last := |g.log| - 1;
      match PromotionTarget(g.log[last])
      case None => (Failed, g)
      case Some(s) => (Succeeded, g.(board := Put(g.board, s, part), log := g.log[last := g.log[last] + "=" + UpperStr(nPart)]))
  }

  /** `pawn_promotion()` with the piece asked for: the prompt repeats until an answer is
      accepted, a name is replaced by its notation, and the promotion goes on as with that
      letter given; only an empty log then raises, and the piece is a knight, bishop, rook
      or queen. */
  function PromptPromotion(g: Game, answer: string): (r: (Outcome, Game))
    requires Valid(g) && Accepted(answer)
    ensures Valid(r.1)
    ensures r.0 == Raised <==> |g.log| == 0
    ensures r.0 == Failed <==> |g.log| > 0 && PromotionTarget(g.log[|g.log| - 1]).None?
    ensures r.0 != Succeeded ==> r.1 == g
    ensures r.0 == Succeeded ==>
      var s := PromotionTarget(g.log[|g.log| - 1]).value;
      2 <= At(r.1.board, s) * g.pMove <= 5
  {
    PawnPromotion(g, PromptLetter(answer))
  }

  /** At the prompt, a piece's name in any case promotes exactly as its letter. */
  lemma PromptByName(g: Game, name: string, kind: int)
    requires Valid(g) && 2 <= kind <= 5 && LowerStr(name) == LowerStr(ClassName(kind))
    ensures Accepted(name) && Accepted([KindLetter(kind)])
    ensures PromptPromotion(g, name) == PromptPromotion(g, [KindLetter(kind)])
  {
    var l := [KindLetter(kind)];
    assert LowerStr(l) == l;
    ClassNameCase(kind);
    assert |name| > 1;
    NameCapitalized(name);
    assert Capitalized(name) == ClassName(kind);
    NotationLetter(kind);
    SameLetter(g, Notation(kind), l);
  }

  /** Two one-character arguments with the same lower and upper case promote alike. */
  lemma SameLetter(g: Game, a: string, b: string)
    requires Valid(g) && |a| == 1 && |b| == 1
    requires Lower(a[0]) == Lower(b[0]) && Upper(a[0]) == Upper(b[0])
    ensures PawnPromotion(g, a) == PawnPromotion(g, b)
  {
    assert LowerStr(a) == LowerStr(b);
    assert UpperStr(a) == UpperStr(b);
  }

  /** The entry `move` logs for a pawn ends in the name of its destination, and is "x"
      free before it except for the capture mark, so `pawn_promotion` finds that square. */
  lemma PawnEntryTarget(g: Game, part: int, cur: string, next: string, c: Square, n: Square)
    requires Valid(g) && Abs(part) == 1 && InBounds(c)
    requires BoardToArray(cur) == Some(c) && BoardToArray(next) == Some(n)
    ensures PromotionTarget(LogEntry(g, part, cur, next, c, n, None)) == Some(n)
  {
    var entry := LogEntry(g, part, cur, next, c, n, None);
    var tail := LowerStr(next);
    assert 'x' !in tail && '+' !in tail && BoardToArray(tail) == Some(n) by {
      BoardToArrayExact(next, n);
      BoardToArrayExact(tail, n);
    }
    SplitNoSeparator(tail, 'x');
    if Takes(g, part, n) {
      assert entry == [cur[0]] + ['x'] + tail;
      WithoutAbsent(entry, '+');
      SplitAfterPart([cur[0]], 'x', tail);
    } else {
      assert entry == tail;
      WithoutAbsent(entry, '+');
    }
  }

  /** After `move` accepts a pawn move, `pawn_promotion` with a piece letter succeeds and
      places that piece, in the colour of the side now to move, on the pawn's destination. */
  lemma PromotionAfterPawnMove(g: Game, cur: string, next: string, nPart: string)
    requires Valid(g) && Move(g, cur, next).0 && Promotes(nPart)
    requires BoardToArray(cur).Some? && Abs(At(g.board, BoardToArray(cur).value)) == 1
    ensures BoardToArray(next).Some?
    ensures var r := Move(g, cur, next).1;
      var q := PawnPromotion(r, nPart);
      && q.0 == Succeeded
      && At(q.1.board, BoardToArray(next).value) == PromotedKind(nPart) * -g.pMove
  {
    var c, n := BoardToArray(cur).value, BoardToArray(next).value;
    MoveIsPlaced(g, cur, next);
    var p := Placed(g, cur, next, c, n);
    PlacedLast(g, cur, next, c, n);
    PawnEntryTarget(g.(board := EnPassantCleared(g, c, n)), At(g.board, c), cur, next, c, n);
    CommitEffects(g, p);
  }

  /** The entry `Placed` appends is the one `log_move` writes on the board after the en
      passant removal. */
  lemma PlacedLast(g: Game, cur: string, next: string, c: Square, n: Square)
    requires Valid(g) && InBounds(c) && InBounds(n) && Shape(g, c, n)
    requires BoardToArray(cur) == Some(c) && BoardToArray(next) == Some(n)
    ensures var p := Placed(g, cur, next, c, n);
      |p.log| == |g.log| + 1 && p.log[|g.log|] == LogEntry(g.(board := EnPassantCleared(g, c, n)), At(g.board, c), cur, next, c, n, None)
  {
  }
}
