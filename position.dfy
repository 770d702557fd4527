/** The game record of the `Chess` class as a value: every field the rules engine reads
    or writes. Deep copies in the source (`deepcopy(self)`) are plain value copies here. */
module Position {
  import opened Text
  import opened Board

  /** The four 0/1 entries of `castling`: white king side, white queen side, black king
      side, black queen side (indices 0..3). */
  datatype Rights = Rights(wk: bool, wq: bool, bk: bool, bq: bool)

  const AllRights := Rights(true, true, true, true)

  /** No flag is set in r unless it is also set in s. */
  predicate NoneGained(r: Rights, s: Rights) {
    (r.wk ==> s.wk) && (r.wq ==> s.wq) && (r.bk ==> s.bk) && (r.bq ==> s.bq)
  }

  datatype Game = Game(
    board: Grid,                          // board[row][col]
    pMove: int,                           // side to move: 1 white, -1 black
    castling: Rights,
    enPassant: Option<Square>,
    log: seq<string>,                     // one notation string per accepted move
    epdTable: map<string, nat>,           // descriptor -> number of times stored
    cEscape: map<Square, seq<Square>>,    // check escapes per origin square
    initPos: string)                      // the descriptor the game was reset to

  /** What every reachable game satisfies: a well-formed board, a side of ±1, an en
      passant target on the board, and no empty log entry. */
  predicate Valid(g: Game) {
    && WellFormed(g.board)
    && (g.pMove == 1 || g.pMove == -1)
    && (g.enPassant.Some? ==> InBounds(g.enPassant.value))
    && (forall i :: 0 <= i < |g.log| ==> |g.log[i]| > 0)
  }
}
