/** A back-rank mate that `is_checkmate` as written misses: white king g1 behind its
    pawns f2, g2 and h2, black rook a1, black king a8, white to move. White has no move
    `move` accepts, so the position is checkmate. The table lists the king's step to h1;
    the step is rejected, so the copy keeps the king on g1, where it blocks the rook's
    ray: h1 looks unattacked and the rejected step counts as an escape. */
module Witness {
  import opened Text
  import opened Board
  import opened Position
  import opened Movement
  import opened Rules
  import opened Listing
  import opened Terminal

  const G1 := Sq(6, 7)
  const H1 := Sq(7, 7)
  const A1 := Sq(0, 7)
  const A8 := Sq(0, 0)
  const F2 := Sq(5, 6)
  const G2 := Sq(6, 6)
  const H2 := Sq(7, 6)

  /** What stands on each square in the witness position. */
  function Cell(s: Square): int {
    if s == G1 then 6 else if s == A1 then -4 else if s == A8 then -6
    else if s == F2 || s == G2 || s == H2 then 1 else 0
  }

  /** The board holds the witness position. */
  ghost predicate Pictured(b: Grid)
    requires WellFormed(b)
  {
    forall s :: InBounds(s) ==> At(b, s) == Cell(s)
  }

  function Corner(): (b: Grid)
    ensures WellFormed(b) && Pictured(b)
  {
    Put(Put(Put(Put(Put(Put(Empty(), G1, 6), A1, -4), A8, -6), F2, 1), G2, 1), H2, 1)
  }

  function Start(): (g: Game)
    ensures Valid(g) && Pictured(g.board) && g.pMove == 1 && g.enPassant.None? && g.log == []
  {
    Game(Corner(), 1, Rights(false, false, false, false), None, [], map[], map[], "")
  }

  const East := Dir(1, 0)

  /** Along the first rank from a1 every square up to distance c - 1 is empty, on the
      given board, up to the one named. */
  lemma RankClear(b: Grid, c: int)
    requires WellFormed(b) && 1 <= c <= 7
    requires forall j :: 1 <= j < c ==> At(b, Sq(j, 7)) == 0
    ensures ClearPath(b, A1, East, c)
  {
    forall j | 1 <= j < c ensures InBounds(Step(A1, East, j)) && At(b, Step(A1, East, j)) == 0 {
      assert Step(A1, East, j) == Sq(j, 7);
    }
  }

  /** A black rook on a1 reaches the square at distance c along the first rank when the
      squares before it are empty and it is empty or white. */
  lemma EastRay(g: Game, c: int, m: Square)
    requires WellFormed(g.board) && 1 <= c <= 7 && m == Sq(c, 7)
    requires ClearPath(g.board, A1, East, c) && Open(g.board, -1, m)
    ensures m in SliderMoves(g, -1, A1, RookDirs, true)
  {
    assert 0 <= 2 < |RookDirs| && RookDirs[2] == East;
    assert m == Step(A1, East, c);
    SliderCaptureRays(g, -1, A1, RookDirs, m);
  }

  /** On a board whose only white king stands on the first rank, with the black rook on
      a1 and the squares between them empty, that king is attacked: white's king is not
      safe. */
  lemma RankMate(t: Game, k: Square)
    requires WellFormed(t.board) && InBounds(k) && k.y == 7 && 1 <= k.x
    requires At(t.board, A1) == -4 && At(t.board, k) == 6
    requires forall j :: 1 <= j < k.x ==> At(t.board, Sq(j, 7)) == 0
    requires forall s :: InBounds(s) && s != k ==> At(t.board, s) != 6
    ensures Find(t.board, 6) == Some(k) && AttackedBy(t, k, -1) && !KingSafe(t, 1)
  {
    OnlyKing(t.board, k);
    RankClear(t.board, k.x);
    EastRay(t, k.x, k);
    RookAttacks(t, A1, k, -1);
  }

  /** A square holding the only white king is the one the king search finds. */
  lemma OnlyKing(b: Grid, k: Square)
    requires WellFormed(b) && InBounds(k) && At(b, k) == 6
    requires forall s :: InBounds(s) && s != k ==> At(b, s) != 6
    ensures Find(b, 6) == Some(k)
  {
  }

  /** The king search finds the white king on g1, and the rook on a1 attacks it. */
  lemma InCheck(g: Game)
    requires Valid(g) && Pictured(g.board)
    ensures Find(g.board, 6) == Some(G1) && AttackedBy(g, G1, -1)
  {
    RankMate(g, G1);
  }

  /** White has no move `valid_move` accepts: the king's steps to f1 and h1 leave it on
      the rook's open rank, and a pawn push leaves the first rank as it was. */
  lemma NoMove(g: Game, c: Square, n: Square)
    requires Valid(g) && Pictured(g.board) && g.pMove == 1 && g.enPassant.None?
    requires InBounds(c) && InBounds(n)
    ensures !ValidMove(g, Some(c), Some(n))
  {
    if At(g.board, c) > 0 {
      if c == G1 {
        KingStuck(g, n);
      } else {
        PawnStuck(g, c, n);
      }
    }
  }

  /** Each step the king's generator offers leaves the king attacked. */
  lemma KingStuck(g: Game, n: Square)
    requires Valid(g) && Pictured(g.board) && InBounds(n)
    ensures n in Destinations(g, 6, 1, G1, true, true) ==> !KingSafe(g.(board := Shifted(g.board, G1, n)), 1)
  {
    if n in Destinations(g, 6, 1, G1, true, true) {
      DestinationsByKind(g, 6, 1, G1, true, true);
      KingOptions(g, n);
      KingExposed(g, n);
    }
  }

  /** After the king's step to f1 or h1 the simulated board leaves it alone on the rook's
      open rank. */
  lemma KingExposed(g: Game, n: Square)
    requires Valid(g) && Pictured(g.board) && n.y == 7 && (n.x == 5 || n.x == 7)
    ensures !KingSafe(g.(board := Shifted(g.board, G1, n)), 1)
  {
    var t := g.(board := Shifted(g.board, G1, n));
    assert forall s :: InBounds(s) ==> At(t.board, s) == (if s == G1 then 0 else if s == n then 6 else Cell(s));
    RankMate(t, n);
  }

  /** The king on g1 may only step along the first rank: its pawns hold the second. */
  lemma KingOptions(g: Game, n: Square)
    requires Valid(g) && Pictured(g.board) && InBounds(n)
    requires n in KingMoves(g, 1, G1, true)
    ensures n.y == 7 && (n.x == 5 || n.x == 7)
  {
  }

  /** Each push the generator offers a pawn leaves the first rank as it was. */
  lemma PawnStuck(g: Game, c: Square, n: Square)
    requires Valid(g) && Pictured(g.board) && g.enPassant.None?
    requires InBounds(c) && InBounds(n) && At(g.board, c) == 1
    ensures n in Destinations(g, 1, 1, c, true, true) ==> !KingSafe(g.(board := Shifted(g.board, c, n)), 1)
  {
    if n in Destinations(g, 1, 1, c, true, true) {
      DestinationsByKind(g, 1, 1, c, true, true);
      PawnMovesExact(g, 1, c, n);
      PawnExposed(g, c, n);
    }
  }

  /** A pawn move off the second rank leaves the king on g1 alone on the rook's open
      rank. */
  lemma PawnExposed(g: Game, c: Square, n: Square)
    requires Valid(g) && Pictured(g.board) && InBounds(c) && InBounds(n)
    requires c.y == 6 && n.y < 6 && At(g.board, c) == 1
    ensures !KingSafe(g.(board := Shifted(g.board, c, n)), 1)
  {
    var t := g.(board := Shifted(g.board, c, n));
    assert forall s :: InBounds(s) ==> At(t.board, s) == (if s == c then 0 else if s == n then 1 else Cell(s));
    RankMate(t, G1);
  }

  /** On the unchanged board the king on g1 shields h1: neither black piece reaches it. */
  lemma ShadowedSquare(g: Game)
    requires Valid(g) && Pictured(g.board)
    ensures !AttackedBy(g, H1, -1)
  {
    forall x, y | 0 <= x < 8 && 0 <= y < 8 ensures !AttacksFrom(g, Sq(x, y), H1, -1) {
      if Sq(x, y) == A1 {
        RookBlocked(g);
      } else if Sq(x, y) == A8 {
        KingTooFar(g);
      } else {
        Quiet(g, Sq(x, y));
      }
    }
  }

  /** A square without a black piece attacks nothing for black. */
  lemma Quiet(g: Game, s: Square)
    requires WellFormed(g.board) && InBounds(s) && At(g.board, s) >= 0
    ensures !AttacksFrom(g, s, H1, -1)
  {
  }

  /** The rook's ray along the first rank stops at the king on g1. */
  lemma RookBlocked(g: Game)
    requires WellFormed(g.board) && At(g.board, A1) == -4 && At(g.board, G1) == 6
    ensures !AttacksFrom(g, A1, H1, -1)
  {
    RookReach(g, A1, H1, -1);
    SliderCaptureRays(g, -1, A1, RookDirs, H1);
    forall k, c | 0 <= k < 4 && 1 <= c <= 7 && H1 == Step(A1, RookDirs[k], c)
      ensures !ClearPath(g.board, A1, RookDirs[k], c)
    {
      RayToH1(k, c);
      Shield(g.board, c);
    }
  }

  /** A piece on g1 ends every clear stretch of the first rank from a1 before h1. */
  lemma Shield(b: Grid, c: int)
    requires WellFormed(b) && At(b, G1) != 0 && 1 <= c <= 7
    ensures ClearPath(b, A1, East, c) ==> c <= 6
  {
    assert Step(A1, East, 6) == G1;
  }

  /** From a1 only the eastward ray reaches h1, at distance 7. */
  lemma RayToH1(k: int, c: int)
    requires 0 <= k < 4 && 1 <= c <= 7 && Step(A1, RookDirs[k], c) == H1
    ensures RookDirs[k] == East && c == 7
  {
  }

  /** The black king on a8 is not next to h1. */
  lemma KingTooFar(g: Game)
    requires Valid(g) && Pictured(g.board)
    ensures !AttacksFrom(g, A8, H1, -1)
  {
    DestinationsByKind(g, -6, -1, A8, true, true);
    assert H1 !in KingMoves(g, -1, A8, true);
  }

  /** The rejected step counts as an escape as written, and not once only accepted
      moves count. */
  lemma StepEscapes(g: Game, key: string)
    requires Valid(g) && Pictured(g.board) && g.pMove == 1 && g.enPassant.None?
    requires BoardToArray(key) == Some(G1)
    ensures Escapes(g, G1, key, H1, false)
    ensures !Escapes(g, G1, key, H1, true)
  {
    assert SquareName(H1) == "h1" && BoardToArray("h1") == Some(H1);
    NoMove(g, G1, H1);
    ShadowedSquare(g.(pMove := -1));
  }

  /** With only accepted moves counted, no table offers white an escape: black wins,
      whatever table the test is given. */
  lemma Mated(g: Game, moves: Table)
    requires Valid(g) && Pictured(g.board) && g.pMove == 1 && g.enPassant.None?
    requires WellTable(moves)
    ensures IsCheckmate(g, moves) == BlackWins
  {
    InCheck(g);
    forall e, j | 0 <= e < |moves| && 0 <= j < |moves[e].1|
      ensures !Escapes(g, G1, moves[e].0, moves[e].1[j], true)
    {
      var cp, np := BoardToArray(moves[e].0), BoardToArray(SquareName(moves[e].1[j]));
      if cp.Some? && np.Some? {
        NoMove(g, cp.value, np.value);
      }
    }
  }

  /** `possible_board_moves(True)` has an entry of white's for the king on g1 that lists
      the step to h1. */
  lemma KingEntry(g: Game) returns (e: nat, j: nat)
    requires Valid(g) && Pictured(g.board) && g.pMove == 1 && g.log == []
    ensures var moves := PossibleBoardMoves(g, true);
      && e < |moves| && OwnKey(g, moves[e].0) && BoardToArray(moves[e].0) == Some(G1)
      && j < |moves[e].1| && moves[e].1[j] == H1
  {
    e := Listed(g, G1);
    StepListed(g);
    var dests := PossibleBoardMoves(g, true)[e].1;
    j :| 0 <= j < |dests| && dests[j] == H1;
  }

  /** The table has the entry of every occupied square: its label and its destinations. */
  lemma Listed(g: Game, s: Square) returns (e: nat)
    requires Valid(g) && InBounds(s) && At(g.board, s) != 0
    ensures var moves := PossibleBoardMoves(g, true);
      e < |moves| && moves[e] == (Label(s, Colour(At(g.board, s))), Entry(g, true, s))
  {
    var moves := PossibleBoardMoves(g, true);
    e := ListFromComplete(g, true, 0, s);
    ListFromSound(g, true, 0);
    assert Sound(g, true, moves[e]);
  }

  /** The king's listed destinations, unfiltered with nothing in the log, include h1. */
  lemma StepListed(g: Game)
    requires Valid(g) && Pictured(g.board) && g.log == []
    ensures H1 in Entry(g, true, G1)
  {
    UnfilteredWithoutCheck(g, true, G1);
    DestinationsByKind(g, 6, 1, G1, true, false);
    assert H1 in KingMoves(g, 1, G1, false);
  }

  /** On the table `possible_board_moves(True)` builds, the test as written finds the
      rejected step and answers that the game goes on. */
  lemma AsWrittenGoesOn(g: Game)
    requires Valid(g) && Pictured(g.board) && g.pMove == 1 && g.enPassant.None? && g.log == []
    ensures CheckmateAsWritten(g, PossibleBoardMoves(g, true)) == Ongoing
  {
    var e, j := KingEntry(g);
    ListedStep(g, PossibleBoardMoves(g, true), e, j);
  }

  /** Any table with an entry of white's for g1 listing h1 makes the test as written
      answer that the game goes on. */
  lemma ListedStep(g: Game, moves: Table, e: nat, j: nat)
    requires Valid(g) && Pictured(g.board) && g.pMove == 1 && g.enPassant.None?
    requires WellTable(moves) && e < |moves| && j < |moves[e].1|
    requires OwnKey(g, moves[e].0) && BoardToArray(moves[e].0) == Some(G1) && moves[e].1[j] == H1
    ensures CheckmateAsWritten(g, moves) == Ongoing
  {
    InCheck(g);
    StepEscapes(g, moves[e].0);
    FoundAt(g, G1, moves, e, j);
  }

  /** An escape at one destination of an entry of the side to move is found. */
  lemma FoundAt(g: Game, k: Square, moves: Table, e: nat, j: nat)
    requires Valid(g) && InBounds(k) && WellTable(moves) && e < |moves| && j < |moves[e].1|
    requires OwnKey(g, moves[e].0) && Escapes(g, k, moves[e].0, moves[e].1[j], false)
    ensures EscapeFound(g, k, moves, false)
  {
  }

  /** In the witness position, on the table `possible_board_moves(True)` builds, the test
      as written answers that the game goes on, while the corrected test answers that
      black wins. */
  lemma MissedMate()
    ensures CheckmateAsWritten(Start(), PossibleBoardMoves(Start(), true)) == Ongoing
    ensures IsCheckmate(Start(), PossibleBoardMoves(Start(), true)) == BlackWins
  {
    AsWrittenGoesOn(Start());
    Mated(Start(), PossibleBoardMoves(Start(), true));
  }
}
