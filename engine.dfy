/** The `Chess` class itself: the game record as fields that its methods update in
    place, each method proved against the value-level function that models it. */
module Engine {
  import opened Text
  import opened Board
  import opened Position
  import opened Descriptor
  import opened Rules
  import opened Listing
  import opened Terminal
  import opened Evaluation
  import Search

  /** Stands for whatever the fields held before `reset` ran: `reset` overwrites every
      field except the escape cache, which the constructor has set to {} just before. */
  const Blank := Game(Empty(), 1, AllRights, None, [], map[], map[], "")

  class Chess {
    var board: Grid
    var pMove: int
    var castling: Rights
    var enPassant: Option<Square>
    var log: seq<string>
    var epdTable: map<string, nat>
    var cEscape: map<Square, seq<Square>>
    var initPos: string

    /** The fields as a game value. */
    function State(): Game
      reads this
    {
      Game(board, pMove, castling, enPassant, log, epdTable, cEscape, initPos)
    }

    /** The object invariant: the game value is well formed, and the escape cache is
        empty, since the class only ever assigns it {} (in `__init__` and at the start
        of `is_checkmate`). */
    predicate Valid()
      reads this
    {
      Position.Valid(State()) && cEscape == map[]
    }

    /** `__init__(EPD)`: an empty escape cache, then `reset(EPD)`. */
    constructor(epd: string)
      ensures Valid()
      ensures State() == Descriptor.Reset(Blank, epd).1
    {
      cEscape := map[];
      new;
      var _ := Reset(epd);
    }

    /** `reset(EPD)`: every field but the escape cache cleared, then `load_EPD(EPD)`. */
    method Reset(epd: string) returns (o: Outcome)
      modifies this
      ensures (o, State()) == Descriptor.Reset(old(State()), epd)
    {
      log := [];
      initPos := epd;
      epdTable := map[];
      pMove := 1;
      castling := AllRights;
      enPassant := None;
      board := Empty();
      assert State() == Cleared(old(State()), epd);
      o := LoadEPD(epd);
    }

    /** `load_EPD(EPD)`: the ranks written one after the other, stopping at the first
        that raises, then the side, castling and en passant fields. */
    method LoadEPD(epd: string) returns (o: Outcome)
      requires Position.Valid(State())
      modifies this
      ensures (o, State()) == Descriptor.LoadEPD(old(State()), epd)
    {
      var data := Split(epd, ' ');
      if |data| != 4 {
        return Failed;
      }
      var ranks := Split(data[0], '/');
      ghost var placed := ParseRanks(board, 0, ranks);
      var x := 0;
      while x < |ranks|
        invariant 0 <= x <= |ranks|
        invariant WellFormed(board)
        invariant ParseRanks(board, x, ranks[x..]) == placed
        invariant State() == old(State()).(board := board)
      {
        assert ranks[x..][0] == ranks[x] && ranks[x..][1..] == ranks[x + 1..];
        var row := ParseRank(RowOf(board, x), 0, ranks[x]);
        if x < 8 {
          board := board[x := row.0];
        }
        if !row.1 {
          return Raised;
        }
        x := x + 1;
      }
      pMove := if data[1] == "w" then 1 else -1;
      castling := Rights('K' in data[2], 'Q' in data[2], 'k' in data[2], 'q' in data[2]);
      enPassant := if data[3] == "-" then None else BoardToArray(data[3]);
      return Succeeded;
    }

    /** `log_move(part, cur_cord, next_cord, cur_pos, next_pos, n_part)`: appends the
        notation of the move to the log and changes nothing else. */
    method LogMove(part: int, curCord: string, nextCord: string, c: Square, n: Square, nPart: Option<string>)
      requires Position.Valid(State()) && IsPiece(part) && part != 0 && InBounds(n)
      requires |curCord| > 0 && |nextCord| > 0
      modifies this
      ensures log == old(log) + [LogEntry(old(State()), part, curCord, nextCord, c, n, nPart)]
      ensures State() == old(State()).(log := log)
    {
      var entry;
      if part == 6 * pMove && n.x - c.x == 2 {
        entry := "0-0";
      } else if part == 6 * pMove && n.x - c.x == -2 {
        entry := "0-0-0";
      } else if part == pMove && nPart.Some? {
        entry := LowerStr(nextCord) + "=" + UpperStr(nPart.value);
      } else {
        entry := Notation(Abs(part));
        if At(board, n) != 0 || (Some(n) == enPassant && Abs(part) == 1) {
          entry := entry + (if entry != "" then "x" else [curCord[0], 'x']);
        }
        entry := entry + LowerStr(nextCord);
      }
      assert entry == LogEntry(State(), part, curCord, nextCord, c, n, nPart);
      log := log + [entry];
    }

    /** `move(cur_pos, next_pos)`: nothing changes unless `valid_move` accepts the decoded
        squares; then the steps of the source in their order. */
    method Move(cur: string, next: string) returns (ok: bool)
      requires Valid()
      modifies this
      ensures Valid()
      ensures (ok, State()) == Rules.Move(old(State()), cur, next)
    {
      var cp, np := BoardToArray(cur), BoardToArray(next);
      if !ValidMove(State(), cp, np) {
        return false;
      }
      ghost var g := State();
      var c, n := cp.value, np.value;
      MoveGeometry(g, c, n);
      Place(cur, next, c, n);
      CountAndFlip(g);
      MoveIsPlaced(g, cur, next);
      return true;
    }

    /** The end of `move`: the descriptor of the position counted once more in the
        repetition table, then the side to move flipped. The game g before the move has
        the same table and side. */
    method CountAndFlip(ghost g: Game)
      requires Position.Valid(State()) && g.epdTable == epdTable && g.pMove == pMove
      modifies this
      ensures State() == Commit(g, old(State()))
    {
      var hash := EPDHash(State());
      epdTable := epdTable[hash := Count(epdTable, hash) + 1];
      pMove := -pMove;
    }

    /** The part of `move` before the repetition count: the en passant capture, the log
        entry, then the landing of the piece and the castling rights. */
    method Place(cur: string, next: string, c: Square, n: Square)
      requires Valid() && InBounds(c) && InBounds(n) && Shape(State(), c, n)
      requires |cur| > 0 && |next| > 0
      modifies this
      ensures State() == Placed(old(State()), cur, next, c, n)
    {
      var part := At(board, c);
      CaptureEnPassant(c, n);
      LogMove(part, cur, next, c, n, None);
      Land(part, c, n);
    }

    /** The first step of `move`: a pawn moving onto the en passant target removes the
        pawn beside its origin row. */
    method CaptureEnPassant(c: Square, n: Square)
      requires Position.Valid(State()) && InBounds(c) && InBounds(n) && Shape(State(), c, n)
      modifies this
      ensures State() == old(State()).(board := EnPassantCleared(old(State()), c, n))
    {
      var part := At(board, c);
      if Some(n) == enPassant && Abs(part) == 1 {
        board := Put(board, Sq(n.x, n.y + pMove), 0);
      }
    }

    /** The steps of `move` after the log entry: the en passant target and a castling
        rook, the castling rights, and the piece lifted from c and put on n. */
    method Land(part: int, c: Square, n: Square)
      requires Position.Valid(State()) && InBounds(c) && InBounds(n) && IsPiece(part)
      requires part == 6 * pMove && n.x - c.x == 2 ==> n.x == 6
      requires part == 6 * pMove && n.x - c.x == -2 ==> n.x == 2
      modifies this
      ensures var landed := Landing(old(board), old(enPassant), part, old(pMove), c, n);
        State() == old(State()).(board := Put(Put(landed.0, c, 0), n, part), enPassant := landed.1,
                                 castling := CastlingAfter(old(castling), part, old(pMove), c))
    {
      var landed := Landing(board, enPassant, part, pMove, c, n);
      board, enPassant := landed.0, landed.1;
      castling := CastlingAfter(castling, part, pMove, c);
      board := Put(Put(board, c, 0), n, part);
    }

    /** `pawn_promotion(n_part)`: with no piece given (`nPart` None), the answer the
        prompt accepted, a name replaced by its notation; then the lookup of the letter,
        the read of the last entry and the placement of the piece. */
    method PawnPromotion(nPart: Option<string>, answer: string) returns (o: Outcome)
      requires Valid() && (nPart.None? ==> Accepted(answer))
      modifies this
      ensures Valid()
      ensures nPart.Some? ==> (o, State()) == Rules.PawnPromotion(old(State()), nPart.value)
      ensures nPart.None? ==> (o, State()) == Rules.PromptPromotion(old(State()), answer)
    {
      ghost var want := Rules.PawnPromotion(State(), if nPart.None? then PromptLetter(answer) else nPart.value);
      var n: string;
      if nPart.None? {
        n := PromptLetter(answer);
      } else {
        n := nPart.value;
      }
      var key := LowerStr(n);
      if |key| != 1 || KindOf(key[0]).None? || |log| == 0 {
        return Raised;
      }
      assert "=" + UpperStr(n) == ['=', Upper(n[0])];
      var part := KindOf(key[0]).value * pMove;
      var last := |log| - 1;
      var pos := PromotionTarget(log[last]);
      if pos.None? {
        return Failed;
      }
      board := Put(board, pos.value, part);
      log := log[last := log[last] + "=" + UpperStr(n)];
      assert State() == want.1;
      return Succeeded;
    }

    /** `possible_board_moves(capture)`: the nested loops over the rows and the cells,
        an entry for every occupied square in the order visited. */
    method PossibleBoardMoves(capture: bool) returns (moves: Table)
      requires Position.Valid(State())
      ensures moves == Listing.PossibleBoardMoves(State(), capture)
    {
      var g := State();
      moves := [];
      var y := 0;
      ghost var i := 0;
      while y < 8
        invariant 0 <= y <= 8 && i == 8 * y
        invariant Completes(g, capture, moves, i)
      {
        var x := 0;
        while x < 8
          invariant 0 <= x <= 8 && i == 8 * y + x
          invariant Completes(g, capture, moves, i)
        {
          moves, i := AddCell(g, capture, moves, x, y, i);
          x := x + 1;
        }
        y := y + 1;
      }
      ListComplete(g, capture, moves);
    }

    /** The body of the inner loop of `possible_board_moves` at column x of row y (index
        i): the entry for an occupied square, keyed by its label, added to the table. */
    static method AddCell(g: Game, capture: bool, moves: Table, x: nat, y: nat, ghost i: nat)
      returns (r: Table, ghost next: nat)
      requires Position.Valid(g) && x < 8 && y < 8 && i == 8 * y + x
      requires Completes(g, capture, moves, i)
      ensures next == i + 1 && Completes(g, capture, r, next)
    {
      var s := Sq(x, y);
      ListStep(g, capture, moves, ListFrom(g, capture, 0), i, x, y);
      next := i + 1;
      r := moves;
      if At(g.board, s) != 0 {
        r := r + [(Label(s, Colour(At(g.board, s))), Entry(g, capture, s))];
      }
    }

    /** `is_checkmate(moves)`, counting every tried move as an escape candidate as
        written, or with `accepted` only the moves `move` accepts: the escape cache cleared, the first king of the side to move looked up, the check
        test, then every listed destination of the side to move tried on a copy. */
    method IsCheckmate(moves: Table, accepted: bool) returns (v: Verdict)
      requires Valid() && WellTable(moves)
      modifies this
      ensures Valid() && State() == old(State())
      ensures v == Checkmate(State(), moves, accepted)
    {
      cEscape := map[];
      var g := State();
      var kp := FindKing();
      if kp.None? {
        return OtherSideWins(pMove);
      }
      var k := kp.value;
      if !AttackedBy(g, k, -pMove) {
        return Ongoing;
      }
      var found := SearchEscape(g, k, moves, accepted);
      v := if found then Ongoing else OtherSideWins(pMove);
    }

    /** The outer loop of the escape search of `is_checkmate`: the entries of the side to
        move, in table order, until one lists an escape. */
    static method SearchEscape(g: Game, k: Square, moves: Table, accepted: bool) returns (found: bool)
      requires Position.Valid(g) && InBounds(k) && WellTable(moves)
      ensures found == EscapeFound(g, k, moves, accepted)
    {
      var e := 0;
      while e < |moves|
        invariant 0 <= e <= |moves|
        invariant !EscapeBefore(g, k, moves, e, accepted)
      {
        EscapeBeforeStep(g, k, moves, e, accepted);
        if OwnKey(g, moves[e].0) {
          found := EntryEscapes(g, k, moves[e].0, moves[e].1, accepted);
          if found {
            EscapeBeforeFound(g, k, moves, e + 1, accepted);
            return;
          }
        }
        e := e + 1;
      }
      EscapeBeforeFound(g, k, moves, e, accepted);
      found := false;
    }

    /** The inner loop of the escape search: each destination of one entry tried on a
        copy, until one leaves the king unattacked (and, with `accepted`, is accepted). */
    static method EntryEscapes(g: Game, k: Square, key: string, dests: seq<Square>, accepted: bool) returns (found: bool)
      requires Position.Valid(g) && InBounds(k)
      requires forall j :: 0 <= j < |dests| ==> InBounds(dests[j])
      ensures found == DestEscapeBefore(g, k, key, dests, |dests|, accepted)
    {
      var j := 0;
      while j < |dests|
        invariant 0 <= j <= |dests|
        invariant !DestEscapeBefore(g, k, key, dests, j, accepted)
      {
        DestEscapeBeforeStep(g, k, key, dests, j, accepted);
        if Escapes(g, k, key, dests[j], accepted) {
          DestEscapeAt(g, k, key, dests, j, accepted);
          return true;
        }
        j := j + 1;
      }
      return false;
    }

    /** The king search that opens `is_checkmate`: the first square in row-major order
        holding the king of the side to move. */
    method FindKing() returns (kp: Option<Square>)
      requires Position.Valid(State())
      ensures kp == Find(board, 6 * pMove)
    {
      var y := 0;
      while y < 8
        invariant 0 <= y <= 8
        invariant forall t :: InBounds(t) && t.y < y ==> At(board, t) != 6 * pMove
      {
        var x := 0;
        while x < 8
          invariant 0 <= x <= 8
          invariant forall t :: InBounds(t) && (t.y < y || (t.y == y && t.x < x)) ==> At(board, t) != 6 * pMove
        {
          if board[y][x] == 6 * pMove {
            assert At(board, Sq(x, y)) == 6 * pMove;
            ghost var f := Find(board, 6 * pMove).value;
            assert NotBefore(f, x, y) && NotBefore(Sq(x, y), f.x, f.y);
            assert f == Sq(x, y);
            return Some(Sq(x, y));
          }
          x := x + 1;
        }
        y := y + 1;
      }
      return None;
    }

    /** `evaluate_position()`: the score summed over the nested loops. */
    method EvaluatePosition() returns (score: int)
      requires Position.Valid(State())
      ensures score == Evaluate(board)
    {
      score := 0;
      var y := 0;
      while y < 8
        invariant 0 <= y <= 8
        invariant score == RowsWorth(board[..y])
      {
        var x := 0;
        while x < 8
          invariant 0 <= x <= 8
          invariant score == RowsWorth(board[..y]) + RowWorth(board[y][..x])
        {
          var piece := board[y][x];
          RowWorthAppend(board[y][..x], piece);
          assert board[y][..x + 1] == board[y][..x] + [piece];
          if piece != 0 {
            var multiplier := if piece > 0 then 1 else -1;
            score := score + PieceValue(Abs(piece)) * multiplier;
          }
          x := x + 1;
        }
        assert board[y][..8] == board[y];
        RowsWorthAppend(board[..y], board[y]);
        assert board[..y + 1] == board[..y] + [board[y]];
        y := y + 1;
      }
      assert board[..8] == board;
    }

    /** `is_dead_position(moves)`: the pieces collected in the order visited, giving up
        as soon as there are more than four. */
    method IsDeadPosition() returns (dead: bool)
      requires Position.Valid(State())
      ensures dead == Terminal.IsDeadPosition(State())
    {
      ghost var cells := Cells(board);
      var pieces := [];
      var y := 0;
      while y < 8
        invariant 0 <= y <= 8
        invariant pieces == Pieces(cells[..8 * y])
      {
        var x := 0;
        while x < 8
          invariant 0 <= x <= 8
          invariant pieces == Pieces(cells[..8 * y + x])
        {
          assert cells[8 * y + x] == At(board, Sq(x, y));
          assert cells[..8 * y + x + 1] == cells[..8 * y + x] + [board[y][x]];
          PiecesAppend(cells[..8 * y + x], [board[y][x]]);
          if board[y][x] != 0 {
            pieces := pieces + [board[y][x]];
          }
          if |pieces| > 4 {
            PiecesAppend(cells[..8 * y + x + 1], cells[8 * y + x + 1..]);
            assert cells[..8 * y + x + 1] + cells[8 * y + x + 1..] == cells;
            DeadPiecesExact(Pieces(cells));
            return false;
          }
          x := x + 1;
        }
        y := y + 1;
      }
      assert cells[..64] == cells;
      return DeadPieces(pieces);
    }

    /** `is_draw(moves, hash)`, the claim prompts answered by `claimFifty` and
        `claimThree`: the rules tried in the source's order. */
    method IsDraw(moves: Table, hash: string, claimFifty: bool, claimThree: bool) returns (d: bool)
      requires Position.Valid(State())
      ensures d == Terminal.IsDraw(State(), moves, hash, claimFifty, claimThree)
    {
      if IsStalemate(State(), moves) {
        return true;
      }
      var dead := IsDeadPosition();
      if dead {
        return true;
      }
      return SeventyFiveMoveRule(State()) || FiveFoldRule(State(), hash)
        || FiftyMoveRule(State(), Some(claimFifty)) == Some(true) || ThreeFoldRule(State(), hash, claimThree);
    }

    /** `is_end()`: the scan for both kings, then the move table, the checkmate test (as
        written or corrected) and the draw rules. */
    method IsEnd(claimFifty: bool, claimThree: bool, asWritten: bool) returns (v: Verdict)
      requires Valid()
      modifies this
      ensures Valid() && State() == old(State())
      ensures v == Terminal.IsEnd(State(), claimFifty, claimThree, asWritten)
    {
      ghost var cells := Cells(board);
      var wKing, bKing := false, false;
      var y := 0;
      while y < 8
        invariant 0 <= y <= 8
        invariant wKing <==> 6 in cells[..8 * y]
        invariant bKing <==> -6 in cells[..8 * y]
      {
        var x := 0;
        while x < 8
          invariant 0 <= x <= 8
          invariant wKing <==> 6 in cells[..8 * y + x]
          invariant bKing <==> -6 in cells[..8 * y + x]
        {
          assert cells[8 * y + x] == At(board, Sq(x, y));
          assert cells[..8 * y + x + 1] == cells[..8 * y + x] + [board[y][x]];
          if board[y][x] == -6 {
            bKing := true;
          } else if board[y][x] == 6 {
            wKing := true;
          }
          x := x + 1;
        }
        y := y + 1;
      }
      assert cells[..64] == cells;
      HoldsCells(board, 6);
      HoldsCells(board, -6);
      if !wKing && !bKing {
        return Draw;
      } else if !wKing {
        return BlackWins;
      } else if !bKing {
        return WhiteWins;
      }
      var moves := PossibleBoardMoves(true);
      var mate := IsCheckmate(moves, !asWritten);
      var hash := EPDHash(State());
      if mate != Ongoing {
        return mate;
      }
      var draw := IsDraw(moves, hash, claimFifty, claimThree);
      return if draw then Draw else Ongoing;
    }

    /** `get_alpha_beta_move(depth)`: the move the (corrected) search prefers, a move of
        the side to move that `move` accepts, or the pair "No move". */
    method GetAlphaBetaMove(depth: nat) returns (choice: (string, string))
      requires Valid()
      ensures choice == Search.GetAlphaBetaMove(State(), depth, false)
      ensures choice != ("No move", "No move") ==> OwnKey(State(), choice.0) && Rules.Move(State(), choice.0, choice.1).0
    {
      choice := Search.GetAlphaBetaMove(State(), depth, false);
      Search.SuggestionIsLegal(State(), depth, false);
    }
  }
}
