/** The end-of-game tests: `is_checkmate`, the draw rules, `is_draw` and `is_end`.
    The interactive prompts of the claimable draws are replaced by the answer given. */
module Terminal {
  import opened Text
  import opened Board
  import opened Position
  import opened Movement
  import opened Descriptor
  import opened Rules
  import opened Listing

  /** The three-element lists the source returns: [1, 0, 0] white wins, [0, 1, 0] draw,
      [0, 0, 1] black wins, [0, 0, 0] the game goes on. */
  datatype Verdict = Ongoing | WhiteWins | Draw | BlackWins

  function AsList(v: Verdict): (r: seq<int>)
    ensures |r| == 3 && (r[0] + r[1] + r[2] > 0 <==> v != Ongoing)
  {
    match v
    case Ongoing => [0, 0, 0]
    case WhiteWins => [1, 0, 0]
    case Draw => [0, 1, 0]
    case BlackWins => [0, 0, 1]
  }

  /** The win for the side that is not to move. */
  function OtherSideWins(pMove: int): Verdict { if pMove == 1 then BlackWins else WhiteWins }

  /** The key belongs to the side to move: upper case for white, lower case for black. */
  predicate OwnKey(g: Game, key: string) {
    |key| > 0 && ((g.pMove == 1 && IsUpper(key[0])) || (g.pMove == -1 && IsLower(key[0])))
  }

  // ---------------------------------------------------------------- checkmate

  /** One trial of the escape loop of `is_checkmate`: `move` on a copy, the side flipped
      back, and the king's square (its destination when the king itself moved) tested
      against every opposing generator on the copy. As written the move need not have
      been accepted; with `accepted` set only an accepted move counts. */
  predicate Escapes(g: Game, k: Square, key: string, m: Square, accepted: bool)
    requires Valid(g) && InBounds(k) && InBounds(m)
  {
    var t := Move(g, key, SquareName(m));
    var temp := t.1.(pMove := -t.1.pMove);
    var newK := if BoardToArray(key) == Some(k) then m else k;
    (!accepted || t.0) && !AttackedBy(temp, newK, -g.pMove)
  }

  /** The escape loop of `is_checkmate`: some entry of the side to move lists a
      destination that escapes. The loop stops at the first one; the answer is the same. */
  predicate EscapeFound(g: Game, k: Square, moves: Table, accepted: bool)
    requires Valid(g) && InBounds(k) && WellTable(moves)
  {
    exists e, j :: 0 <= e < |moves| && 0 <= j < |moves[e].1| && OwnKey(g, moves[e].0)
                   && Escapes(g, k, moves[e].0, moves[e].1[j], accepted)
  }

  /** Some entry before index e escapes: the outer escape loop, e entries in. */
  predicate EscapeBefore(g: Game, k: Square, moves: Table, e: nat, accepted: bool)
    requires Valid(g) && InBounds(k) && WellTable(moves) && e <= |moves|
  {
    exists i, j :: 0 <= i < e && 0 <= j < |moves[i].1| && OwnKey(g, moves[i].0)
                   && Escapes(g, k, moves[i].0, moves[i].1[j], accepted)
  }

  /** Some destination of one entry before index j escapes: the inner loop, j in. */
  predicate DestEscapeBefore(g: Game, k: Square, key: string, dests: seq<Square>, j: nat, accepted: bool)
    requires Valid(g) && InBounds(k) && j <= |dests|
    requires forall d :: 0 <= d < |dests| ==> InBounds(dests[d])
  {
    exists d :: 0 <= d < j && Escapes(g, k, key, dests[d], accepted)
  }

  /** One more entry searched: an escape among the first e + 1 entries is one among the
      first e or one listed by entry e, when that entry is of the side to move. */
  lemma EscapeBeforeStep(g: Game, k: Square, moves: Table, e: nat, accepted: bool)
    requires Valid(g) && InBounds(k) && WellTable(moves) && e < |moves|
    ensures EscapeBefore(g, k, moves, e + 1, accepted) <==>
      || EscapeBefore(g, k, moves, e, accepted)
      || (OwnKey(g, moves[e].0) && DestEscapeBefore(g, k, moves[e].0, moves[e].1, |moves[e].1|, accepted))
  {
    if EscapeBefore(g, k, moves, e + 1, accepted) && !EscapeBefore(g, k, moves, e, accepted) {
      var i, j :| 0 <= i < e + 1 && 0 <= j < |moves[i].1| && OwnKey(g, moves[i].0)
                  && Escapes(g, k, moves[i].0, moves[i].1[j], accepted);
      assert i == e;
    }
    if OwnKey(g, moves[e].0) && DestEscapeBefore(g, k, moves[e].0, moves[e].1, |moves[e].1|, accepted) {
      var d :| 0 <= d < |moves[e].1| && Escapes(g, k, moves[e].0, moves[e].1[d], accepted);
      assert EscapeBefore(g, k, moves, e + 1, accepted);
    }
  }

  /** One more destination tried. */
  lemma DestEscapeBeforeStep(g: Game, k: Square, key: string, dests: seq<Square>, j: nat, accepted: bool)
    requires Valid(g) && InBounds(k) && j < |dests|
    requires forall d :: 0 <= d < |dests| ==> InBounds(dests[d])
    ensures DestEscapeBefore(g, k, key, dests, j + 1, accepted) <==>
      DestEscapeBefore(g, k, key, dests, j, accepted) || Escapes(g, k, key, dests[j], accepted)
  {
  }

  /** An escape found among the first e + 1 entries is found in the whole table. */
  lemma EscapeBeforeFound(g: Game, k: Square, moves: Table, e: nat, accepted: bool)
    requires Valid(g) && InBounds(k) && WellTable(moves) && e <= |moves|
    ensures EscapeBefore(g, k, moves, e, accepted) ==> EscapeFound(g, k, moves, accepted)
    ensures e == |moves| ==> (EscapeBefore(g, k, moves, e, accepted) <==> EscapeFound(g, k, moves, accepted))
  {
  }

  /** An escape at destination j is one among the first j + 1 and among them all. */
  lemma DestEscapeAt(g: Game, k: Square, key: string, dests: seq<Square>, j: nat, accepted: bool)
    requires Valid(g) && InBounds(k) && j < |dests|
    requires forall d :: 0 <= d < |dests| ==> InBounds(dests[d])
    requires Escapes(g, k, key, dests[j], accepted)
    ensures DestEscapeBefore(g, k, key, dests, |dests|, accepted)
  {
  }

  /** `is_checkmate(moves)`: no king of the side to move is a win for the other side; a
      king not attacked means the game goes on; otherwise the game goes on exactly when
      some listed move of the side to move escapes, and else the other side wins. */
  function Checkmate(g: Game, moves: Table, accepted: bool): (v: Verdict)
    requires Valid(g) && WellTable(moves)
    ensures Find(g.board, 6 * g.pMove).None? ==> v == OtherSideWins(g.pMove)
    ensures v == Ongoing || v == OtherSideWins(g.pMove)
  {
    match Find(g.board, 6 * g.pMove)
    case None => OtherSideWins(g.pMove)
    case Some(k) =>
      if !AttackedBy(g, k, -g.pMove) then Ongoing
      else if EscapeFound(g, k, moves, accepted) then Ongoing
      else OtherSideWins(g.pMove)
  }

  /** `is_checkmate` as the source writes it: a move `move` rejects still counts as an
      escape when the king's intended square is unattacked on the unchanged board. */
  function CheckmateAsWritten(g: Game, moves: Table): (v: Verdict)
    requires Valid(g) && WellTable(moves)
    ensures v == Checkmate(g, moves, false)
  {
    Checkmate(g, moves, false)
  }

  /** `is_checkmate` with only accepted moves counted as escapes. */
  function IsCheckmate(g: Game, moves: Table): (v: Verdict)
    requires Valid(g) && WellTable(moves)
    ensures v == Checkmate(g, moves, true)
  {
    Checkmate(g, moves, true)
  }

  /** The corrected test in full: with a king on the board and under attack, the side to
      move loses exactly when every listed move of its own that `move` accepts leaves the
      king's square attacked. */
  lemma CheckmateExact(g: Game, moves: Table)
    requires Valid(g) && WellTable(moves)
    requires Find(g.board, 6 * g.pMove).Some?
    ensures var k := Find(g.board, 6 * g.pMove).value;
      IsCheckmate(g, moves) != Ongoing <==>
        && AttackedBy(g, k, -g.pMove)
        && forall e, j :: 0 <= e < |moves| && 0 <= j < |moves[e].1| && OwnKey(g, moves[e].0)
                          ==> !Escapes(g, k, moves[e].0, moves[e].1[j], true)
  {
  }

  /** Counting only accepted moves can only remove escapes: whenever the test as written
      declares a win, so does the corrected one. */
  lemma CorrectedFindsEveryWin(g: Game, moves: Table)
    requires Valid(g) && WellTable(moves)
    ensures CheckmateAsWritten(g, moves) != Ongoing ==> IsCheckmate(g, moves) == CheckmateAsWritten(g, moves)
  {
  }

  // ---------------------------------------------------------------- draws

  /** `is_stalemate(moves)`: no entry of the side to move lists a destination. */
  predicate IsStalemate(g: Game, moves: Table) {
    forall k :: 0 <= k < |moves| && OwnKey(g, moves[k].0) ==> |moves[k].1| == 0
  }

  /** On the table of `possible_board_moves`, stalemate means no piece of the side to
      move has a destination. */
  lemma StalemateOnBoard(g: Game, capture: bool)
    requires Valid(g)
    ensures IsStalemate(g, PossibleBoardMoves(g, capture)) <==>
              forall s :: InBounds(s) && At(g.board, s) * g.pMove > 0 ==> |Entry(g, capture, s)| == 0
  {
    PossibleBoardMovesExact(g, capture);
    StalemateOnTable(g, capture, PossibleBoardMoves(g, capture));
  }

  lemma StalemateOnTable(g: Game, capture: bool, r: Table)
    requires Valid(g) && Describes(g, capture, r)
    ensures IsStalemate(g, r) <==>
              forall s :: InBounds(s) && At(g.board, s) * g.pMove > 0 ==> |Entry(g, capture, s)| == 0
  {
    if IsStalemate(g, r) {
      forall s | InBounds(s) && At(g.board, s) * g.pMove > 0 ensures |Entry(g, capture, s)| == 0 {
        var k :| 0 <= k < |r| && BoardToArray(r[k].0) == Some(s);
        assert Sound(g, capture, r[k]);
        assert OwnKey(g, r[k].0);
      }
    }
    if forall s :: InBounds(s) && At(g.board, s) * g.pMove > 0 ==> |Entry(g, capture, s)| == 0 {
      forall k | 0 <= k < |r| && OwnKey(g, r[k].0) ensures |r[k].1| == 0 {
        assert Sound(g, capture, r[k]);
        var s := BoardToArray(r[k].0).value;
        assert At(g.board, s) * g.pMove > 0;
      }
    }
  }

  /** The non-empty cells in the order the nested loops visit them. */
  function Pieces(cells: seq<int>): (r: seq<int>)
    ensures forall v :: v in r <==> v in cells && v != 0
    ensures |r| <= |cells|
  {
    if cells == [] then [] else (if cells[0] != 0 then [cells[0]] else []) + Pieces(cells[1..])
  }

  /** Collecting the pieces of two stretches of cells one after the other. */
  lemma {:induction false} PiecesAppend(s: seq<int>, t: seq<int>)
    ensures Pieces(s + t) == Pieces(s) + Pieces(t)
  {
    if s == [] {
      assert s + t == t;
    } else {
      assert (s + t)[1..] == s[1..] + t;
      PiecesAppend(s[1..], t);
      var h: seq<int> := if s[0] != 0 then [s[0]] else [];
      assert Pieces(s + t) == h + (Pieces(s[1..]) + Pieces(t));
      assert h + (Pieces(s[1..]) + Pieces(t)) == (h + Pieces(s[1..])) + Pieces(t);
    }
  }

  /** The test of `is_dead_position` on the list of pieces: two kings alone, or two kings
      and one bishop or knight of either colour. */
  predicate DeadPieces(a: seq<int>) {
    && |a| <= 4
    && (|| (|a| == 2 && -6 in a && 6 in a)
        || (|a| == 3 && ((-6 in a && 3 in a && 6 in a) || (-6 in a && -3 in a && 6 in a)))
        || (|a| == 3 && ((-6 in a && 2 in a && 6 in a) || (-6 in a && -2 in a && 6 in a))))
  }

  /** `is_dead_position(moves)` */
  predicate IsDeadPosition(g: Game)
    requires WellFormed(g.board)
  {
    DeadPieces(Pieces(Cells(g.board)))
  }

  /** The pieces on the board are, as a multiset, exactly two kings, or two kings and one
      bishop or knight; more than four pieces is never a dead position. */
  lemma DeadPiecesExact(a: seq<int>)
    ensures DeadPieces(a) <==>
      multiset(a) in {multiset{6, -6}, multiset{6, -6, 3}, multiset{6, -6, -3}, multiset{6, -6, 2}, multiset{6, -6, -2}}
    ensures |a| > 4 ==> !DeadPieces(a)
  {
    assert |multiset(a)| == |a|;
    if |a| == 2 {
      KingsAlone(a);
    } else if |a| == 3 {
      KingsAndOne(a, 3);
      KingsAndOne(a, -3);
      KingsAndOne(a, 2);
      KingsAndOne(a, -2);
    }
  }

  lemma KingsAlone(a: seq<int>)
    requires |a| == 2
    ensures (-6 in a && 6 in a) <==> multiset(a) == multiset{6, -6}
  {
    assert a == [a[0], a[1]];
    if multiset(a) == multiset{6, -6} {
      assert a[0] in multiset(a) && a[1] in multiset(a);
    }
  }

  lemma KingsAndOne(a: seq<int>, x: int)
    requires |a| == 3 && x != 6 && x != -6
    ensures (-6 in a && x in a && 6 in a) <==> multiset(a) == multiset{6, -6, x}
  {
    assert a == [a[0], a[1], a[2]];
    if multiset(a) == multiset{6, -6, x} {
      assert 6 in multiset(a) && -6 in multiset(a) && x in multiset(a);
    }
  }

  /** `for m in self.log[-n:]: if 'x' in m or m[0].islower(): return False` after the
      length test: more than n entries, and none of the last n a capture or a pawn move
      (a pawn move is logged with its lower-case file first). */
  predicate Quiet(g: Game, n: nat) {
    && |g.log| > n
    && forall i :: |g.log| - n <= i < |g.log| ==> 'x' !in g.log[i] && |g.log[i]| > 0 && !IsLower(g.log[i][0])
  }

  /** `seventy_five_move_rule(moves)` */
  predicate SeventyFiveMoveRule(g: Game) { Quiet(g, 150) }

  /** The answers the claim prompts accept, after `lower()`: y, yes, 1 claim the draw and
      n, no, 0 decline it; anything else is unsupported. */
  function Answer(choice: string): (r: Option<bool>)
    ensures r == Some(true) <==> LowerStr(choice) in {"y", "yes", "1"}
    ensures r == Some(false) <==> LowerStr(choice) in {"n", "no", "0"}
  {
    var c := LowerStr(choice);
    if c == "y" || c == "yes" || c == "1" then Some(true)
    else if c == "n" || c == "no" || c == "0" then Some(false)
    else None
  }

  /** `fifty_move_rule(moves, choice)`: False unless the last hundred entries are quiet;
      then the answer: `Answer(choice)` for a given choice (None, a falsy result, when
      unsupported), or the first supported answer to the prompt. */
  function FiftyMoveRule(g: Game, answer: Option<bool>): (r: Option<bool>)
    ensures !Quiet(g, 100) ==> r == Some(false)
    ensures Quiet(g, 100) ==> r == answer
  {
    if !Quiet(g, 100) then Some(false) else answer
  }

  /** `three_fold_rule(hash)`: the prompt is asked only when the descriptor has been
      counted exactly three times; `claim` is its answer. */
  predicate ThreeFoldRule(g: Game, hash: string, claim: bool) {
    hash in g.epdTable && g.epdTable[hash] == 3 && claim
  }

  /** `five_fold_rule(hash)` */
  predicate FiveFoldRule(g: Game, hash: string) {
    hash in g.epdTable && g.epdTable[hash] >= 5
  }

  /** The repetition rules read the count of the descriptor (absent counts as zero). */
  lemma RepetitionCounts(g: Game, hash: string, claim: bool)
    ensures FiveFoldRule(g, hash) <==> Count(g.epdTable, hash) >= 5
    ensures ThreeFoldRule(g, hash, claim) <==> Count(g.epdTable, hash) == 3 && claim
    ensures !(FiveFoldRule(g, hash) && ThreeFoldRule(g, hash, claim))
  {
  }

  /** `is_draw(moves, hash)`, the two prompts answered by `claimFifty` and `claimThree`. */
  predicate IsDraw(g: Game, moves: Table, hash: string, claimFifty: bool, claimThree: bool)
    requires Valid(g)
  {
    || IsStalemate(g, moves)
    || IsDeadPosition(g)
    || SeventyFiveMoveRule(g)
    || FiveFoldRule(g, hash)
    || FiftyMoveRule(g, Some(claimFifty)) == Some(true)
    || ThreeFoldRule(g, hash, claimThree)
  }

  /** `is_draw` on the table `is_end` passes it, through the meaning of each rule: no piece
      of the side to move has a destination, the pieces left are two kings alone or with
      one bishop or knight, 150 quiet entries, a fivefold count, 100 quiet entries with the
      fifty-move claim, or a count of exactly three with the threefold claim. */
  lemma IsDrawExact(g: Game, hash: string, claimFifty: bool, claimThree: bool)
    requires Valid(g)
    ensures IsDraw(g, PossibleBoardMoves(g, true), hash, claimFifty, claimThree) <==>
      || NoDestination(g)
      || multiset(Pieces(Cells(g.board))) in
           {multiset{6, -6}, multiset{6, -6, 3}, multiset{6, -6, -3}, multiset{6, -6, 2}, multiset{6, -6, -2}}
      || Quiet(g, 150)
      || Count(g.epdTable, hash) >= 5
      || (Quiet(g, 100) && claimFifty)
      || (Count(g.epdTable, hash) == 3 && claimThree)
  {
    StalemateOnBoard(g, true);
    DeadPiecesExact(Pieces(Cells(g.board)));
    RepetitionCounts(g, hash, claimThree);
  }

  /** No piece of the side to move has a destination on the table with captures. */
  ghost predicate NoDestination(g: Game)
    requires Valid(g)
  {
    forall s :: InBounds(s) && At(g.board, s) * g.pMove > 0 ==> |Entry(g, true, s)| == 0
  }

  /** A position that passes the seventy-five move test passes the fifty move test too,
      so a claimed fifty-move draw is available whenever the forced one is. */
  lemma SeventyFiveImpliesFifty(g: Game)
    requires SeventyFiveMoveRule(g)
    ensures Quiet(g, 100)
  {
  }

  // ---------------------------------------------------------------- end of game

  /** Some square holds v. */
  predicate Holds(b: Grid, v: int)
    requires WellFormed(b)
  {
    exists x, y | 0 <= x < 8 && 0 <= y < 8 :: At(b, Sq(x, y)) == v
  }

  /** Some square holds v exactly when v is among the cells in row-major order. */
  lemma HoldsCells(b: Grid, v: int)
    requires WellFormed(b)
    ensures Holds(b, v) <==> v in Cells(b)
  {
    var cells := Cells(b);
    if v in cells {
      var i :| 0 <= i < 64 && cells[i] == v;
      assert i == 8 * (i / 8) + i % 8;
      assert At(b, Sq(i % 8, i / 8)) == v;
    }
    if Holds(b, v) {
      var x, y :| 0 <= x < 8 && 0 <= y < 8 && At(b, Sq(x, y)) == v;
      assert cells[8 * y + x] == v;
    }
  }

  /** `is_end()`: a missing king decides at once (both missing is a draw); then the
      checkmate test on the full move table, as written or corrected as `asWritten`
      says, then the draw rules with the descriptor of the present position. */
  function IsEnd(g: Game, claimFifty: bool, claimThree: bool, asWritten: bool): (v: Verdict)
    requires Valid(g)
    ensures !Holds(g.board, 6) && !Holds(g.board, -6) ==> v == Draw
    ensures !Holds(g.board, 6) && Holds(g.board, -6) ==> v == BlackWins
    ensures Holds(g.board, 6) && !Holds(g.board, -6) ==> v == WhiteWins
  {
    var wKing, bKing := Holds(g.board, 6), Holds(g.board, -6);
    if !wKing && !bKing then Draw
    else if !wKing then BlackWins
    else if !bKing then WhiteWins
    else
      var moves := PossibleBoardMoves(g, true);
      var mate := if asWritten then CheckmateAsWritten(g, moves) else IsCheckmate(g, moves);
      Decide(mate, IsDraw(g, moves, EPDHash(g), claimFifty, claimThree))
  }

  /** The last lines of `is_end`: a checkmate verdict first, then a draw. */
  function Decide(mate: Verdict, draw: bool): Verdict {
    if mate != Ongoing then mate else if draw then Draw else Ongoing
  }

  /** With both kings on the board, a checkmate of the side to move (the test as written,
      or the corrected one) is reported before anything else, the game ends in a win only
      by such a checkmate, and otherwise ends exactly when `is_draw` holds. */
  lemma IsEndWithKings(g: Game, claimFifty: bool, claimThree: bool, asWritten: bool)
    requires Valid(g) && Holds(g.board, 6) && Holds(g.board, -6)
    ensures var moves := PossibleBoardMoves(g, true);
      var v := IsEnd(g, claimFifty, claimThree, asWritten);
      var mate := Checkmate(g, moves, !asWritten);
      && (v == WhiteWins || v == BlackWins ==> v == OtherSideWins(g.pMove) && mate == v)
      && (mate != Ongoing ==> v == mate)
      && (v == Draw <==> mate == Ongoing && IsDraw(g, moves, EPDHash(g), claimFifty, claimThree))
  {
  }

  /** The descriptor `is_end` looks up shows the side now to move, while `move` counted
      the new position under the side that moved: the count a move adds is never the
      one `is_end` reads right after it. */
  lemma EndReadsOtherKey(g: Game, cur: string, next: string)
    requires Valid(g) && Move(g, cur, next).0
    ensures var r := Move(g, cur, next).1;
      Count(r.epdTable, EPDHash(r)) == Count(g.epdTable, EPDHash(r))
  {
    var c, n := BoardToArray(cur).value, BoardToArray(next).value;
    MoveIsPlaced(g, cur, next);
    CommitEffects(g, Placed(g, cur, next, c, n));
  }
}
