# Chess rules engine — a Dafny model

This project models the rules engine of `chess_engine.py`. That is the `Chess` class
together with the `movement` generators of its nested piece classes `King`, `Queen`,
`Rook`, `Bishop`, `Knight` and `Pawn`.

The board is an 8×8 grid of signed integers: ±1 pawn, ±2 knight, ±3 bishop, ±4 rook,
±5 queen, ±6 king, positive for white. It is read as `board[row][col]`, and row 0 is
rank 8. The game record also holds:

- the side to move, `p_move` (1 white, −1 black);
- the four castling flags;
- the en passant target;
- the move log;
- the table that counts position descriptors (`EPD_table`);
- the check-escape cache `c_escape`;
- the descriptor the game was reset to.

The model has two layers.

- **Pure functions on a `Game` value.** Every `deepcopy(self)` followed by mutation in the
  source becomes a value copy. The functions are `Descriptor.LoadEPD`, `Rules.Move`,
  `Rules.PawnPromotion`, `Listing.PossibleBoardMoves`, `Terminal.IsCheckmate`,
  `Terminal.IsEnd`, `Search.AlphaBeta` and the rest.
- **The class `Engine.Chess`.** It keeps the same fields and updates them in place, as the
  source does. Each method is proved to leave exactly the state the pure function
  describes. The loops of the source (`load_EPD`, `possible_board_moves`, the escape loop
  of `is_checkmate`, `evaluate_position`, `is_dead_position`, `is_end`) are `while` loops
  with invariants.

Python exceptions are outcomes. `Outcome.Raised` stands for an exception. It carries the
partial writes made before the exception, for example the board cells `load_EPD` has
already written. The interactive `input()` prompts are parameters: the promotion piece,
and the yes/no answers to the fifty-move and threefold claims.

Modules, one per file, in dependency order:

- `Text`: the string operations used (`lower`, `upper`, `capitalize`, `split`).
- `Board`: squares, the grid and `board_2_array`.
- `Position`: the game record.
- `Descriptor`: `EPD_hash`, `load_EPD` and `reset`.
- `Movement`: the six generators.
- `Rules`: `valid_move`, `log_move`, `move` and `pawn_promotion`.
- `Listing`: `possible_board_moves`.
- `Terminal`: checkmate, the draw rules and `is_end`.
- `Evaluation`: `evaluate_position`.
- `SearchTree`: alpha-beta on an explicit game tree.
- `Search`: that tree built from a game, `alpha_beta` and `get_alpha_beta_move`.
- `Engine`: the class.
- `Witness`: a back-rank mate that `is_checkmate` as written misses.

Where the code departs from the rules of chess, the model follows the code. The cases are
these.

- A pawn landing on row 4 (white) or row 3 (black) sets the en passant target. This holds
  after a single push or a capture too, not only after a double push.
- Castling leaves the en passant target as it was instead of clearing it.
- Any white rook move that does not start from a1 clears the white king-side flag.
- `EPD_hash` writes `w` when black is to move.
- `is_stalemate` does not look at check. It holds when no entry of the side to move has a
  destination.
- `possible_board_moves` passes the origin as a list, so the king's generator never
  offers castling there. The tuple comparison with `(4, 7)` or `(4, 0)` is never true for
  a list.
- No move is ever logged with `'+'`, so the `c_escape` filter never applies.
- `pawn_promotion` reads `p_move` after `move` has flipped it. Called right after the
  pawn's move, it gives the new piece the colour of the side now to move, which is the
  opponent of the pawn's owner.
- `pawn_promotion` with a piece given looks the argument up as a single letter, in
  either case. A name such as "queen" raises; only the prompt replaces names by their
  letters. The letters "k" and "p" are accepted too.
- `move` counts the new position under the side that moved, while `is_end` looks up the
  descriptor showing the side now to move. So the count a move adds is never the one
  `is_end` reads right after it.

The two defects under "## Findings" are modelled both as written and as evidently
intended.

## Model

| member | source | states |
|---|---|---|
| Text.Split | chess_engine.py:138 | `str.split(sep)` yields at least one part, and no part contains the separator |
| Text.SplitJoin | chess_engine.py:138-140 | splitting text joined by a separator gives back the parts, provided no part contains it |
| Text.Capitalized | chess_engine.py:400 | `capitalize()` upper-cases the first character and lower-cases the rest |
| Board.BoardToArray | chess_engine.py:73-78 | a coordinate that decodes lies on the board |
| Board.BoardToArrayExact | chess_engine.py:73-78 | "xy" decodes to (col,row) exactly when it has two characters, its lower-cased first character is that column's file letter, and its second is that row's rank digit |
| Board.SquareNameRoundTrip | chess_engine.py:795 | the name written for a square (`x[col] + y[row]`) decodes back to that square and is lower case |
| Board.Find | chess_engine.py:319-328 | the king search finds the first square in row-major order holding the value, or none exactly when no square holds it |
| Board.Empty | chess_engine.py:36-43 | the reset board is well formed, with every square 0 |
| Board.Put | chess_engine.py:239-240 | writing a cell sets that cell and leaves every other cell unchanged |
| Descriptor.PieceLetterDecodes | chess_engine.py:96-104 | the letter `EPD_hash` writes for a piece is read back by `load_EPD` as the same piece, and is neither a digit nor a separator |
| Descriptor.LoadEPD | chess_engine.py:137-170 | fails exactly when the text does not split into 4 fields, and then changes nothing; a raised exception leaves only board writes; log, table and cache are never touched |
| Descriptor.ParseRankText | chess_engine.py:140-149 | reading the run-length text of a rank writes exactly that rank |
| Descriptor.ParseRanksExact | chess_engine.py:140-149 | reading all rank texts of a board reproduces the board without raising |
| Descriptor.PlacementSplits | chess_engine.py:86-108 | the placement field has no space, and splitting it on '/' gives the 8 rank texts |
| Descriptor.CastlingTextDecodes | chess_engine.py:114-124 | each castling letter occurs in the written field exactly when its flag is set |
| Descriptor.FourFields | chess_engine.py:107-129 | four space-free fields joined by spaces split back into those four fields |
| Descriptor.LoadAfterHash | chess_engine.py:85-170 | loading `EPD_hash()` succeeds and restores the board, castling flags and en passant target exactly, with the side negated |
| Descriptor.HashAfterLoad | chess_engine.py:85-170 | hashing after loading a hash reproduces the placement, castling and en passant fields, while the side letter differs |
| Descriptor.WriteZerosFills | chess_engine.py:143-146 | a digit n writes n zeros from the current column and advances the column by n |
| Descriptor.Reset | chess_engine.py:28-44 | reset empties the log and the table and records the descriptor; a descriptor without 4 fields leaves the empty board, white to move, all castling flags and no en passant target |
| Movement.KnightMovesExact | chess_engine.py:1067-1078 | the knight offers exactly the on-board (±1,±2)/(±2,±1) jumps onto empty or opponent-held squares |
| Movement.KingSteps | chess_engine.py:845-860 | the king's steps are exactly the adjacent on-board squares that are empty or opponent-held |
| Movement.KingMoves | chess_engine.py:843-865 | the king's moves are its steps plus each castling target whose gate holds (tuple origin e1/e8, two empty squares, the right's flag of the side to move set; the rook is not looked at) |
| Movement.PawnMovesExact | chess_engine.py:1100-1117 | pawn moves are exactly: one empty square ahead; two ahead from the starting row with both empty; a forward diagonal holding an opponent or equal to the en passant target |
| Movement.PawnForward | chess_engine.py:1102-1108 | a straight pawn move lands on an empty square, one row ahead, or two rows ahead only from row 6 (white) or 1 (black) over an empty square |
| Movement.LayerExact | chess_engine.py:890-940 | one distance step of the ray loop adds exactly the live rays' squares and updates the `check` flags as stated |
| Movement.SlideExact | chess_engine.py:890-941 | the ray loop collects exactly the squares its rays reach from the current distance on |
| Movement.SliderMovesExact | chess_engine.py:887-1045 | a slider offers m exactly when some ray reaches m at some distance |
| Movement.LiveWithCapture | chess_engine.py:893-896 | with `capture=True` a ray is still running at distance c exactly when every square before c is empty |
| Movement.SliderCaptureRays | chess_engine.py:887-1045 | with `capture=True`, rook, bishop and queen moves are exactly the on-board, empty or opponent-held squares whose ray is empty before them: each ray ends at, and includes, the first opponent piece |
| Movement.QueenIsRookAndBishop | chess_engine.py:887-1045 | the queen's moves are exactly the union of the rook's and the bishop's from the same square |
| Movement.Destinations | chess_engine.py:261-262 | every generated square is on the board, and every non-pawn target is empty or opponent-held |
| Movement.DestinationLeaves | chess_engine.py:843-1117 | no generator offers the origin; a pawn moves one row forward, or two from its start; a king moves two columns only from e1/e8 to g or c |
| Rules.MoveGeometry | chess_engine.py:256-291 | an accepted move leaves its origin, moves a pawn forward, and moves a king two columns only from e1/e8 |
| Rules.Notation | chess_engine.py:189-190 | the notation letter is "" for the pawn and one upper-case letter otherwise |
| Rules.LogEntry | chess_engine.py:180-194 | the entry is non-empty, "0-0" or "0-0-0" for a king moving two columns, and contains no '+' when its inputs contain none |
| Rules.Move | chess_engine.py:202-248 | succeeds exactly when `valid_move` holds for the decoded coordinates; on failure the game is unchanged; the result stays valid |
| Rules.MoveEffects | chess_engine.py:202-248 | an accepted move appends exactly one log entry and keeps the earlier ones; the entry has no '+'; the side is negated; castling follows the rights update |
| Rules.CommitEffects | chess_engine.py:241-246 | the table counts the hash taken before the side flip once more, nothing else in it changes, and that hash differs from the hash after the flip |
| Rules.MoveBoard | chess_engine.py:207-218 | after an accepted move the board is the old one with the piece moved, the rook relocated on castling, the pawn taken en passant removed, and every other square unchanged |
| Rules.MoveEnPassant | chess_engine.py:211-220 | the new target is behind a pawn landing on row 4 (white) or row 3 (black); castling keeps the old target; any other move clears it |
| Rules.SinglePushSetsTarget | chess_engine.py:211-212 | a white single push d3-d4 sets the en passant target to d3 |
| Rules.CastlingOnlyFalls | chess_engine.py:221-238 | no castling flag is ever set; a king move clears both of the mover's flags; a rook move clears exactly one; the opponent's flags and other moves change nothing |
| Rules.RookAnywhereClearsKingSide | chess_engine.py:228-238 | a white rook move from any square but a1 clears the K flag and keeps Q; likewise for black and a8 |
| Rules.HashReadsPosition | chess_engine.py:85-130 | the descriptor depends only on board, side, castling flags and en passant target |
| Rules.HashShowsSide | chess_engine.py:109-112 | the side letter sits right after the placement, so flipping the side changes the descriptor |
| Rules.PromotionTarget | chess_engine.py:402 | the square read from the last entry, if any, is on the board |
| Rules.ClassKind | chess_engine.py:400 | the class lookup finds kind k exactly for k's class name |
| Rules.PromptLetter | chess_engine.py:392-400 | an accepted answer becomes one letter of a knight, bishop, rook or queen: a single character is kept, a name is replaced by the notation of the class it names |
| Rules.PromotedKind | chess_engine.py:401 | the new kind is the kind whose letter is the argument's character lowered |
| Rules.PromotedMark | chess_engine.py:405 | the letter appended is the upper-case letter of the new kind |
| Rules.PawnPromotion | chess_engine.py:401-408 | with the piece given, raises exactly when the log is empty or the argument is not a single ASCII piece letter in either case (a name such as "queen" raises; "k" and "p" are accepted); fails, with nothing changed, when the last entry does not end in a square; otherwise places the piece for the side to move, changes no other square, and appends "=" and the letter to the last entry only |
| Rules.PawnEntryTarget | chess_engine.py:189-193 | the entry logged for a pawn move decodes, after its last 'x', to the pawn's destination |
| Rules.PromptPromotion | chess_engine.py:391-408 | with the piece asked for, raises exactly when the log is empty, fails with nothing changed when the last entry does not end in a square, and otherwise places a knight, bishop, rook or queen of the side to move |
| Rules.PromptByName | chess_engine.py:392-400 | at the prompt a piece's name, in any case, promotes exactly as its letter |
| Rules.PromotionAfterPawnMove | chess_engine.py:202-248 | after an accepted pawn move, promotion with a piece letter succeeds and puts that piece on the destination in the colour of the side now to move, the opponent of the pawn's owner, since `move` has already flipped `p_move` |
| Listing.Label | chess_engine.py:308 | the key of a square decodes to it, with an upper-case file for white and lower case for black |
| Listing.Keep | chess_engine.py:307 | the escape filter keeps exactly the destinations also in the cached list |
| Listing.ListFromSound | chess_engine.py:298-309 | each entry's key names an occupied square, and its list is that piece's generator output |
| Listing.ListFromOrdered | chess_engine.py:300-308 | entries appear in row-major board order |
| Listing.ListFromComplete | chess_engine.py:300-308 | every occupied square has an entry |
| Listing.ListFromDistinct | chess_engine.py:308 | no key appears twice |
| Listing.PossibleBoardMovesExact | chess_engine.py:298-309 | the table lists exactly the occupied squares, in board order, each with its generator output |
| Listing.NoCastlingListed | chess_engine.py:298-309 | a king's listed destinations are only adjacent squares, so castling is never listed |
| Listing.MoveKeepsNoMarks | chess_engine.py:180-248 | a move adds no '+' to the log |
| Listing.PromotionKeepsNoMarks | chess_engine.py:405 | a promotion adds no '+' to the log |
| Listing.UnfilteredWithoutMarks | chess_engine.py:306-307 | in every game built by these operations, the `c_escape` filter never applies |
| Terminal.AsList | chess_engine.py:331-384 | the verdict lists have three entries, whose sum is positive exactly when the game is over |
| Terminal.Checkmate | chess_engine.py:316-384 | without a king of the side to move the other side wins; the result is "ongoing" or a win for the other side |
| Terminal.CheckmateExact | chess_engine.py:316-384 | corrected: the other side wins exactly when the king is attacked and no accepted move of the side to move leaves it unattacked |
| Terminal.CorrectedFindsEveryWin | chess_engine.py:354-378 | every win reported as written is reported by the corrected test too |
| Terminal.StalemateOnBoard | chess_engine.py:505-508 | on the move table, stalemate holds exactly when no piece of the side to move has a destination |
| Terminal.Pieces | chess_engine.py:485-489 | the piece list holds exactly the non-zero cells |
| Terminal.PiecesAppend | chess_engine.py:486-489 | the piece list of the rows joined is the lists joined |
| Terminal.DeadPiecesExact | chess_engine.py:483-498 | dead exactly for the piece multisets {6,−6}, {6,−6,±3} and {6,−6,±2}; never with more than 4 pieces |
| Terminal.Answer | chess_engine.py:426-434 | y/yes/1 claim and n/no/0 decline, in any case; anything else is unsupported |
| Terminal.FiftyMoveRule | chess_engine.py:416-434 | false unless more than 100 entries were logged and none of the last 100 contains 'x' or starts with a lower-case letter; then the answer given (None when unsupported) |
| Terminal.RepetitionCounts | chess_engine.py:455-476 | fivefold holds exactly when the count is at least 5; threefold holds exactly when the count is 3 and the draw is claimed; never both |
| Terminal.SeventyFiveImpliesFifty | chess_engine.py:416-448 | a forced seventy-five-move draw satisfies the fifty-move condition |
| Terminal.HoldsCells | chess_engine.py:531-538 | the king scan finds a value exactly when some cell holds it |
| Terminal.IsEnd | chess_engine.py:530-544 | no kings: draw; only a black king: black wins; only a white king: white wins (whichever checkmate test `asWritten` selects) |
| Terminal.IsDrawExact | chess_engine.py:510-523 | on the table `is_end` passes, `is_draw` holds exactly when no piece of the side to move has a destination, or the pieces are two kings alone or with one bishop or knight, or the last 150 entries are quiet, or the count is at least 5, or the last 100 entries are quiet and the fifty-move draw is claimed, or the count is exactly 3 and the threefold draw is claimed |
| Terminal.IsEndWithKings | chess_engine.py:545-552 | with both kings, a checkmate of the side to move found by the test as written (or the corrected one, as `asWritten` says) is returned before anything else; a win is only such a checkmate; and a draw holds exactly when that test finds no mate and `is_draw` holds |
| Terminal.EndReadsOtherKey | chess_engine.py:530-552 | after a move, the repetition count `is_end` reads (hash after the flip) is the one from before the move |
| Evaluation.PieceValue | chess_engine.py:752-759 | every piece value lies between 100 and 20000 |
| Evaluation.Worth | chess_engine.py:764-768 | a cell's contribution is zero exactly for an empty cell and positive exactly for white |
| Evaluation.Balance | chess_engine.py:749-770 | the score is white's material minus black's |
| Evaluation.EvaluateNegated | chess_engine.py:749-770 | negating every piece negates the score |
| Evaluation.EvaluateBound | chess_engine.py:749-770 | the score lies within ±1280000, far inside the search's infinities |
| Evaluation.EvaluatePut | chess_engine.py:762-768 | writing one cell changes the score by the new cell's worth minus the old's |
| Evaluation.EvaluateShift | chess_engine.py:239-240 | moving a piece onto another square changes the score by minus the worth of what stood there |
| Evaluation.RowsWorthAppend | chess_engine.py:762-768 | the running score after another row is the old score plus that row's |
| SearchTree.Search | chess_engine.py:780-821 | a leaf returns its score and no move; a move named is one of the node's moves |
| SearchTree.Scan | chess_engine.py:790-803 | the scan never does worse than its running best, and any new move named is one offered |
| SearchTree.SearchRange | chess_engine.py:780-821 | on a tree with bounded leaves the score stays within ±INF |
| SearchTree.SearchSound | chess_engine.py:780-821 | with a non-empty window, alpha-beta agrees with minimax once both are clamped to the window |
| SearchTree.FullWindow | chess_engine.py:580-581 | from the full window (−INF, INF), alpha-beta returns the minimax value |
| SearchTree.StuckSearch | chess_engine.py:788-821 | a node without moves returns its starting score (−INF or INF) and no move |
| SearchTree.FirstTaken | chess_engine.py:790-803 | when every reply is stuck, the maximizer takes its first move, with score INF |
| SearchTree.ScanFlat | chess_engine.py:790-803 | over moves leading to leaves, the scan's result bounds every remaining leaf, and a new move named is the first leaf reaching that result |
| SearchTree.NamedIsBest | chess_engine.py:788-804 | from the full window, a maximizing node returns the minimax value, and the move it names has a reply worth exactly that value by minimax |
| SearchTree.OnePlyGreedy | chess_engine.py:788-804 | on one ply, the result is the largest leaf; a move is named exactly when there is one, and it is the first with that score |
| Search.Build | chess_engine.py:780-797 | the searched tree has bounded leaves, and it is a leaf exactly at depth 0 |
| Search.EdgesAccepted | chess_engine.py:793-796 | every move below a node was accepted by `move` on a copy |
| Search.EdgesBelow | chess_engine.py:794-797 | below each move lies the tree of the copy it leaves, searched for the other side |
| Search.EdgesComplete | chess_engine.py:793-797 | every destination that `move` accepts is a move of the node |
| Search.EngineFits | chess_engine.py:780-797 | a move on a copy keeps the game valid, and every move table is well formed |
| Search.AlphaBeta | chess_engine.py:780-821 | the score lies within ±INF, and depth 0 returns the evaluation and no move |
| Search.BestIsAccepted | chess_engine.py:788-821 | a move named passes the node's key filter and is accepted by `move` |
| Search.GetAlphaBetaMove | chess_engine.py:579-582 | depth 0 gives the ("No move","No move") sentinel |
| Search.SuggestionIsLegal | chess_engine.py:579-582 | a suggested move other than the sentinel belongs to the side to move and is accepted by `move` |
| Search.SuggestionIsBest | chess_engine.py:579-582 | corrected, depth ≥ 1: a suggested move other than the sentinel is accepted, and the position it leaves is worth, by minimax with the opponent to move over the remaining depth, exactly the minimax value of the present position |
| Search.SearchIsMinimax | chess_engine.py:780-821 | corrected, from the full window: the score equals the minimax value of the legal game tree |
| Search.WindowSound | chess_engine.py:780-821 | corrected, any non-empty window: the clamped score equals the clamped minimax value |
| Search.EngineRejectsOther | chess_engine.py:808-813 | `move` rejects every move of a key of the side not to move |
| Search.MinimizerStuck | chess_engine.py:806-821 | as written, every minimizing node has no moves |
| Search.TakesFirst | chess_engine.py:788-821 | as written, at depth ≥ 2 the maximizer returns its first accepted move with score INF |
| Search.AsWrittenTakesFirst | chess_engine.py:806-821 | `alpha_beta` as written, at depth ≥ 2, names the first accepted move of the table whatever the position, with score INF (or −INF and no move) |
| Search.AgreeAtDepthOne | chess_engine.py:788-804 | at depth 1 the as-written and corrected searches agree |
| Search.OnePlyBest | chess_engine.py:788-804 | at depth 1, the score is the best evaluation any accepted move of the side to move leaves; the move named is the offered (entry, destination) pair that leaves exactly it, and every offered pair before it in table order leaves less |
| Search.DepthOneGreedy | chess_engine.py:780-804 | `alpha_beta(1, -inf, inf, True)`: no accepted move's resulting evaluation exceeds the score; the move named is accepted and reaches it, and it is the first offered move in the order of the table and its destinations whose evaluation is that large; no move is named exactly when none is accepted |
| Engine.Chess.constructor | chess_engine.py:14-20 | the new object holds the state `reset(EPD)` describes |
| Engine.Chess.Reset | chess_engine.py:28-44 | outcome and new state are those of `Descriptor.Reset` on the old state |
| Engine.Chess.LoadEPD | chess_engine.py:137-170 | the loop over ranks and letters leaves the outcome and state of `Descriptor.LoadEPD` |
| Engine.Chess.LogMove | chess_engine.py:180-194 | appends exactly `LogEntry` to the log and changes nothing else |
| Engine.Chess.Move | chess_engine.py:202-248 | result and new state are those of `Rules.Move` on the old state |
| Engine.Chess.CaptureEnPassant | chess_engine.py:207-208 | only the captured pawn's cell changes |
| Engine.Chess.Place | chess_engine.py:206-240 | the state before the side flip is `Rules.Placed` |
| Engine.Chess.Land | chess_engine.py:211-240 | en passant, rook relocation, castling flags and the moved piece are updated as `Landing` and `CastlingAfter` state |
| Engine.Chess.CountAndFlip | chess_engine.py:241-246 | the table counts the current hash once more and the side is flipped |
| Engine.Chess.PawnPromotion | chess_engine.py:391-408 | with the piece given, outcome and new state are those of `Rules.PawnPromotion`; with the answer the prompt accepted, those of `Rules.PromptPromotion` |
| Engine.Chess.PossibleBoardMoves | chess_engine.py:298-309 | the nested loops build exactly `Listing.PossibleBoardMoves` |
| Engine.Chess.AddCell | chess_engine.py:302-308 | one cell of the loops keeps the table a prefix of the function's table |
| Engine.Chess.FindKing | chess_engine.py:319-328 | the loops find `Board.Find` of the side's king |
| Engine.Chess.EntryEscapes | chess_engine.py:354-378 | the inner escape loop finds an escape exactly when one of the entry's destinations escapes |
| Engine.Chess.SearchEscape | chess_engine.py:350-378 | the outer escape loop finds an escape exactly when some entry of the side to move has one |
| Engine.Chess.IsCheckmate | chess_engine.py:316-384 | returns the verdict of the test as written, or of the corrected test when `accepted` is set, and leaves the state as it was (`c_escape` stays empty) |
| Engine.Chess.EvaluatePosition | chess_engine.py:749-770 | the accumulating loops return `Evaluate(board)` |
| Engine.Chess.IsDeadPosition | chess_engine.py:483-498 | the piece-list loop decides `Terminal.IsDeadPosition` |
| Engine.Chess.IsDraw | chess_engine.py:510-523 | decides `Terminal.IsDraw` |
| Engine.Chess.IsEnd | chess_engine.py:530-552 | returns `Terminal.IsEnd` with the checkmate test `asWritten` selects, and leaves the state as it was; so a missing king decides first, then a checkmate is returned, then `is_draw` (Terminal.IsEnd, Terminal.IsEndWithKings) |
| Engine.Chess.GetAlphaBetaMove | chess_engine.py:579-582 | returns the corrected search's suggestion, which is the sentinel or an accepted move of the side to move, best by minimax (Search.SuggestionIsBest) |
| Witness.InCheck | chess_engine.py:319-345 | in the witness position the king search finds the white king on g1, and the rook on a1 attacks it |
| Witness.NoMove | chess_engine.py:256-291 | in the witness position `valid_move` accepts no move of white's at all: the king's steps to f1 and h1 stay on the rook's rank, and pawn pushes leave the rank open |
| Witness.ShadowedSquare | chess_engine.py:366-373 | on the unchanged board h1 is not attacked, because the king on g1 blocks the rank |
| Witness.StepEscapes | chess_engine.py:356-378 | the rejected step to h1 counts as an escape as written and not when corrected |
| Witness.Mated | chess_engine.py:316-384 | the corrected test says black wins on every move table |
| Witness.KingEntry | chess_engine.py:293-314 | `possible_board_moves(True)` lists the king's step from g1 to h1 under white's key |
| Witness.MissedMate | chess_engine.py:316-384 | on the table `is_end` builds, `is_checkmate` as written says the game goes on, while the corrected test says black wins |

## Left out

- `chess_gui.py`: rendering, event loops, images and background threads are not part of
  this model.
- `display` only prints. The `__main__` loop is interactive. Both are left out.
- `check_state` only classifies the state for the interface (pawn promotion, threefold,
  fifty moves). It is not modelled.
- `evolutionary_algorithm` and `particle_swarm_optimization` are left out. Their output
  depends on `random` sampling and floating-point velocities. All they promise is a
  candidate move or the `("No move", "No move")` sentinel.
- The `input()` prompts are replaced by parameters. `pawn_promotion` takes the piece it
  is given, or, called without one, the answer its prompt loop finally accepts; the
  rejected answers before it only print a message.
  `fifty_move_rule` and `three_fold_rule` take the answer.
- `float('inf')` is the integer `SearchTree.INF` (10^9). Every evaluation lies within
  ±1280000, so no comparison changes.
- `deepcopy` is a value copy. Its cost and the object identities it creates are not
  modelled.
- Python dictionaries are lists of (key, value) pairs in insertion order. The order
  matters for the search, which keeps the first best move.
- `prev_move` is never read, so it is not a field of the model.
- `c_escape` is reset by `is_checkmate` and never filled anywhere. The model keeps the
  field and proves the filter never applies.
- Engine.Chess.GetAlphaBetaMove: follows the corrected search from "## Findings". The
  as-written behaviour is modelled by `Search.AlphaBeta` with `asWritten` set.
- Descriptor.LoadEPD: digits and letters outside ASCII, which Python's `isdigit()`,
  `int()`, `lower()` and `islower()` also accept, are not modelled; the model reads only
  ASCII digits and letters and treats any other character as one that raises.
- Rules.PawnPromotion: letters outside ASCII are not modelled. Python's `lower()` maps
  some of them to a piece letter (the Kelvin sign U+212A to 'k'), and the source then
  promotes; the model lower-cases ASCII only and raises for them.
- Rules.PromptPromotion: `Accepted` lower-cases ASCII only, so an answer whose Python
  `lower()` reaches a piece name only through a non-ASCII letter ("roo" followed by the
  Kelvin sign) is not among the answers modelled, though the prompt accepts it.
- Engine.Chess.PawnPromotion: follows Rules.PawnPromotion and Rules.PromptPromotion, and
  so leaves out the same non-ASCII letters.
- Search.SuggestionIsBest: states what a suggestion is worth, not when one is made.
  From depth 3 on, `get_alpha_beta_move` answers "No move" while the side to move has
  accepted moves when every one of them scores −INF, that is, when the opponent can
  answer each with a position in which the mover has no accepted move; only a strictly
  better score than −INF is taken.
- Rules.LogEntry: the `n_part` argument of `log_move` is modelled, but `move` never passes
  it, so promotion entries only arise through `pawn_promotion`.

## Findings

| source | as written | input that shows it | evidently intended | confidence | as-written member | corrected member |
|---|---|---|---|---|---|---|
| chess_engine.py:806-821 | the minimizing branch keeps keys of the side NOT to move (lower case when `p_move == 1`), and `move` rejects all of them, so every minimizing node returns `inf` with no move | any legal position at depth ≥ 2, e.g. the start position with `get_alpha_beta_move(3)`: the first accepted white move of the table (a pawn from rank 2) is returned with score `inf` | the minimizing node tries the side to move, so the search computes minimax over legal moves | not executed | Search.AsWrittenTakesFirst | Search.SearchIsMinimax, Search.SuggestionIsBest |
| chess_engine.py:354-378 | a move that `move` rejects still counts as an escape when the king's intended square is unattacked on the unchanged board, where the king itself can shield it | white Kg1, Pf2, Pg2, Ph2, black Ra1 and Ka8, white to move, a back-rank mate, with the table of `possible_board_moves(True)`: Kg1-h1 is rejected, but h1 looks safe because the king on g1 blocks the rank, so `is_checkmate` returns [0, 0, 0] | only accepted moves count as escapes | not executed | Witness.MissedMate | Terminal.CheckmateExact |
