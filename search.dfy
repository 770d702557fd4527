/** `alpha_beta` and `get_alpha_beta_move` on a game: the tree of the moves the search
    descends into, built from the move table with `move` on copies of the game and the
    leaves scored by `evaluate_position`, and the search on that tree.

    The tree is built over a move function and a table function given as parameters; the
    search of the engine passes `TryMove` (`temp_board.move`) and `MoveTable`
    (`possible_board_moves()`). What the lemmas about the tree need of the two is stated
    by `Fits` and `RejectsOther`, both proved for the engine's own pair. */
module Search {
  import opened Text
  import opened Board
  import opened Position
  import opened Rules
  import opened Listing
  import opened Terminal
  import opened Evaluation
  import opened SearchTree

  /** `temp_board.move(start_square, move_str)` on a copy of the game. */
  type Mover = (Game, string, string) -> (bool, Game)

  /** `possible_board_moves()` of a game. */
  type Lister = Game -> Table

  /** The engine's move on a copy; a game that is not valid is never reached. */
  function TryMove(h: Game, cur: string, next: string): (r: (bool, Game))
  {
    if Valid(h) then Move(h, cur, next) else (false, h)
  }

  /** The engine's table of moves with captures. */
  function MoveTable(h: Game): (r: Table)
  {
    if Valid(h) then PossibleBoardMoves(h, true) else []
  }

  /** A move keeps the game valid and every table is well formed. */
  ghost predicate Fits(step: Mover, table: Lister) {
    && (forall h, c, n :: Valid(h) ==> Valid(step(h, c, n).1))
    && (forall h :: Valid(h) ==> WellTable(table(h)))
  }

  /** The keys of the side not to move: lower case when white is to move, upper case when
      black is. */
  predicate OtherKey(g: Game, key: string) {
    |key| > 0 && ((g.pMove == 1 && IsLower(key[0])) || (g.pMove == -1 && IsUpper(key[0])))
  }

  /** The keys a node tries. The maximizing branch tests for the side to move; the
      minimizing branch as written tests for the other side, and corrected tests for the
      side to move as well. */
  predicate Tried(g: Game, maximizing: bool, asWritten: bool, key: string) {
    if !maximizing && asWritten then OtherKey(g, key) else OwnKey(g, key)
  }

  /** A move the node descends into: its key passes the filter and the move is accepted. */
  predicate Accepts(g: Game, maximizing: bool, asWritten: bool, step: Mover, c: Choice) {
    Tried(g, maximizing, asWritten, c.0) && step(g, c.0, c.1).0
  }

  /** The tree searched from g to the given depth: a leaf holds `evaluate_position()`,
      a node has one group per entry of the table. */
  function Build(g: Game, depth: nat, maximizing: bool, asWritten: bool, step: Mover, table: Lister): (t: Tree)
    requires Valid(g) && Fits(step, table)
    ensures Bounded(t)
    ensures t.Leaf? <==> depth == 0
    decreases depth, 2, 0
  {
    if depth == 0 then
      EvaluateBound(g.board);
      Leaf(Evaluate(g.board))
    else Node(Grow(g, depth, maximizing, asWritten, step, table, table(g)))
  }

  /** The groups of the entries: the accepted moves of an entry whose key passes the
      filter, none for the others. */
  function Grow(g: Game, depth: nat, maximizing: bool, asWritten: bool, step: Mover, table: Lister, moves: Table): (r: seq<Group>)
    requires Valid(g) && Fits(step, table) && depth >= 1 && WellTable(moves)
    ensures |r| == |moves|
    ensures forall e, j :: 0 <= e < |r| && 0 <= j < |r[e].edges| ==> Bounded(r[e].edges[j].sub)
    decreases depth, 1, |moves|
  {
    if moves == [] then []
    else
      var key := moves[0].0;
      [Group(if Tried(g, maximizing, asWritten, key) then Edges(g, depth, maximizing, asWritten, step, table, key, moves[0].1) else [])]
      + Grow(g, depth, maximizing, asWritten, step, table, moves[1..])
  }

  /** The destinations the move accepts for key, in order, each with the tree below the
      copy it leaves: `temp_board = deepcopy(self)` and `if temp_board.move(start_square, move_str)`. */
  function Edges(g: Game, depth: nat, maximizing: bool, asWritten: bool, step: Mover, table: Lister, key: string, dests: seq<Square>): (r: seq<Edge>)
    requires Valid(g) && Fits(step, table) && depth >= 1 && forall k :: 0 <= k < |dests| ==> InBounds(dests[k])
    ensures forall k :: 0 <= k < |r| ==> Bounded(r[k].sub)
    decreases depth, 0, |dests|
  {
    if dests == [] then []
    else
      var name := SquareName(dests[0]);
      var t := step(g, key, name);
      (if t.0 then [Edge((key, name), Build(t.1, depth - 1, !maximizing, asWritten, step, table))] else [])
      + Edges(g, depth, maximizing, asWritten, step, table, key, dests[1..])
  }

  // ---------------------------------------------------------------- the shape of the tree

  /** Each move listed for key is one the move function accepts. */
  lemma {:induction false} EdgesAccepted(g: Game, depth: nat, maximizing: bool, asWritten: bool, step: Mover, table: Lister, key: string, dests: seq<Square>)
    requires Valid(g) && Fits(step, table) && depth >= 1 && forall k :: 0 <= k < |dests| ==> InBounds(dests[k])
    ensures forall x :: x in Edges(g, depth, maximizing, asWritten, step, table, key, dests) ==>
      x.choice.0 == key && step(g, key, x.choice.1).0
  {
    if dests != [] {
      var r := Edges(g, depth, maximizing, asWritten, step, table, key, dests);
      var rest := Edges(g, depth, maximizing, asWritten, step, table, key, dests[1..]);
      var name := SquareName(dests[0]);
      var t := step(g, key, name);
      EdgesAccepted(g, depth, maximizing, asWritten, step, table, key, dests[1..]);
      if t.0 {
        assert r == [Edge((key, name), Build(t.1, depth - 1, !maximizing, asWritten, step, table))] + rest;
      } else {
        assert r == rest;
      }
    }
  }

  /** Below each move listed for key lies the tree of the copy it leaves, searched for
      the other side. */
  lemma {:induction false} EdgesBelow(g: Game, depth: nat, maximizing: bool, asWritten: bool, step: Mover, table: Lister, key: string, dests: seq<Square>)
    requires Valid(g) && Fits(step, table) && depth >= 1 && forall k :: 0 <= k < |dests| ==> InBounds(dests[k])
    ensures forall x :: x in Edges(g, depth, maximizing, asWritten, step, table, key, dests) ==>
      x.sub == Build(step(g, key, x.choice.1).1, depth - 1, !maximizing, asWritten, step, table)
  {
    if dests != [] {
      var r := Edges(g, depth, maximizing, asWritten, step, table, key, dests);
      var rest := Edges(g, depth, maximizing, asWritten, step, table, key, dests[1..]);
      var name := SquareName(dests[0]);
      var t := step(g, key, name);
      EdgesBelow(g, depth, maximizing, asWritten, step, table, key, dests[1..]);
      if t.0 {
        assert r == [Edge((key, name), Build(t.1, depth - 1, !maximizing, asWritten, step, table))] + rest;
      } else {
        assert r == rest;
      }
    }
  }

  /** A key none of whose destinations is accepted has no moves. */
  lemma {:induction false} EdgesNone(g: Game, depth: nat, maximizing: bool, asWritten: bool, step: Mover, table: Lister, key: string, dests: seq<Square>)
    requires Valid(g) && Fits(step, table) && depth >= 1 && forall k :: 0 <= k < |dests| ==> InBounds(dests[k])
    requires forall k :: 0 <= k < |dests| ==> !step(g, key, SquareName(dests[k])).0
    ensures Edges(g, depth, maximizing, asWritten, step, table, key, dests) == []
  {
    if dests != [] {
      EdgesNone(g, depth, maximizing, asWritten, step, table, key, dests[1..]);
    }
  }

  /** Group e is the group of entry e. */
  lemma {:induction false} GrowAt(g: Game, depth: nat, maximizing: bool, asWritten: bool, step: Mover, table: Lister, moves: Table, e: nat)
    requires Valid(g) && Fits(step, table) && depth >= 1 && WellTable(moves) && e < |moves|
    ensures Grow(g, depth, maximizing, asWritten, step, table, moves)[e].edges
         == if Tried(g, maximizing, asWritten, moves[e].0) then Edges(g, depth, maximizing, asWritten, step, table, moves[e].0, moves[e].1) else []
  {
    if e > 0 {
      GrowAt(g, depth, maximizing, asWritten, step, table, moves[1..], e - 1);
    }
  }

  /** Every move of a node passes the node's filter, is accepted, and below it lies the
      tree of the copy it leaves. */
  lemma BuildFact(g: Game, depth: nat, maximizing: bool, asWritten: bool, step: Mover, table: Lister, e: nat, x: Edge)
    requires Valid(g) && Fits(step, table) && depth >= 1
    requires var t := Build(g, depth, maximizing, asWritten, step, table); e < |t.groups| && x in t.groups[e].edges
    ensures Accepts(g, maximizing, asWritten, step, x.choice)
    ensures x.sub == Build(step(g, x.choice.0, x.choice.1).1, depth - 1, !maximizing, asWritten, step, table)
  {
    var moves := table(g);
    GrowAt(g, depth, maximizing, asWritten, step, table, moves, e);
    EdgesAccepted(g, depth, maximizing, asWritten, step, table, moves[e].0, moves[e].1);
    EdgesBelow(g, depth, maximizing, asWritten, step, table, moves[e].0, moves[e].1);
  }

  /** A move the search names is one of the node's moves: it passes the node's filter and
      is accepted. */
  lemma BestAccepted(g: Game, depth: nat, alpha: int, beta: int, maximizing: bool, asWritten: bool, step: Mover, table: Lister)
    requires Valid(g) && Fits(step, table)
    ensures var r := Search(Build(g, depth, maximizing, asWritten, step, table), alpha, beta, maximizing);
      r.1.Some? ==> Accepts(g, maximizing, asWritten, step, r.1.value)
  {
    var t := Build(g, depth, maximizing, asWritten, step, table);
    var r := Search(t, alpha, beta, maximizing);
    if r.1.Some? {
      var e, j :| 0 <= e < |t.groups| && 0 <= j < |t.groups[e].edges| && t.groups[e].edges[j].choice == r.1.value;
      assert t.groups[e].edges[j] in t.groups[e].edges;
      BuildFact(g, depth, maximizing, asWritten, step, table, e, t.groups[e].edges[j]);
    }
  }

  // ---------------------------------------------------------------- the engine's search

  /** The engine's move function keeps games valid and its tables are well formed. */
  lemma EngineFits()
    ensures Fits(TryMove, MoveTable)
  {
  }

  /** `alpha_beta(depth, alpha, beta, maximizing_player)`; `asWritten` chooses the
      minimizing filter of the source or the corrected one. */
  function AlphaBeta(g: Game, depth: nat, alpha: int, beta: int, maximizing: bool, asWritten: bool): (r: (int, Option<Choice>))
    requires Valid(g)
    ensures -INF <= r.0 <= INF
    ensures depth == 0 ==> r == (Evaluate(g.board), None)
  {
    EngineFits();
    var t := Build(g, depth, maximizing, asWritten, TryMove, MoveTable);
    SearchRange(t, alpha, beta, maximizing);
    Search(t, alpha, beta, maximizing)
  }

  /** `get_alpha_beta_move(depth)`: the best move of a maximizing search with the widest
      window, or ("No move", "No move") when it found none. */
  function GetAlphaBetaMove(g: Game, depth: nat, asWritten: bool): (r: Choice)
    requires Valid(g)
    ensures depth == 0 ==> r == ("No move", "No move")
  {
    var best := AlphaBeta(g, depth, -INF, INF, true, asWritten).1;
    if best.None? then ("No move", "No move") else best.value
  }

  /** Plain minimax over the corrected tree. */
  function Minimax(g: Game, depth: nat, maximizing: bool): (r: int)
    requires Valid(g)
    ensures -INF <= r <= INF
  {
    EngineFits();
    var t := Build(g, depth, maximizing, false, TryMove, MoveTable);
    ValueRange(t, maximizing);
    Value(t, maximizing)
  }

  /** A move the search names passes the node's filter and `move` accepts it. */
  lemma BestIsAccepted(g: Game, depth: nat, alpha: int, beta: int, maximizing: bool, asWritten: bool)
    requires Valid(g)
    ensures var r := AlphaBeta(g, depth, alpha, beta, maximizing, asWritten);
      r.1.Some? ==> Tried(g, maximizing, asWritten, r.1.value.0) && Move(g, r.1.value.0, r.1.value.1).0
  {
    EngineFits();
    BestAccepted(g, depth, alpha, beta, maximizing, asWritten, TryMove, MoveTable);
  }

  /** A move `get_alpha_beta_move` suggests is always a move of the side to move that
      `move` accepts. */
  lemma SuggestionIsLegal(g: Game, depth: nat, asWritten: bool)
    requires Valid(g)
    ensures var r := GetAlphaBetaMove(g, depth, asWritten);
      r != ("No move", "No move") ==> OwnKey(g, r.0) && Move(g, r.0, r.1).0
  {
    BestIsAccepted(g, depth, -INF, INF, true, asWritten);
  }

  // ---------------------------------------------------------------- the corrected search

  /** With the widest window, as `get_alpha_beta_move` calls it, the corrected search
      scores every position exactly as minimax does. */
  lemma SearchIsMinimax(g: Game, depth: nat, maximizing: bool)
    requires Valid(g)
    ensures AlphaBeta(g, depth, -INF, INF, maximizing, false).0 == Minimax(g, depth, maximizing)
  {
    EngineFits();
    FullWindow(Build(g, depth, maximizing, false, TryMove, MoveTable), maximizing);
  }

  /** `get_alpha_beta_move` with the corrected search suggests a best move: the position it
      leaves is worth, by minimax over the remaining depth with the opponent to move,
      exactly the minimax value of the present position. (It can answer "No move" while
      moves exist: when every move scores -INF, none is strictly better than the start.) */
  lemma SuggestionIsBest(g: Game, depth: nat)
    requires Valid(g)
    ensures var r := GetAlphaBetaMove(g, depth, false);
      depth >= 1 && r != ("No move", "No move") ==>
        && Move(g, r.0, r.1).0
        && Minimax(Move(g, r.0, r.1).1, depth - 1, false) == Minimax(g, depth, true)
  {
    if depth >= 1 {
      EngineFits();
      var t := Build(g, depth, true, false, TryMove, MoveTable);
      NamedIsBest(t);
      var r := Search(t, -INF, INF, true);
      if r.1.Some? {
        var e, j :| 0 <= e < |t.groups| && 0 <= j < |t.groups[e].edges|
          && t.groups[e].edges[j].choice == r.1.value && Value(t.groups[e].edges[j].sub, false) == r.0;
        assert t.groups[e].edges[j] in t.groups[e].edges;
        BuildFact(g, depth, true, false, TryMove, MoveTable, e, t.groups[e].edges[j]);
      }
    }
  }

  /** With any non-empty window the corrected search agrees with minimax up to the window. */
  lemma WindowSound(g: Game, depth: nat, alpha: int, beta: int, maximizing: bool)
    requires Valid(g) && -INF <= alpha < beta <= INF
    ensures Clamp(AlphaBeta(g, depth, alpha, beta, maximizing, false).0, alpha, beta)
         == Clamp(Minimax(g, depth, maximizing), alpha, beta)
  {
    EngineFits();
    SearchSound(Build(g, depth, maximizing, false, TryMove, MoveTable), alpha, beta, maximizing);
  }

  // ---------------------------------------------------------------- the search as written

  /** The move function rejects every move of a key of the other side in the table. */
  ghost predicate RejectsOther(step: Mover, table: Lister) {
    forall h, k, n :: Valid(h) && 0 <= k < |table(h)| && OtherKey(h, table(h)[k].0) ==> !step(h, table(h)[k].0, n).0
  }

  /** The key of an entry of the other side names a square holding a piece of that side. */
  lemma OtherPiece(g: Game, entry: (string, seq<Square>))
    requires Valid(g) && Sound(g, true, entry) && OtherKey(g, entry.0)
    ensures BoardToArray(entry.0).Some? && At(g.board, BoardToArray(entry.0).value) * g.pMove < 0
  {
  }

  /** `valid_move` answers False for a piece that is not of the side to move. */
  lemma WrongSide(g: Game, cur: string, next: string)
    requires Valid(g) && BoardToArray(cur).Some? && At(g.board, BoardToArray(cur).value) * g.pMove <= 0
    ensures !Move(g, cur, next).0
  {
    ValidMoveCases(g, BoardToArray(cur), BoardToArray(next));
  }

  /** Every entry of the move table describes a piece on the board and its moves. */
  lemma TableSound(g: Game)
    requires Valid(g)
    ensures var moves := PossibleBoardMoves(g, true);
      forall k :: 0 <= k < |moves| ==> Sound(g, true, moves[k])
  {
    ListFromSound(g, true, 0);
    assert PossibleBoardMoves(g, true) == ListFrom(g, true, 0);
  }

  /** `move` rejects every move of a piece of the side not to move. */
  lemma EngineRejectsOther()
    ensures RejectsOther(TryMove, MoveTable)
  {
    forall h, k, n | Valid(h) && 0 <= k < |MoveTable(h)| && OtherKey(h, MoveTable(h)[k].0)
      ensures !TryMove(h, MoveTable(h)[k].0, n).0
    {
      TableSound(h);
      OtherPiece(h, MoveTable(h)[k]);
      WrongSide(h, MoveTable(h)[k].0, n);
    }
  }

  /** As written, a minimizing node has no move in the group of an entry. */
  lemma GroupStuck(g: Game, depth: nat, step: Mover, table: Lister, e: nat)
    requires Valid(g) && Fits(step, table) && RejectsOther(step, table) && depth >= 1 && e < |table(g)|
    ensures Grow(g, depth, false, true, step, table, table(g))[e].edges == []
  {
    var moves := table(g);
    GrowAt(g, depth, false, true, step, table, moves, e);
    if OtherKey(g, moves[e].0) {
      EdgesNone(g, depth, false, true, step, table, moves[e].0, moves[e].1);
    }
  }

  /** As written, a minimizing node above the leaves tries only the keys of the side that
      is not to move, and the move function rejects all of them: it has no move at all. */
  lemma MinimizerStuck(g: Game, depth: nat, step: Mover, table: Lister)
    requires Valid(g) && Fits(step, table) && RejectsOther(step, table) && depth >= 1
    ensures Stuck(Build(g, depth, false, true, step, table))
  {
    forall e | 0 <= e < |table(g)| ensures Grow(g, depth, false, true, step, table, table(g))[e].edges == [] {
      GroupStuck(g, depth, step, table, e);
    }
  }

  /** As written, every reply to a move of a maximizing node of depth 2 or more is stuck. */
  lemma ReplyStuck(g: Game, depth: nat, step: Mover, table: Lister, e: nat, x: Edge)
    requires Valid(g) && Fits(step, table) && RejectsOther(step, table) && depth >= 2
    requires var t := Build(g, depth, true, true, step, table); e < |t.groups| && x in t.groups[e].edges
    ensures Stuck(x.sub)
  {
    BuildFact(g, depth, true, true, step, table, e, x);
    MinimizerStuck(step(g, x.choice.0, x.choice.1).1, depth - 1, step, table);
  }

  lemma RepliesAllStuck(g: Game, depth: nat, step: Mover, table: Lister)
    requires Valid(g) && Fits(step, table) && RejectsOther(step, table) && depth >= 2
    ensures RepliesStuck(Build(g, depth, true, true, step, table))
  {
    var t := Build(g, depth, true, true, step, table);
    forall e, j | 0 <= e < |t.groups| && 0 <= j < |t.groups[e].edges| ensures Stuck(t.groups[e].edges[j].sub) {
      assert t.groups[e].edges[j] in t.groups[e].edges;
      ReplyStuck(g, depth, step, table, e, t.groups[e].edges[j]);
    }
  }

  /** The first move in table order of the side to move that the move function accepts. */
  function FirstAccepted(g: Game, step: Mover, moves: Table): (r: Option<Choice>)
    requires WellTable(moves)
  {
    if moves == [] then None
    else
      var f := if OwnKey(g, moves[0].0) then FirstDest(g, step, moves[0].0, moves[0].1) else None;
      if f.Some? then f else FirstAccepted(g, step, moves[1..])
  }

  function FirstDest(g: Game, step: Mover, key: string, dests: seq<Square>): (r: Option<Choice>)
    requires forall k :: 0 <= k < |dests| ==> InBounds(dests[k])
  {
    if dests == [] then None
    else if step(g, key, SquareName(dests[0])).0 then Some((key, SquareName(dests[0])))
    else FirstDest(g, step, key, dests[1..])
  }

  lemma {:induction false} EdgesFirst(g: Game, depth: nat, maximizing: bool, asWritten: bool, step: Mover, table: Lister, key: string, dests: seq<Square>)
    requires Valid(g) && Fits(step, table) && depth >= 1 && forall k :: 0 <= k < |dests| ==> InBounds(dests[k])
    ensures var r := Edges(g, depth, maximizing, asWritten, step, table, key, dests);
      (r == [] <==> FirstDest(g, step, key, dests).None?) && (r != [] ==> FirstDest(g, step, key, dests) == Some(r[0].choice))
  {
    if dests != [] {
      EdgesFirst(g, depth, maximizing, asWritten, step, table, key, dests[1..]);
    }
  }

  lemma {:induction false} GrowFirst(g: Game, depth: nat, asWritten: bool, step: Mover, table: Lister, moves: Table)
    requires Valid(g) && Fits(step, table) && depth >= 1 && WellTable(moves)
    ensures FirstOf(Grow(g, depth, true, asWritten, step, table, moves)) == FirstAccepted(g, step, moves)
  {
    if moves != [] {
      var r := Grow(g, depth, true, asWritten, step, table, moves);
      assert r[1..] == Grow(g, depth, true, asWritten, step, table, moves[1..]);
      GrowFirst(g, depth, asWritten, step, table, moves[1..]);
      if OwnKey(g, moves[0].0) {
        EdgesFirst(g, depth, true, asWritten, step, table, moves[0].0, moves[0].1);
      }
    }
  }

  /** On a tree whose minimizing nodes are built as written, from depth 2 on the search
      takes the first accepted move of the table with score INF. */
  lemma TakesFirst(g: Game, depth: nat, alpha: int, beta: int, step: Mover, table: Lister)
    requires Valid(g) && Fits(step, table) && RejectsOther(step, table) && depth >= 2 && beta <= INF
    ensures var f := FirstAccepted(g, step, table(g));
      Search(Build(g, depth, true, true, step, table), alpha, beta, true) == (if f.None? then -INF else INF, f)
  {
    RepliesAllStuck(g, depth, step, table);
    FirstTaken(Build(g, depth, true, true, step, table), alpha, beta);
    GrowFirst(g, depth, true, step, table, table(g));
  }

  /** As written, from depth 2 on the search never looks at an evaluation: every reply
      node is stuck and scores INF, so the root answers INF and the first move of the
      side to move that `move` accepts, or -INF and no move when there is none. */
  lemma AsWrittenTakesFirst(g: Game, depth: nat, alpha: int, beta: int)
    requires Valid(g) && depth >= 2 && beta <= INF
    ensures var f := FirstAccepted(g, TryMove, PossibleBoardMoves(g, true));
      AlphaBeta(g, depth, alpha, beta, true, true) == (if f.None? then -INF else INF, f)
  {
    EngineFits();
    EngineRejectsOther();
    TakesFirst(g, depth, alpha, beta, TryMove, MoveTable);
  }

  /** At depth 1 only the maximizing filter is used, so the search as written and the
      corrected one agree. */
  lemma AgreeAtDepthOne(g: Game, alpha: int, beta: int)
    requires Valid(g)
    ensures AlphaBeta(g, 1, alpha, beta, true, true) == AlphaBeta(g, 1, alpha, beta, true, false)
  {
    EngineFits();
    GrowSame(g, TryMove, MoveTable, MoveTable(g));
  }

  lemma {:induction false} GrowSame(g: Game, step: Mover, table: Lister, moves: Table)
    requires Valid(g) && Fits(step, table) && WellTable(moves)
    ensures Grow(g, 1, true, true, step, table, moves) == Grow(g, 1, true, false, step, table, moves)
  {
    if moves != [] {
      EdgesSame(g, step, table, moves[0].0, moves[0].1);
      GrowSame(g, step, table, moves[1..]);
    }
  }

  lemma {:induction false} EdgesSame(g: Game, step: Mover, table: Lister, key: string, dests: seq<Square>)
    requires Valid(g) && Fits(step, table) && forall k :: 0 <= k < |dests| ==> InBounds(dests[k])
    ensures Edges(g, 1, true, true, step, table, key, dests) == Edges(g, 1, true, false, step, table, key, dests)
  {
    if dests != [] {
      EdgesSame(g, step, table, key, dests[1..]);
    }
  }

  // ---------------------------------------------------------------- one ply

  /** Each destination of key that the move function accepts is listed. */
  lemma {:induction false} EdgesComplete(g: Game, depth: nat, maximizing: bool, asWritten: bool, step: Mover, table: Lister,
                                         key: string, dests: seq<Square>, d: nat)
    requires Valid(g) && Fits(step, table) && depth >= 1 && forall k :: 0 <= k < |dests| ==> InBounds(dests[k])
    requires d < |dests| && step(g, key, SquareName(dests[d])).0
    ensures exists x :: x in Edges(g, depth, maximizing, asWritten, step, table, key, dests)
                        && x.choice == (key, SquareName(dests[d]))
    decreases d
  {
    var r := Edges(g, depth, maximizing, asWritten, step, table, key, dests);
    var rest := Edges(g, depth, maximizing, asWritten, step, table, key, dests[1..]);
    var name := SquareName(dests[0]);
    var t := step(g, key, name);
    assert r == (if t.0 then [Edge((key, name), Build(t.1, depth - 1, !maximizing, asWritten, step, table))] else []) + rest;
    if d == 0 {
      assert r[0].choice == (key, name);
    } else {
      EdgesComplete(g, depth, maximizing, asWritten, step, table, key, dests[1..], d - 1);
      var x :| x in rest && x.choice == (key, SquareName(dests[1..][d - 1]));
      assert x in r;
    }
  }

  /** A search of depth 1 is a node whose moves lead to leaves holding the evaluation of
      the copy the move leaves. */
  lemma OnePlyFlat(g: Game, asWritten: bool, step: Mover, table: Lister)
    requires Valid(g) && Fits(step, table)
    ensures Flat(Build(g, 1, true, asWritten, step, table))
  {
    var t := Build(g, 1, true, asWritten, step, table);
    forall e, j | IsEdge(t.groups, e, j)
      ensures t.groups[e].edges[j].sub.Leaf? && -INF < t.groups[e].edges[j].sub.score < INF
    {
      var x := t.groups[e].edges[j];
      assert x in t.groups[e].edges;
      BuildFact(g, 1, true, asWritten, step, table, e, x);
      EvaluateBound(step(g, x.choice.0, x.choice.1).1.board);
    }
  }

  /** A move of the side to move listed in the table and accepted by the move function. */
  predicate Offers(g: Game, step: Mover, moves: Table, k: int, j: int)
    requires WellTable(moves)
  {
    0 <= k < |moves| && 0 <= j < |moves[k].1| && OwnKey(g, moves[k].0)
    && step(g, moves[k].0, SquareName(moves[k].1[j])).0
  }

  /** The score of the copy a move leaves. */
  function After(g: Game, step: Mover, table: Lister, c: Choice): int
    requires Valid(g) && Fits(step, table)
  {
    Evaluate(step(g, c.0, c.1).1.board)
  }

  /** An offered move is a move of the depth-1 node, its leaf the score it leaves. */
  lemma OfferedLeaf(g: Game, asWritten: bool, step: Mover, table: Lister, k: int, j: int)
    requires Valid(g) && Fits(step, table) && Offers(g, step, table(g), k, j)
    ensures var t := Build(g, 1, true, asWritten, step, table);
      Flat(t) && exists e, i :: (IsEdge(t.groups, e, i)
        && LeafAt(t, e, i) == After(g, step, table, (table(g)[k].0, SquareName(table(g)[k].1[j]))))
  {
    var t := Build(g, 1, true, asWritten, step, table);
    var moves := table(g);
    OnePlyFlat(g, asWritten, step, table);
    GrowAt(g, 1, true, asWritten, step, table, moves, k);
    EdgesComplete(g, 1, true, asWritten, step, table, moves[k].0, moves[k].1, j);
    var x :| x in t.groups[k].edges && x.choice == (moves[k].0, SquareName(moves[k].1[j]));
    var i :| 0 <= i < |t.groups[k].edges| && t.groups[k].edges[i] == x;
    assert IsEdge(t.groups, k, i);
    BuildFact(g, 1, true, asWritten, step, table, k, x);
  }

  /** A move of the depth-1 node is an accepted move of the side to move, offered by the
      table, and its leaf is the score it leaves. */
  lemma EdgeOffered(g: Game, asWritten: bool, step: Mover, table: Lister, e: int, i: int)
    requires Valid(g) && Fits(step, table)
    requires var t := Build(g, 1, true, asWritten, step, table); Flat(t) && IsEdge(t.groups, e, i)
    ensures var t := Build(g, 1, true, asWritten, step, table); var c := t.groups[e].edges[i].choice;
      && OwnKey(g, c.0) && step(g, c.0, c.1).0 && LeafAt(t, e, i) == After(g, step, table, c)
      && exists k, j :: Offers(g, step, table(g), k, j)
  {
    var t := Build(g, 1, true, asWritten, step, table);
    var x := t.groups[e].edges[i];
    assert x in t.groups[e].edges;
    BuildFact(g, 1, true, asWritten, step, table, e, x);
    OfferedByEdge(g, asWritten, step, table, e, x);
  }

  /** Depth 1, over any move and table functions: the score is the best evaluation any
      accepted move of the side to move leaves, the move named reaches it and is the first
      offered move in table order that does, and no move is named only when there is no
      such move. */
  lemma OnePlyBest(g: Game, asWritten: bool, step: Mover, table: Lister)
    requires Valid(g) && Fits(step, table)
    ensures var r := Search(Build(g, 1, true, asWritten, step, table), -INF, INF, true);
      var moves := table(g);
      && (forall k, j :: Offers(g, step, moves, k, j) ==> After(g, step, table, (moves[k].0, SquareName(moves[k].1[j]))) <= r.0)
      && (r.1.Some? ==> OwnKey(g, r.1.value.0) && step(g, r.1.value.0, r.1.value.1).0 && After(g, step, table, r.1.value) == r.0)
      && (r.1.None? <==> forall k, j :: !Offers(g, step, moves, k, j))
      && (r.1.Some? ==> exists k, j :: (Offers(g, step, moves, k, j)
            && r.1.value == (moves[k].0, SquareName(moves[k].1[j]))
            && forall k', j' :: Offers(g, step, moves, k', j') && Before(k', j', k, j) ==>
                 After(g, step, table, (moves[k'].0, SquareName(moves[k'].1[j']))) < r.0))
  {
    var t := Build(g, 1, true, asWritten, step, table);
    var moves := table(g);
    var r := Search(t, -INF, INF, true);
    OnePlyFirst(g, asWritten, step, table);
    OnePlyFlat(g, asWritten, step, table);
    OnePlyGreedy(t);
    forall k, j | Offers(g, step, moves, k, j)
      ensures After(g, step, table, (moves[k].0, SquareName(moves[k].1[j]))) <= r.0 && r.1.Some?
    {
      OfferedLeaf(g, asWritten, step, table, k, j);
    }
    if r.1.Some? {
      var e, i :| IsEdge(t.groups, e, i) && t.groups[e].edges[i].choice == r.1.value && LeafAt(t, e, i) == r.0;
      EdgeOffered(g, asWritten, step, table, e, i);
    }
  }

  /** A move of the depth-1 node is offered by the table. */
  lemma OfferedByEdge(g: Game, asWritten: bool, step: Mover, table: Lister, e: nat, x: Edge)
    requires Valid(g) && Fits(step, table)
    requires var t := Build(g, 1, true, asWritten, step, table); e < |t.groups| && x in t.groups[e].edges
    ensures exists k, j :: Offers(g, step, table(g), k, j)
  {
    var moves := table(g);
    GrowAt(g, 1, true, asWritten, step, table, moves, e);
    EdgesSource(g, 1, true, asWritten, step, table, moves[e].0, moves[e].1, x);
    var j :| 0 <= j < |moves[e].1| && x.choice == (moves[e].0, SquareName(moves[e].1[j]));
    BuildFact(g, 1, true, asWritten, step, table, e, x);
    assert Offers(g, step, moves, e, j);
  }

  /** Each listed move comes from a destination of key. */
  lemma {:induction false} EdgesSource(g: Game, depth: nat, maximizing: bool, asWritten: bool, step: Mover, table: Lister,
                                       key: string, dests: seq<Square>, x: Edge)
    requires Valid(g) && Fits(step, table) && depth >= 1 && forall k :: 0 <= k < |dests| ==> InBounds(dests[k])
    requires x in Edges(g, depth, maximizing, asWritten, step, table, key, dests)
    ensures exists j :: 0 <= j < |dests| && x.choice == (key, SquareName(dests[j]))
  {
    var rest := Edges(g, depth, maximizing, asWritten, step, table, key, dests[1..]);
    var name := SquareName(dests[0]);
    var t := step(g, key, name);
    if x in rest {
      EdgesSource(g, depth, maximizing, asWritten, step, table, key, dests[1..], x);
      var j :| 0 <= j < |dests[1..]| && x.choice == (key, SquareName(dests[1..][j]));
      assert dests[1..][j] == dests[j + 1];
    } else {
      assert x.choice == (key, name);
    }
  }

  /** An accepted destination d is listed at the position that counts the moves listed
      for the destinations before it. */
  lemma {:induction false} EdgeOfDest(g: Game, depth: nat, maximizing: bool, asWritten: bool, step: Mover, table: Lister,
                                      key: string, dests: seq<Square>, d: nat)
    requires Valid(g) && Fits(step, table) && depth >= 1 && forall k :: 0 <= k < |dests| ==> InBounds(dests[k])
    requires d < |dests| && step(g, key, SquareName(dests[d])).0
    ensures var r := Edges(g, depth, maximizing, asWritten, step, table, key, dests);
      var p := |Edges(g, depth, maximizing, asWritten, step, table, key, dests[..d])|;
      p < |r| && r[p].choice == (key, SquareName(dests[d]))
  {
    if d == 0 {
      assert dests[..0] == [];
    } else {
      assert dests[1..][d - 1] == dests[d];
      EdgeOfDest(g, depth, maximizing, asWritten, step, table, key, dests[1..], d - 1);
      PrefixCount(g, depth, maximizing, asWritten, step, table, key, dests, d - 1);
    }
  }

  /** An accepted destination before d takes a position before the one of d. */
  lemma {:induction false} EdgePositions(g: Game, depth: nat, maximizing: bool, asWritten: bool, step: Mover, table: Lister,
                                         key: string, dests: seq<Square>, d': nat, d: nat)
    requires Valid(g) && Fits(step, table) && depth >= 1 && forall k :: 0 <= k < |dests| ==> InBounds(dests[k])
    requires d' < d <= |dests| && step(g, key, SquareName(dests[d'])).0
    ensures |Edges(g, depth, maximizing, asWritten, step, table, key, dests[..d'])|
          < |Edges(g, depth, maximizing, asWritten, step, table, key, dests[..d])|
  {
    PrefixCount(g, depth, maximizing, asWritten, step, table, key, dests, d - 1);
    if d' == 0 {
      assert dests[..0] == [];
    } else {
      assert dests[1..][d' - 1] == dests[d'];
      PrefixCount(g, depth, maximizing, asWritten, step, table, key, dests, d' - 1);
      EdgePositions(g, depth, maximizing, asWritten, step, table, key, dests[1..], d' - 1, d - 1);
    }
  }

  /** The move at position i is the one of an accepted destination d, whose position
      counts the moves listed before it. */
  lemma {:induction false} DestOfEdge(g: Game, depth: nat, maximizing: bool, asWritten: bool, step: Mover, table: Lister,
                                      key: string, dests: seq<Square>, i: nat)
    requires Valid(g) && Fits(step, table) && depth >= 1 && forall k :: 0 <= k < |dests| ==> InBounds(dests[k])
    requires i < |Edges(g, depth, maximizing, asWritten, step, table, key, dests)|
    ensures exists d :: (0 <= d < |dests| && step(g, key, SquareName(dests[d])).0
      && |Edges(g, depth, maximizing, asWritten, step, table, key, dests[..d])| == i
      && Edges(g, depth, maximizing, asWritten, step, table, key, dests)[i].choice == (key, SquareName(dests[d])))
  {
    var r := Edges(g, depth, maximizing, asWritten, step, table, key, dests);
    var rest := Edges(g, depth, maximizing, asWritten, step, table, key, dests[1..]);
    var accepted := step(g, key, SquareName(dests[0])).0;
    if accepted && i == 0 {
      assert dests[..0] == [];
    } else {
      var i' := if accepted then i - 1 else i;
      assert r[i] == rest[i'];
      DestOfEdge(g, depth, maximizing, asWritten, step, table, key, dests[1..], i');
      var d' :| 0 <= d' < |dests[1..]| && step(g, key, SquareName(dests[1..][d'])).0
        && |Edges(g, depth, maximizing, asWritten, step, table, key, dests[1..][..d'])| == i'
        && rest[i'].choice == (key, SquareName(dests[1..][d']));
      PrefixCount(g, depth, maximizing, asWritten, step, table, key, dests, d');
      assert dests[1..][d'] == dests[d' + 1];
    }
  }

  /** The moves listed for the first d + 1 destinations: the first one's, if accepted,
      then those of the next d. */
  lemma PrefixCount(g: Game, depth: nat, maximizing: bool, asWritten: bool, step: Mover, table: Lister,
                    key: string, dests: seq<Square>, d: nat)
    requires Valid(g) && Fits(step, table) && depth >= 1 && forall k :: 0 <= k < |dests| ==> InBounds(dests[k])
    requires d < |dests|
    ensures |Edges(g, depth, maximizing, asWritten, step, table, key, dests[..d + 1])|
         == (if step(g, key, SquareName(dests[0])).0 then 1 else 0)
            + |Edges(g, depth, maximizing, asWritten, step, table, key, dests[1..][..d])|
  {
    assert dests[..d + 1][0] == dests[0] && dests[..d + 1][1..] == dests[1..][..d];
  }

  /** Depth 1, over any move and table functions: the move named is the first offered move,
      in table order, reaching the score; every offered move before it leaves less. */
  lemma OnePlyFirst(g: Game, asWritten: bool, step: Mover, table: Lister)
    requires Valid(g) && Fits(step, table)
    ensures var r := Search(Build(g, 1, true, asWritten, step, table), -INF, INF, true);
      var moves := table(g);
      r.1.Some? ==> exists k, j :: (Offers(g, step, moves, k, j)
        && r.1.value == (moves[k].0, SquareName(moves[k].1[j]))
        && forall k', j' :: Offers(g, step, moves, k', j') && Before(k', j', k, j) ==>
             After(g, step, table, (moves[k'].0, SquareName(moves[k'].1[j']))) < r.0)
  {
    var t := Build(g, 1, true, asWritten, step, table);
    var r := Search(t, -INF, INF, true);
    OnePlyFlat(g, asWritten, step, table);
    OnePlyGreedy(t);
    if r.1.Some? {
      var e, i :| IsEdge(t.groups, e, i) && t.groups[e].edges[i].choice == r.1.value && LeafAt(t, e, i) == r.0
        && forall e', i' :: IsEdge(t.groups, e', i') && Before(e', i', e, i) ==> LeafAt(t, e', i') < r.0;
      var d := NamedEntry(g, asWritten, step, table, e, i);
      EarlierBelow(g, asWritten, step, table, e, i, d, r.0);
    }
  }

  /** Edge i of group e is destination d of entry e, an offered move, at the position
      that counts the moves listed before it. */
  lemma NamedEntry(g: Game, asWritten: bool, step: Mover, table: Lister, e: nat, i: nat) returns (d: nat)
    requires Valid(g) && Fits(step, table)
    requires var t := Build(g, 1, true, asWritten, step, table); IsEdge(t.groups, e, i)
    ensures var t := Build(g, 1, true, asWritten, step, table); var moves := table(g);
      && Offers(g, step, moves, e, d)
      && t.groups[e].edges[i].choice == (moves[e].0, SquareName(moves[e].1[d]))
      && |Edges(g, 1, true, asWritten, step, table, moves[e].0, moves[e].1[..d])| == i
  {
    var t := Build(g, 1, true, asWritten, step, table);
    var moves := table(g);
    GrowAt(g, 1, true, asWritten, step, table, moves, e);
    DestOfEdge(g, 1, true, asWritten, step, table, moves[e].0, moves[e].1, i);
    d :| 0 <= d < |moves[e].1| && step(g, moves[e].0, SquareName(moves[e].1[d])).0
      && |Edges(g, 1, true, asWritten, step, table, moves[e].0, moves[e].1[..d])| == i
      && t.groups[e].edges[i].choice == (moves[e].0, SquareName(moves[e].1[d]));
  }

  /** When every edge before (e, i) leaves less than bound, so does every offered move
      before destination d of entry e, the destination of that edge. */
  lemma EarlierBelow(g: Game, asWritten: bool, step: Mover, table: Lister, e: nat, i: nat, d: nat, bound: int)
    requires Valid(g) && Fits(step, table)
    requires var moves := table(g); e < |moves| && d < |moves[e].1|
    requires var t := Build(g, 1, true, asWritten, step, table);
      && Flat(t) && IsEdge(t.groups, e, i)
      && forall e', i' :: IsEdge(t.groups, e', i') && Before(e', i', e, i) ==> LeafAt(t, e', i') < bound
    requires |Edges(g, 1, true, asWritten, step, table, table(g)[e].0, table(g)[e].1[..d])| == i
    ensures var moves := table(g);
      forall k', j' :: Offers(g, step, moves, k', j') && Before(k', j', e, d) ==>
        After(g, step, table, (moves[k'].0, SquareName(moves[k'].1[j']))) < bound
  {
    var moves := table(g);
    forall k', j' | Offers(g, step, moves, k', j') && Before(k', j', e, d)
      ensures After(g, step, table, (moves[k'].0, SquareName(moves[k'].1[j']))) < bound
    {
      EarlierLeaf(g, asWritten, step, table, e, i, d, k', j');
    }
  }

  /** An offered move (k', j') before destination d of entry e is the move of an edge
      before edge (e, i) of the depth-1 node, its leaf the score it leaves. */
  lemma EarlierLeaf(g: Game, asWritten: bool, step: Mover, table: Lister, e: nat, i: nat, d: nat, k': int, j': int)
    requires Valid(g) && Fits(step, table)
    requires var moves := table(g); e < |moves| && d < |moves[e].1|
    requires var t := Build(g, 1, true, asWritten, step, table); Flat(t) && IsEdge(t.groups, e, i)
    requires |Edges(g, 1, true, asWritten, step, table, table(g)[e].0, table(g)[e].1[..d])| == i
    requires Offers(g, step, table(g), k', j') && Before(k', j', e, d)
    ensures var t := Build(g, 1, true, asWritten, step, table); var moves := table(g);
      exists i' :: IsEdge(t.groups, k', i') && Before(k', i', e, i)
        && LeafAt(t, k', i') == After(g, step, table, (moves[k'].0, SquareName(moves[k'].1[j'])))
  {
    var moves := table(g);
    var i' := OfferEdge(g, asWritten, step, table, k', j');
    if k' == e {
      EdgePositions(g, 1, true, asWritten, step, table, moves[e].0, moves[e].1, j', d);
    }
  }

  /** Offered move (k, j) is edge i of group k of the depth-1 node, where i counts the
      moves listed before it, and its leaf is the score it leaves. */
  lemma OfferEdge(g: Game, asWritten: bool, step: Mover, table: Lister, k: int, j: int) returns (i: nat)
    requires Valid(g) && Fits(step, table) && Offers(g, step, table(g), k, j)
    ensures var t := Build(g, 1, true, asWritten, step, table); var moves := table(g);
      && Flat(t) && IsEdge(t.groups, k, i)
      && i == |Edges(g, 1, true, asWritten, step, table, moves[k].0, moves[k].1[..j])|
      && LeafAt(t, k, i) == After(g, step, table, (moves[k].0, SquareName(moves[k].1[j])))
  {
    var t := Build(g, 1, true, asWritten, step, table);
    var moves := table(g);
    OnePlyFlat(g, asWritten, step, table);
    GrowAt(g, 1, true, asWritten, step, table, moves, k);
    EdgeOfDest(g, 1, true, asWritten, step, table, moves[k].0, moves[k].1, j);
    i := |Edges(g, 1, true, asWritten, step, table, moves[k].0, moves[k].1[..j])|;
    var x := t.groups[k].edges[i];
    assert x in t.groups[k].edges;
    BuildFact(g, 1, true, asWritten, step, table, k, x);
  }

  /** `alpha_beta(1, -inf, inf, True)`, as written or corrected: the score is the best
      evaluation that any move of the side to move which `move` accepts leaves, the move
      named is such a move and leaves exactly that score, it is the first such move in
      the order of the table and its destinations, and no move is named only when the
      side to move has none. */
  lemma DepthOneGreedy(g: Game, asWritten: bool)
    requires Valid(g)
    ensures var r := AlphaBeta(g, 1, -INF, INF, true, asWritten);
      var moves := PossibleBoardMoves(g, true);
      && (forall k, j :: Offers(g, TryMove, moves, k, j) ==>
            Evaluate(Move(g, moves[k].0, SquareName(moves[k].1[j])).1.board) <= r.0)
      && (r.1.Some? ==> OwnKey(g, r.1.value.0) && Move(g, r.1.value.0, r.1.value.1).0
                        && Evaluate(Move(g, r.1.value.0, r.1.value.1).1.board) == r.0)
      && (r.1.None? <==> forall k, j :: !Offers(g, TryMove, moves, k, j))
      && (r.1.Some? ==> exists k, j :: (Offers(g, TryMove, moves, k, j)
            && r.1.value == (moves[k].0, SquareName(moves[k].1[j]))
            && forall k', j' :: Offers(g, TryMove, moves, k', j') && Before(k', j', k, j) ==>
                 Evaluate(Move(g, moves[k'].0, SquareName(moves[k'].1[j'])).1.board) < r.0))
  {
    EngineFits();
    OnePlyBest(g, asWritten, TryMove, MoveTable);
  }
}
