/** `possible_board_moves`: the move table the checkmate test, the draw rules and the
    search read. It maps a label per occupied square to that piece's destinations. */
module Listing {
  import opened Text
  import opened Board
  import opened Position
  import opened Movement
  import opened Descriptor
  import opened Rules

  /** The colour of a piece: 1 for white, -1 for black. */
  function Colour(part: int): int { if part > 0 then 1 else -1 }

  /** The key of a square: its file letter, upper case for a white piece and lower case
      for a black one, followed by its rank digit. */
  function Label(s: Square, colour: int): (r: string)
    requires InBounds(s)
    ensures |r| == 2 && BoardToArray(r) == Some(s)
    ensures IsUpper(r[0]) <==> colour > 0
    ensures IsLower(r[0]) <==> colour <= 0
  {
    BoardToArrayExact([if colour > 0 then Upper(Files[s.x]) else Files[s.x], Ranks[s.y]], s);
    [if colour > 0 then Upper(Files[s.x]) else Files[s.x], Ranks[s.y]]
  }

  /** The elements of v that also occur in allowed, in the order of v. */
  function Keep(v: seq<Square>, allowed: seq<Square>): (r: seq<Square>)
    ensures forall m :: m in r <==> m in v && m in allowed
  {
    if v == [] then []
    else (if v[0] in allowed then [v[0]] else []) + Keep(v[1..], allowed)
  }

  /** The last log entry carries a check mark. */
  predicate AfterCheck(g: Game) {
    |g.log| > 0 && '+' in g.log[|g.log| - 1]
  }

  /** The destinations listed for the piece on s: its generator called with the origin
      as a list and the given `capture`; after a checking move only those also cached in
      `c_escape` for s (none if s has no entry). */
  function Entry(g: Game, capture: bool, s: Square): (r: seq<Square>)
    requires Valid(g) && InBounds(s) && At(g.board, s) != 0
    ensures forall m :: m in r ==> InBounds(m)
  {
    var part := At(g.board, s);
    var v := Destinations(g, part, Colour(part), s, capture, false);
    if !AfterCheck(g) then v
    else if s in g.cEscape then Keep(v, g.cEscape[s])
    else []
  }

  /** Position of a square in the row-major order of the source's nested loops. */
  function Index(s: Square): int { 8 * s.y + s.x }

  function SquareAt(i: int): Square { Sq(i % 8, i / 8) }

  type Table = seq<(string, seq<Square>)>

  /** What the end-of-game tests demand of a move table: non-empty keys and destinations
      on the board. */
  predicate WellTable(moves: Table) {
    forall k :: 0 <= k < |moves| ==> |moves[k].0| > 0 && forall j :: 0 <= j < |moves[k].1| ==> InBounds(moves[k].1[j])
  }

  /** The entry for the square of index i, if it is occupied. */
  function Head(g: Game, capture: bool, i: nat): (r: Table)
    requires Valid(g) && i < 64
    ensures |r| <= 1
    ensures forall k :: 0 <= k < |r| ==> BoardToArray(r[k].0) == Some(SquareAt(i)) && |r[k].0| > 0
    ensures forall k, j :: 0 <= k < |r| && 0 <= j < |r[k].1| ==> InBounds(r[k].1[j])
  {
    var s := SquareAt(i);
    if At(g.board, s) == 0 then [] else [(Label(s, Colour(At(g.board, s))), Entry(g, capture, s))]
  }

  /** The table entries for the squares from index i on. */
  function ListFrom(g: Game, capture: bool, i: nat): (r: Table)
    requires Valid(g) && i <= 64
    ensures forall k :: 0 <= k < |r| ==> BoardToArray(r[k].0).Some? && i <= Index(BoardToArray(r[k].0).value)
    ensures WellTable(r)
    decreases 64 - i
  {
    if i == 64 then [] else Head(g, capture, i) + ListFrom(g, capture, i + 1)
  }

  /** `possible_board_moves(capture)`, its dictionary as a list of (key, destinations)
      pairs in insertion order. */
  function PossibleBoardMoves(g: Game, capture: bool): (r: Table)
    requires Valid(g)
    ensures WellTable(r)
  {
    ListFrom(g, capture, 0)
  }

  /** The list from index i: the entry for square i (if occupied) before the list from
      i + 1. */
  lemma ListFromStep(g: Game, capture: bool, i: nat)
    requires Valid(g) && i < 64
    ensures InBounds(SquareAt(i)) && Index(SquareAt(i)) == i
    ensures ListFrom(g, capture, i) == Head(g, capture, i) + ListFrom(g, capture, i + 1)
  {
  }

  /** An entry keyed by the label of an occupied square, whose case shows the colour of
      its piece, listing that piece's destinations. */
  predicate Sound(g: Game, capture: bool, e: (string, seq<Square>))
    requires Valid(g)
  {
    && BoardToArray(e.0).Some?
    && var s := BoardToArray(e.0).value;
    && At(g.board, s) != 0
    && e.0 == Label(s, Colour(At(g.board, s)))
    && e.1 == Entry(g, capture, s)
  }

  /** Every entry is sound. */
  lemma {:induction false} ListFromSound(g: Game, capture: bool, i: nat)
    requires Valid(g) && i <= 64
    ensures var r := ListFrom(g, capture, i);
      forall k :: 0 <= k < |r| ==> Sound(g, capture, r[k])
    decreases 64 - i
  {
    if i < 64 {
      ListFromSound(g, capture, i + 1);
      ListFromStep(g, capture, i);
      HeadSound(g, capture, i);
      SoundConcat(g, capture, Head(g, capture, i), ListFrom(g, capture, i + 1));
    }
  }

  /** The entry for square i, if there is one, is sound. */
  lemma HeadSound(g: Game, capture: bool, i: nat)
    requires Valid(g) && i < 64
    ensures var h := Head(g, capture, i); forall k :: 0 <= k < |h| ==> Sound(g, capture, h[k])
  {
    var s := SquareAt(i);
    if At(g.board, s) != 0 {
      var e := Head(g, capture, i)[0];
      assert BoardToArray(e.0) == Some(s);
      assert Sound(g, capture, e);
    }
  }

  /** Two tables of sound entries make one. */
  lemma SoundConcat(g: Game, capture: bool, a: Table, b: Table)
    requires Valid(g)
    requires forall k :: 0 <= k < |a| ==> Sound(g, capture, a[k])
    requires forall k :: 0 <= k < |b| ==> Sound(g, capture, b[k])
    ensures forall k :: 0 <= k < |a + b| ==> Sound(g, capture, (a + b)[k])
  {
    forall k | 0 <= k < |a + b| ensures Sound(g, capture, (a + b)[k]) {
      if k >= |a| { assert (a + b)[k] == b[k - |a|]; }
    }
  }

  /** The keys come in strictly increasing row-major order of their squares. */
  lemma {:induction false} ListFromOrdered(g: Game, capture: bool, i: nat)
    requires Valid(g) && i <= 64
    ensures var r := ListFrom(g, capture, i);
      forall k, l :: 0 <= k < l < |r| ==> Index(BoardToArray(r[k].0).value) < Index(BoardToArray(r[l].0).value)
    decreases 64 - i
  {
    if i < 64 {
      ListFromOrdered(g, capture, i + 1);
      ListFromStep(g, capture, i);
      OrderedConcat(Head(g, capture, i), ListFrom(g, capture, i + 1), i);
    }
  }

  /** At most one entry keyed at index i before an ordered table keyed above i is
      ordered. */
  lemma OrderedConcat(h: Table, rest: Table, i: int)
    requires |h| <= 1
    requires forall k :: 0 <= k < |h| ==> BoardToArray(h[k].0).Some? && Index(BoardToArray(h[k].0).value) == i
    requires forall k :: 0 <= k < |rest| ==> BoardToArray(rest[k].0).Some? && i + 1 <= Index(BoardToArray(rest[k].0).value)
    requires forall k, l :: 0 <= k < l < |rest| ==> Index(BoardToArray(rest[k].0).value) < Index(BoardToArray(rest[l].0).value)
    ensures var r := h + rest;
      forall k, l :: 0 <= k < l < |r| ==>
        BoardToArray(r[k].0).Some? && BoardToArray(r[l].0).Some? && Index(BoardToArray(r[k].0).value) < Index(BoardToArray(r[l].0).value)
  {
    var r := h + rest;
    forall k, l | 0 <= k < l < |r|
      ensures BoardToArray(r[k].0).Some? && BoardToArray(r[l].0).Some? && Index(BoardToArray(r[k].0).value) < Index(BoardToArray(r[l].0).value)
    {
      assert r[l] == rest[l - |h|];
      if k >= |h| { assert r[k] == rest[k - |h|]; } else { assert r[k] == h[k]; }
    }
  }

  /** Every occupied square from index i on has an entry; k is its place. */
  lemma {:induction false} ListFromComplete(g: Game, capture: bool, i: nat, t: Square) returns (k: nat)
    requires Valid(g) && i <= 64
    requires InBounds(t) && i <= Index(t) && At(g.board, t) != 0
    ensures k < |ListFrom(g, capture, i)|
    ensures BoardToArray(ListFrom(g, capture, i)[k].0) == Some(t)
    decreases 64 - i
  {
    ListFromStep(g, capture, i);
    if Index(t) == i {
      HeadHit(g, capture, t, i);
      k := KeyFirst(Head(g, capture, i), ListFrom(g, capture, i + 1), t);
    } else {
      var j := ListFromComplete(g, capture, i + 1, t);
      k := KeyAfter(Head(g, capture, i), ListFrom(g, capture, i + 1), t, j);
    }
  }

  /** A key leading the head leads the concatenation. */
  lemma KeyFirst(h: Table, rest: Table, t: Square) returns (k: nat)
    requires |h| > 0 && BoardToArray(h[0].0) == Some(t)
    ensures k < |h + rest| && BoardToArray((h + rest)[k].0) == Some(t)
  {
    k := 0;
    assert (h + rest)[k] == h[0];
  }

  /** A key in the tail is found again, shifted, in the concatenation. */
  lemma KeyAfter(h: Table, rest: Table, t: Square, j: nat) returns (k: nat)
    requires j < |rest| && BoardToArray(rest[j].0) == Some(t)
    ensures k < |h + rest| && BoardToArray((h + rest)[k].0) == Some(t)
  {
    k := |h| + j;
    assert (h + rest)[k] == rest[j];
  }

  /** The entry for an occupied square leads the list from its index. */
  lemma HeadHit(g: Game, capture: bool, t: Square, i: nat)
    requires Valid(g) && InBounds(t) && At(g.board, t) != 0 && i == Index(t)
    ensures |Head(g, capture, i)| == 1 && BoardToArray(Head(g, capture, i)[0].0) == Some(t)
  {
    IndexSquare(t);
  }

  /** Index and SquareAt are inverse on the board. */
  lemma IndexSquare(t: Square)
    requires InBounds(t)
    ensures SquareAt(Index(t)) == t
  {
  }

  /** One step of the nested loops of `possible_board_moves` at column x of row y
      (index i): a prefix that the list from i completes is completed, once the entry for
      the square (if occupied) is added, by the list from i + 1. */
  lemma ListStep(g: Game, capture: bool, prefix: Table, all: Table, i: nat, x: nat, y: nat)
    requires Valid(g) && x < 8 && y < 8 && i == 8 * y + x
    requires prefix + ListFrom(g, capture, i) == all
    ensures var s := Sq(x, y);
      && (At(g.board, s) == 0 ==> prefix + ListFrom(g, capture, i + 1) == all)
      && (At(g.board, s) != 0 ==>
            (prefix + [(Label(s, Colour(At(g.board, s))), Entry(g, capture, s))]) + ListFrom(g, capture, i + 1) == all)
  {
    var s := Sq(x, y);
    ListFromStep(g, capture, i);
    CellSquare(i, x, y);
    ConcatAssoc(prefix, Head(g, capture, i), ListFrom(g, capture, i + 1));
    if At(g.board, s) == 0 {
      assert prefix + Head(g, capture, i) == prefix;
    }
  }

  /** Index i, reached as column x of row y, names that square. */
  lemma CellSquare(i: nat, x: nat, y: nat)
    requires x < 8 && y < 8 && i == 8 * y + x
    ensures SquareAt(i) == Sq(x, y)
  {
  }

  /** The list from index i completes the table built so far to the whole list: the
      invariant of the loops of `possible_board_moves`. */
  predicate Completes(g: Game, capture: bool, moves: Table, i: nat)
    requires Valid(g) && i <= 64
  {
    moves + ListFrom(g, capture, i) == ListFrom(g, capture, 0)
  }

  /** A table that the empty list from index 64 completes is the whole list. */
  lemma ListComplete(g: Game, capture: bool, moves: Table)
    requires Valid(g) && Completes(g, capture, moves, 64)
    ensures moves == PossibleBoardMoves(g, capture)
  {
    assert moves + ListFrom(g, capture, 64) == moves;
  }

  /** Appending to a table in two steps or in one. */
  lemma ConcatAssoc(a: Table, b: Table, c: Table)
    ensures (a + b) + c == a + (b + c)
  {
  }

  /** An element of the tail of a concatenation, found again in the whole. */
  lemma TailIndex(head: Table, rest: Table, k: nat)
    requires k < |rest|
    ensures |head + rest| == |head| + |rest| && (head + rest)[|head| + k] == rest[k]
  {
  }

  /** A table describes the board when every entry is sound, no key repeats and every
      occupied square has an entry. */
  ghost predicate Describes(g: Game, capture: bool, r: Table)
    requires Valid(g)
  {
    && (forall k :: 0 <= k < |r| ==> Sound(g, capture, r[k]))
    && (forall k, l :: 0 <= k < l < |r| ==> r[k].0 != r[l].0)
    && (forall s :: InBounds(s) && At(g.board, s) != 0 ==>
          exists k :: 0 <= k < |r| && BoardToArray(r[k].0) == Some(s))
  }

  /** The table of `possible_board_moves` describes the board. */
  lemma PossibleBoardMovesExact(g: Game, capture: bool)
    requires Valid(g)
    ensures Describes(g, capture, PossibleBoardMoves(g, capture))
  {
    var r := PossibleBoardMoves(g, capture);
    ListFromSound(g, capture, 0);
    ListFromDistinct(g, capture, 0);
    assert r == ListFrom(g, capture, 0);
    forall s | InBounds(s) && At(g.board, s) != 0
      ensures exists k :: 0 <= k < |r| && BoardToArray(r[k].0) == Some(s)
    {
      var k := ListFromComplete(g, capture, 0, s);
    }
  }

  /** Distinct squares, so distinct keys. */
  lemma ListFromDistinct(g: Game, capture: bool, i: nat)
    requires Valid(g) && i <= 64
    ensures var r := ListFrom(g, capture, i);
      forall k, l :: 0 <= k < l < |r| ==> r[k].0 != r[l].0
  {
    ListFromOrdered(g, capture, i);
  }

  /** Without a check mark on the last log entry the escape cache is not consulted. */
  lemma UnfilteredWithoutCheck(g: Game, capture: bool, s: Square)
    requires Valid(g) && InBounds(s) && At(g.board, s) != 0 && !AfterCheck(g)
    ensures Entry(g, capture, s) == Destinations(g, At(g.board, s), Colour(At(g.board, s)), s, capture, false)
  {
  }

  /** The origin is passed as a list, which never equals the tuple `King.movement`
      compares it with, so a king's listed destinations are only its neighbours. */
  lemma NoCastlingListed(g: Game, capture: bool, s: Square, m: Square)
    requires Valid(g) && InBounds(s) && Abs(At(g.board, s)) == 6
    requires m in Entry(g, capture, s)
    ensures Adjacent(s, m)
  {
    var part := At(g.board, s);
    assert m in Destinations(g, part, Colour(part), s, capture, false);
    assert m in KingMoves(g, Colour(part), s, false);
  }

  // ---------------------------------------------------------------- the check-mark filter

  /** No log entry carries a check mark. */
  predicate NoCheckMarks(g: Game) {
    forall i :: 0 <= i < |g.log| ==> '+' !in g.log[i]
  }

  /** `log_move` never writes '+', and nothing else appends to the log except
      `pawn_promotion`, whose addition is "=" and a letter: a reset game has no check
      mark, and loading a position, a move and a promotion keep it so. */
  lemma ResetHasNoMarks(g: Game, epd: string)
    ensures NoCheckMarks(Reset(g, epd).1)
  {
  }

  lemma LoadKeepsNoMarks(g: Game, epd: string)
    requires Valid(g) && NoCheckMarks(g)
    ensures NoCheckMarks(LoadEPD(g, epd).1)
  {
  }

  lemma MoveKeepsNoMarks(g: Game, cur: string, next: string)
    requires Valid(g) && NoCheckMarks(g)
    ensures NoCheckMarks(Move(g, cur, next).1)
  {
    if Move(g, cur, next).0 {
      MoveEffects(g, cur, next);
      var r := Move(g, cur, next).1;
      forall i | 0 <= i < |r.log| ensures '+' !in r.log[i] {
        if i < |g.log| {
          assert r.log[i] == r.log[..|g.log|][i];
        }
      }
    }
  }

  lemma PromotionKeepsNoMarks(g: Game, nPart: string)
    requires Valid(g) && NoCheckMarks(g)
    ensures NoCheckMarks(PawnPromotion(g, nPart).1)
  {
    var q := PawnPromotion(g, nPart);
    if q.0 == Succeeded {
      var last := |g.log| - 1;
      forall i | 0 <= i < |q.1.log| ensures '+' !in q.1.log[i] {
        if i < last {
          assert q.1.log[i] == q.1.log[..last][i] == g.log[..last][i];
        } else {
          assert q.1.log[i] == g.log[last] + ['=', PromotedMark(nPart)];
        }
      }
    }
  }

  /** So in every game built by these operations the escape cache is never consulted and
      each entry lists the generator's destinations unfiltered. */
  lemma UnfilteredWithoutMarks(g: Game, capture: bool, s: Square)
    requires Valid(g) && NoCheckMarks(g) && InBounds(s) && At(g.board, s) != 0
    ensures Entry(g, capture, s) == Destinations(g, At(g.board, s), Colour(At(g.board, s)), s, capture, false)
  {
  }
}
