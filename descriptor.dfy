/** The four-field position descriptor: `EPD_hash` writes it and `load_EPD` reads it.
    Fields, separated by single spaces: piece placement (ranks 8..1 separated by '/',
    a digit for a run of empty squares, a letter per piece, upper case for white), the side
    letter, the castling letters `KQkq` or '-', and the en passant square or '-'. */
module Descriptor {
  import opened Text
  import opened Board
  import opened Position

  /** Outcome of an operation that returns True or False, or raises an exception. */
  datatype Outcome = Succeeded | Failed | Raised

  /** `notation` of the piece classes with the pawn's '' read as 'p', lower case. */
  function KindLetter(kind: int): char
    requires 1 <= kind <= 6
  {
    "pnbrqk"[kind - 1]
  }

  /** `self.notation[c]` for a lower-case letter: its kind, or None where the source raises
      a KeyError. */
  function KindOf(c: char): (r: Option<int>)
    ensures r.Some? ==> 1 <= r.value <= 6 && KindLetter(r.value) == c
    ensures forall k :: 1 <= k <= 6 && KindLetter(k) == c ==> r == Some(k)
  {
    if c == 'p' then Some(1) else if c == 'n' then Some(2) else if c == 'b' then Some(3)
    else if c == 'r' then Some(4) else if c == 'q' then Some(5) else if c == 'k' then Some(6)
    else None
  }

  /** The letter `EPD_hash` writes for a piece: lower case for black, upper case for white. */
  function PieceLetter(v: int): (c: char)
    requires IsPiece(v) && v != 0
    ensures v < 0 ==> IsLower(c)
    ensures v > 0 ==> IsUpper(c)
  {
    var l := KindLetter(Abs(v));
    if v < 0 then l else Upper(l)
  }

  /** The piece `load_EPD` puts on a square for a letter (`notation[p.lower()]`, negated
      when the letter is lower case), or None where it raises a KeyError. */
  function PieceOf(c: char): (r: Option<int>)
    ensures r.Some? ==> IsPiece(r.value) && r.value != 0
  {
    match KindOf(Lower(c))
    case None => None
    case Some(k) => Some(if IsLower(c) then -k else k)
  }

  lemma PieceLetterDecodes(v: int)
    requires IsPiece(v) && v != 0
    ensures PieceOf(PieceLetter(v)) == Some(v)
    ensures !IsDigit(PieceLetter(v)) && PieceLetter(v) != '/' && PieceLetter(v) != ' '
  {
  }

  // ---------------------------------------------------------------- writing

  /** The run-length text of the rest of a rank, `e` empty squares having been counted
      but not yet written (`e_count`). */
  function RankText(row: seq<int>, e: nat): string
    requires forall i :: 0 <= i < |row| ==> IsPiece(row[i])
    requires e + |row| <= 9
  {
    var pending := if e > 0 then [DigitChar(e)] else [];
    if row == [] then pending
    else if row[0] == 0 then RankText(row[1..], e + 1)
    else pending + [PieceLetter(row[0])] + RankText(row[1..], 0)
  }

  function Placement(b: Grid): string
    requires WellFormed(b)
  {
    Join(seq(8, i requires 0 <= i < 8 => RankText(b[i], 0)), '/')
  }

  /** The side letter: `w` when `p_move == -1`, `b` otherwise. */
  function SideLetter(pMove: int): string {
    if pMove == -1 then "w" else "b"
  }

  function CastlingText(r: Rights): string {
    if !r.wk && !r.wq && !r.bk && !r.bq then "-"
    else (if r.wk then "K" else "") + (if r.wq then "Q" else "") + (if r.bk then "k" else "") + (if r.bq then "q" else "")
  }

  function EnPassantText(ep: Option<Square>): string
    requires ep.Some? ==> InBounds(ep.value)
  {
    if ep.None? then "-" else SquareName(ep.value)
  }

  /** `EPD_hash` */
  function EPDHash(g: Game): string
    requires Valid(g)
  {
    Placement(g.board) + " " + SideLetter(g.pMove) + " " + CastlingText(g.castling) + " " + EnPassantText(g.enPassant)
  }

  // ---------------------------------------------------------------- reading

  /** Writes n zeros into row from column y on (`for i in range(int(p))`); the flag is false
      when a write falls off the row (an IndexError), with the writes done so far kept. */
  function WriteZeros(row: seq<int>, y: nat, n: nat): (r: (seq<int>, nat, bool))
    ensures |r.0| == |row|
    ensures (forall i :: 0 <= i < |row| ==> IsPiece(row[i])) ==> forall i :: 0 <= i < |row| ==> IsPiece(r.0[i])
    ensures r.2 ==> r.1 == y + n
    decreases n
  {
    if n == 0 then (row, y, true)
    else if y >= |row| then (row, y, false)
    else WriteZeros(row[y := 0], y + 1, n - 1)
  }

  /** The inner loop of `load_EPD` over the characters of one rank, writing from column y.
      The row of a rank past the eighth is empty, so any write to it fails. */
  function ParseRank(row: seq<int>, y: nat, text: string): (r: (seq<int>, bool))
    ensures |r.0| == |row|
    ensures (forall i :: 0 <= i < |row| ==> IsPiece(row[i])) ==> forall i :: 0 <= i < |row| ==> IsPiece(r.0[i])
    decreases |text|
  {
    if text == [] then (row, true)
    else if IsDigit(text[0]) then
      var z := WriteZeros(row, y, DigitValue(text[0]));
      if z.2 then ParseRank(z.0, z.1, text[1..]) else (z.0, false)
    else
      match PieceOf(text[0])
      case None => (row, false)
      case Some(v) => if y < |row| then ParseRank(row[y := v], y + 1, text[1..]) else (row, false)
  }

  function RowOf(b: Grid, x: nat): seq<int>
    requires WellFormed(b)
  {
    if x < 8 then b[x] else []
  }

  /** The outer loop of `load_EPD` over the ranks, rank x first: the board after the writes
      and whether every write stayed on the board. */
  function ParseRanks(b: Grid, x: nat, ranks: seq<string>): (r: (Grid, bool))
    requires WellFormed(b)
    ensures WellFormed(r.0)
    decreases |ranks|
  {
    if ranks == [] then (b, true)
    else
      var row := ParseRank(RowOf(b, x), 0, ranks[0]);
      var b' := if x < 8 then b[x := row.0] else b;
      if row.1 then ParseRanks(b', x + 1, ranks[1..]) else (b', false)
  }

  /** `load_EPD(EPD)`: Failed, with nothing changed, unless the text has exactly four
      space-separated fields; Raised when a placement character is not a piece letter or
      a write falls off the board, with the writes done so far kept and nothing else
      changed; otherwise Succeeded with the board, side, castling and en passant fields
      set. The log, repetition table and escape cache are never touched. */
  function LoadEPD(g: Game, epd: string): (r: (Outcome, Game))
    requires Valid(g)
    ensures Valid(r.1)
    ensures |Split(epd, ' ')| != 4 <==> r.0 == Failed
    ensures r.0 == Failed ==> r.1 == g
    ensures r.0 == Raised ==> r.1 == g.(board := r.1.board)
    ensures r.1.log == g.log && r.1.epdTable == g.epdTable && r.1.cEscape == g.cEscape && r.1.initPos == g.initPos
  {
    var data := Split(epd, ' ');
    if |data| != 4 then (Failed, g)
    else
      var placed := ParseRanks(g.board, 0, Split(data[0], '/'));
      if !placed.1 then (Raised, g.(board := placed.0))
      else
        (Succeeded, g.(
          board := placed.0,
          pMove := if data[1] == "w" then 1 else -1,
          castling := Rights('K' in data[2], 'Q' in data[2], 'k' in data[2], 'q' in data[2]),
          enPassant := if data[3] == "-" then None else BoardToArray(data[3])))
  }

  /** The state `reset` builds before loading: empty log, repetition table and board,
      white to move, all castling rights, no en passant target. The escape cache is kept. */
  function Cleared(g: Game, epd: string): Game {
    g.(log := [], initPos := epd, epdTable := map[], pMove := 1, castling := AllRights,
       enPassant := None, board := Empty())
  }

  /** `reset(EPD)` */
  function Reset(g: Game, epd: string): (r: (Outcome, Game))
    ensures Valid(r.1)
    ensures r.1.log == [] && r.1.epdTable == map[] && r.1.initPos == epd && r.1.cEscape == g.cEscape
    ensures r.0 == Failed ==> r.1 == Cleared(g, epd)
  {
    LoadEPD(Cleared(g, epd), epd)
  }

  const StartEPD := "rnbqkbnr/pppppppp/8/8/8/8/PPPPPPPP/RNBQKBNR w KQkq -"

  // ---------------------------------------------------------------- round trip

  function Zeros(n: nat): (r: seq<int>)
    ensures |r| == n && forall i :: 0 <= i < n ==> r[i] == 0
  {
    seq(n, _ => 0)
  }

  lemma {:induction false} WriteZerosFills(row: seq<int>, y: nat, n: nat)
    requires y + n <= |row|
    ensures WriteZeros(row, y, n) == (row[..y] + Zeros(n) + row[y + n..], y + n, true)
    decreases n
  {
    if n > 0 {
      WriteZerosFills(row[y := 0], y + 1, n - 1);
      assert row[y := 0][..y + 1] + Zeros(n - 1) + row[y := 0][y + 1 + n - 1..]
          == row[..y] + Zeros(n) + row[y + n..];
    } else {
      assert row[..y] + Zeros(n) + row[y + n..] == row;
    }
  }

  /** A digit in the rank text writes that many zeros. */
  lemma ParseDigit(row: seq<int>, y: nat, e: nat, text: string, t: string)
    requires 0 < e <= 9 && y + e <= |row|
    requires text == [DigitChar(e)] + t
    ensures ParseRank(row, y, text) == ParseRank(row[..y] + Zeros(e) + row[y + e..], y + e, t)
  {
    WriteZerosFills(row, y, e);
    assert text[1..] == t;
  }

  /** A piece letter in the rank text writes that piece. */
  lemma ParseLetter(row: seq<int>, y: nat, v: int, t: string)
    requires IsPiece(v) && v != 0 && y < |row|
    ensures ParseRank(row, y, [PieceLetter(v)] + t) == ParseRank(row[y := v], y + 1, t)
  {
    PieceLetterDecodes(v);
    assert ([PieceLetter(v)] + t)[1..] == t;
  }

  /** Reading the run-length text of a rank tail back, starting e columns before the tail,
      writes the e pending zeros and then the tail itself. */
  lemma {:induction false} ParseRankText(row: seq<int>, y: nat, tail: seq<int>, e: nat)
    requires |row| == 8 && y + e + |tail| == 8
    requires forall i :: 0 <= i < |tail| ==> IsPiece(tail[i])
    ensures ParseRank(row, y, RankText(tail, e)) == (row[..y] + Zeros(e) + tail, true)
    decreases |tail|
  {
    if tail == [] {
      if e > 0 {
        assert RankText(tail, e) == [DigitChar(e)] + [];
        ParseDigit(row, y, e, RankText(tail, e), []);
        assert row[y + e..] == [];
      } else {
        assert RankText(tail, e) == [];
        assert row[..y] + Zeros(e) + tail == row;
      }
    } else if tail[0] == 0 {
      assert RankText(tail, e) == RankText(tail[1..], e + 1);
      ParseRankText(row, y, tail[1..], e + 1);
      assert row[..y] + Zeros(e + 1) + tail[1..] == row[..y] + Zeros(e) + tail;
    } else {
      PieceStep(row, y, tail, e);
    }
  }

  lemma PendingDigit(row: seq<int>, y: nat, tail: seq<int>, e: nat)
    requires |row| == 8 && y + e + |tail| == 8 && e > 0
    requires forall i :: 0 <= i < |tail| ==> IsPiece(tail[i])
    requires tail != [] && tail[0] != 0
    ensures ParseRank(row, y, RankText(tail, e)) ==
      ParseRank(row[..y] + Zeros(e) + row[y + e..], y + e, [PieceLetter(tail[0])] + RankText(tail[1..], 0))
  {
    var rest := [PieceLetter(tail[0])] + RankText(tail[1..], 0);
    assert RankText(tail, e) == [DigitChar(e)] + rest;
    ParseDigit(row, y, e, RankText(tail, e), rest);
  }

  /** A piece letter followed by the text of the rest of the rank. */
  lemma {:induction false} PieceAfter(row: seq<int>, y: nat, tail: seq<int>)
    requires |row| == 8 && y + |tail| == 8
    requires forall i :: 0 <= i < |tail| ==> IsPiece(tail[i])
    requires tail != [] && tail[0] != 0
    ensures ParseRank(row, y, [PieceLetter(tail[0])] + RankText(tail[1..], 0)) == (row[..y] + tail, true)
    decreases |tail|, 0
  {
    ParseLetter(row, y, tail[0], RankText(tail[1..], 0));
    ParseRankText(row[y := tail[0]], y + 1, tail[1..], 0);
    assert row[y := tail[0]][..y + 1] + Zeros(0) + tail[1..] == row[..y] + tail;
  }

  lemma {:induction false} PieceStep(row: seq<int>, y: nat, tail: seq<int>, e: nat)
    requires |row| == 8 && y + e + |tail| == 8
    requires forall i :: 0 <= i < |tail| ==> IsPiece(tail[i])
    requires tail != [] && tail[0] != 0
    ensures ParseRank(row, y, RankText(tail, e)) == (row[..y] + Zeros(e) + tail, true)
    decreases |tail|, 2
  {
    if e > 0 {
      PendingStep(row, y, tail, e);
    } else {
      assert RankText(tail, e) == [PieceLetter(tail[0])] + RankText(tail[1..], 0);
      PieceAfter(row, y, tail);
      assert row[..y] + Zeros(e) + tail == row[..y] + tail;
    }
  }

  /** A piece after e > 0 empty squares: the digit, then the piece and the rest. */
  lemma {:induction false} PendingStep(row: seq<int>, y: nat, tail: seq<int>, e: nat)
    requires |row| == 8 && y + e + |tail| == 8 && e > 0
    requires forall i :: 0 <= i < |tail| ==> IsPiece(tail[i])
    requires tail != [] && tail[0] != 0
    ensures ParseRank(row, y, RankText(tail, e)) == (row[..y] + Zeros(e) + tail, true)
    decreases |tail|, 1
  {
    var row1 := row[..y] + Zeros(e) + row[y + e..];
    PendingDigit(row, y, tail, e);
    PieceAfter(row1, y + e, tail);
    assert row1[..y + e] == row[..y] + Zeros(e);
  }

  lemma RankTextFree(tail: seq<int>, e: nat)
    requires forall i :: 0 <= i < |tail| ==> IsPiece(tail[i])
    requires e + |tail| <= 9
    ensures '/' !in RankText(tail, e) && ' ' !in RankText(tail, e)
    decreases |tail|
  {
    if tail != [] {
      if tail[0] == 0 { RankTextFree(tail[1..], e + 1); } else { RankTextFree(tail[1..], 0); }
    }
  }

  lemma {:induction false} ParseRanksExact(b: Grid, src: Grid, x: nat)
    requires WellFormed(b) && WellFormed(src) && x <= 8
    requires forall i :: 0 <= i < x ==> b[i] == src[i]
    ensures ParseRanks(b, x, seq(8 - x, i requires 0 <= i < 8 - x => RankText(src[x + i], 0))) == (src, true)
    decreases 8 - x
  {
    var ranks := seq(8 - x, i requires 0 <= i < 8 - x => RankText(src[x + i], 0));
    if x == 8 {
      assert b == src;
    } else {
      ParseRankText(b[x], 0, src[x], 0);
      assert b[x][..0] + Zeros(0) + src[x] == src[x];
      var b' := b[x := src[x]];
      assert ranks[1..] == seq(8 - (x + 1), i requires 0 <= i < 8 - (x + 1) => RankText(src[x + 1 + i], 0));
      ParseRanksExact(b', src, x + 1);
    }
  }

  lemma CastlingTextDecodes(r: Rights)
    ensures ' ' !in CastlingText(r)
    ensures ('K' in CastlingText(r)) == r.wk && ('Q' in CastlingText(r)) == r.wq
    ensures ('k' in CastlingText(r)) == r.bk && ('q' in CastlingText(r)) == r.bq
  {
  }

  lemma PlacementSplits(b: Grid)
    requires WellFormed(b)
    ensures ' ' !in Placement(b)
    ensures Split(Placement(b), '/') == seq(8, i requires 0 <= i < 8 => RankText(b[i], 0))
  {
    var ranks := seq(8, i requires 0 <= i < 8 => RankText(b[i], 0));
    forall i | 0 <= i < 8 ensures '/' !in ranks[i] && ' ' !in ranks[i] { RankTextFree(b[i], 0); }
    SplitJoin(ranks, '/');
    JoinAvoids(ranks, '/', ' ');
  }

  lemma FourFields(a: string, b: string, c: string, d: string)
    requires ' ' !in a && ' ' !in b && ' ' !in c && ' ' !in d
    ensures Split(a + " " + b + " " + c + " " + d, ' ') == [a, b, c, d]
  {
    var cd := c + [' '] + d;
    var bcd := b + [' '] + cd;
    SpacedFour(a, b, c, d);
    SplitNoSeparator(d, ' ');
    SplitAfterPart(c, ' ', d);
    assert Split(cd, ' ') == [c, d];
    SplitAfterPart(b, ' ', cd);
    assert Split(bcd, ' ') == [b, c, d];
    SplitAfterPart(a, ' ', bcd);
    assert Split(a + [' '] + bcd, ' ') == [a, b, c, d];
  }

  /** The four fields joined by spaces, grouped from the right. */
  lemma SpacedFour(a: string, b: string, c: string, d: string)
    ensures a + " " + b + " " + c + " " + d == a + [' '] + (b + [' '] + (c + [' '] + d))
  {
  }

  /** Loading a descriptor that `EPD_hash` wrote reproduces the board, the castling rights
      and the en passant target, and sets the OTHER side to move: the side letter written
      is inverted relative to the one read. */
  lemma {:induction false} LoadAfterHash(g0: Game, g: Game)
    requires Valid(g0) && Valid(g)
    ensures LoadEPD(g0, EPDHash(g)) ==
      (Succeeded, g0.(board := g.board, pMove := -g.pMove, castling := g.castling, enPassant := g.enPassant))
  {
    var place, side, cast, ep := Placement(g.board), SideLetter(g.pMove), CastlingText(g.castling), EnPassantText(g.enPassant);
    PlacementSplits(g.board);
    CastlingTextDecodes(g.castling);
    if g.enPassant.Some? { SquareNameRoundTrip(g.enPassant.value); }
    FourFields(place, side, cast, ep);
    PlacementLoads(g0.board, g.board);
    assert (side == "w") == (g.pMove == -1);
    assert Rights('K' in cast, 'Q' in cast, 'k' in cast, 'q' in cast) == g.castling;
    assert (if ep == "-" then None else BoardToArray(ep)) == g.enPassant;
    FieldsLoad(g0, EPDHash(g), [place, side, cast, ep], g.board);
  }

  /** `load_EPD` on four fields whose placement loads completely. */
  lemma FieldsLoad(g: Game, epd: string, data: seq<string>, b: Grid)
    requires Valid(g) && Split(epd, ' ') == data && |data| == 4
    requires ParseRanks(g.board, 0, Split(data[0], '/')) == (b, true)
    ensures LoadEPD(g, epd) == (Succeeded, g.(
      board := b,
      pMove := if data[1] == "w" then 1 else -1,
      castling := Rights('K' in data[2], 'Q' in data[2], 'k' in data[2], 'q' in data[2]),
      enPassant := if data[3] == "-" then None else BoardToArray(data[3])))
  {
  }

  /** The placement field `EPD_hash` writes loads back onto any board as the board it
      was written from. */
  lemma PlacementLoads(b: Grid, src: Grid)
    requires WellFormed(b) && WellFormed(src)
    ensures ParseRanks(b, 0, Split(Placement(src), '/')) == (src, true)
  {
    PlacementSplits(src);
    ParseRanksExact(b, src, 0);
    assert seq(8 - 0, i requires 0 <= i < 8 - 0 => RankText(src[0 + i], 0))
        == seq(8, i requires 0 <= i < 8 => RankText(src[i], 0));
  }

  /** `load_EPD` and then `EPD_hash` give back a descriptor that `EPD_hash` wrote, with
      only its side letter changed. */
  lemma HashAfterLoad(g0: Game, g: Game)
    requires Valid(g0) && Valid(g)
    ensures LoadEPD(g0, EPDHash(g)).0 == Succeeded
    ensures EPDHash(LoadEPD(g0, EPDHash(g)).1) ==
      Placement(g.board) + " " + SideLetter(-g.pMove) + " " + CastlingText(g.castling) + " " + EnPassantText(g.enPassant)
    ensures SideLetter(-g.pMove) != SideLetter(g.pMove)
  {
    LoadAfterHash(g0, g);
  }
}
