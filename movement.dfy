/** The `movement` functions of the nested piece classes `King`, `Queen`, `Rook`, `Bishop`,
    `Knight` and `Pawn`: pseudo-legal destinations of one piece, in the order the source
    appends them. Each reads the board and, for the king and the pawn, the castling rights,
    the side to move and the en passant target of the game passed in. */
module Movement {
  import opened Text
  import opened Board
  import opened Position

  /** The square holds a piece of the other side (`board * player < 0`). */
  predicate Opponent(b: Grid, player: int, s: Square)
    requires WellFormed(b) && InBounds(s)
  {
    At(b, s) * player < 0
  }

  /** The square may be moved onto: empty or held by the other side. */
  predicate Open(b: Grid, player: int, s: Square)
    requires WellFormed(b) && InBounds(s)
  {
    At(b, s) * player < 0 || At(b, s) == 0
  }

  /** One guarded `result.append(s)` of the king and knight generators. */
  function Hop(b: Grid, player: int, s: Square): (r: seq<Square>)
    requires WellFormed(b)
    ensures forall m :: m in r <==> m == s && InBounds(s) && Open(b, player, s)
  {
    if InBounds(s) && Open(b, player, s) then [s] else []
  }

  // ---------------------------------------------------------------- knight

  predicate KnightJump(from: Square, to: Square) {
    var dx, dy := Abs(to.x - from.x), Abs(to.y - from.y);
    (dx == 1 && dy == 2) || (dx == 2 && dy == 1)
  }

  /** The four appends of one pass of `for i in [-1, 1]`. */
  function KnightRound(b: Grid, player: int, pos: Square, i: int): seq<Square>
    requires WellFormed(b)
  {
    Hop(b, player, Sq(pos.x - i, pos.y - 2 * i)) + Hop(b, player, Sq(pos.x + i, pos.y - 2 * i))
    + Hop(b, player, Sq(pos.x - 2 * i, pos.y - i)) + Hop(b, player, Sq(pos.x - 2 * i, pos.y + i))
  }

  /** `Knight.movement` */
  function KnightMoves(g: Game, player: int, pos: Square): seq<Square>
    requires WellFormed(g.board) && InBounds(pos)
  {
    KnightRound(g.board, player, pos, -1) + KnightRound(g.board, player, pos, 1)
  }

  lemma HopExact(b: Grid, player: int, s: Square, m: Square)
    requires WellFormed(b)
    ensures m in Hop(b, player, s) <==> m == s && InBounds(s) && Open(b, player, s)
  {
  }

  /** The knight reaches exactly the knight jumps that stay on the board and do not land
      on a piece of the mover's own side. */
  lemma KnightMovesExact(g: Game, player: int, pos: Square, m: Square)
    requires WellFormed(g.board) && InBounds(pos)
    ensures m in KnightMoves(g, player, pos) <==> KnightJump(pos, m) && InBounds(m) && Open(g.board, player, m)
  {
    var b, x, y := g.board, pos.x, pos.y;
    HopExact(b, player, Sq(x + 1, y + 2), m);
    HopExact(b, player, Sq(x - 1, y + 2), m);
    HopExact(b, player, Sq(x + 2, y + 1), m);
    HopExact(b, player, Sq(x + 2, y - 1), m);
    HopExact(b, player, Sq(x - 1, y - 2), m);
    HopExact(b, player, Sq(x + 1, y - 2), m);
    HopExact(b, player, Sq(x - 2, y - 1), m);
    HopExact(b, player, Sq(x - 2, y + 1), m);
    assert KnightRound(b, player, pos, -1) ==
      Hop(b, player, Sq(x + 1, y + 2)) + Hop(b, player, Sq(x - 1, y + 2))
      + Hop(b, player, Sq(x + 2, y + 1)) + Hop(b, player, Sq(x + 2, y - 1));
    assert KnightRound(b, player, pos, 1) ==
      Hop(b, player, Sq(x - 1, y - 2)) + Hop(b, player, Sq(x + 1, y - 2))
      + Hop(b, player, Sq(x - 2, y - 1)) + Hop(b, player, Sq(x - 2, y + 1));
  }

  // ---------------------------------------------------------------- king

  predicate Adjacent(from: Square, to: Square) {
    from != to && Abs(to.x - from.x) <= 1 && Abs(to.y - from.y) <= 1
  }

  /** The castling gate reads the game's side to move, not the `player` argument. */
  predicate KingSideRight(g: Game) {
    (g.castling.wk && g.pMove == 1) || (g.castling.bk && g.pMove == -1)
  }

  predicate QueenSideRight(g: Game) {
    (g.castling.wq && g.pMove == 1) || (g.castling.bq && g.pMove == -1)
  }

  /** `pos == (4, 7) or pos == (4, 0)`. The comparison is with a tuple, so it only holds
      when the caller passed the origin as a tuple; `possible_board_moves` passes a list. */
  predicate CastleOrigin(pos: Square, originIsTuple: bool) {
    originIsTuple && (pos == Sq(4, 7) || pos == Sq(4, 0))
  }

  predicate KingSideCastle(g: Game, pos: Square, originIsTuple: bool)
    requires WellFormed(g.board)
  {
    CastleOrigin(pos, originIsTuple)
    && At(g.board, Sq(5, pos.y)) == 0 && At(g.board, Sq(6, pos.y)) == 0 && KingSideRight(g)
  }

  predicate QueenSideCastle(g: Game, pos: Square, originIsTuple: bool)
    requires WellFormed(g.board)
  {
    CastleOrigin(pos, originIsTuple)
    && At(g.board, Sq(3, pos.y)) == 0 && At(g.board, Sq(2, pos.y)) == 0 && QueenSideRight(g)
  }

  function KingSteps(b: Grid, player: int, pos: Square): (r: seq<Square>)
    requires WellFormed(b)
    ensures forall m :: m in r <==> Adjacent(pos, m) && InBounds(m) && Open(b, player, m)
  {
    var straight := StraightSteps(b, player, pos);
    var diagonal := DiagonalSteps(b, player, pos);
    assert forall m :: Adjacent(pos, m) <==> ((m.x == pos.x || m.y == pos.y) && Adjacent(pos, m)) || (m.x != pos.x && m.y != pos.y && Adjacent(pos, m));
    straight + diagonal
  }

  /** The four orthogonal neighbours, in the order the generator tries them. */
  function StraightSteps(b: Grid, player: int, pos: Square): (r: seq<Square>)
    requires WellFormed(b)
    ensures forall m :: m in r <==> (m.x == pos.x || m.y == pos.y) && Adjacent(pos, m) && InBounds(m) && Open(b, player, m)
  {
    Hop(b, player, Sq(pos.x, pos.y + 1)) + Hop(b, player, Sq(pos.x, pos.y - 1))
    + Hop(b, player, Sq(pos.x + 1, pos.y)) + Hop(b, player, Sq(pos.x - 1, pos.y))
  }

  /** The four diagonal neighbours, in the order the generator tries them. */
  function DiagonalSteps(b: Grid, player: int, pos: Square): (r: seq<Square>)
    requires WellFormed(b)
    ensures forall m :: m in r <==> m.x != pos.x && m.y != pos.y && Adjacent(pos, m) && InBounds(m) && Open(b, player, m)
  {
    Hop(b, player, Sq(pos.x + 1, pos.y + 1)) + Hop(b, player, Sq(pos.x - 1, pos.y + 1))
    + Hop(b, player, Sq(pos.x + 1, pos.y - 1)) + Hop(b, player, Sq(pos.x - 1, pos.y - 1))
  }

  /** `King.movement`: the adjacent squares that are on the board and not held by the
      mover's side, then the two castling squares two columns to either side. Castling is
      gated only by the king's square, the two squares next to it on that side being empty
      and the right of the side to move; the rook is not looked at. */
  function KingMoves(g: Game, player: int, pos: Square, originIsTuple: bool): (r: seq<Square>)
    requires WellFormed(g.board) && InBounds(pos)
    ensures forall m :: m in r <==>
      || (Adjacent(pos, m) && InBounds(m) && Open(g.board, player, m))
      || (m == Sq(6, pos.y) && KingSideCastle(g, pos, originIsTuple))
      || (m == Sq(2, pos.y) && QueenSideCastle(g, pos, originIsTuple))
  {
    var kingSide := if KingSideCastle(g, pos, originIsTuple) then [Sq(pos.x + 2, pos.y)] else [];
    var queenSide := if QueenSideCastle(g, pos, originIsTuple) then [Sq(pos.x - 2, pos.y)] else [];
    assert forall m :: m in kingSide <==> m == Sq(6, pos.y) && KingSideCastle(g, pos, originIsTuple);
    assert forall m :: m in queenSide <==> m == Sq(2, pos.y) && QueenSideCastle(g, pos, originIsTuple);
    KingSteps(g.board, player, pos) + kingSide + queenSide
  }

  // ---------------------------------------------------------------- pawn

  /** The starting row: 6 for white, which moves towards row 0, and 1 for black. */
  function PawnStart(player: int): int { if player < 0 then 1 else 6 }

  /** `Pawn.movement`: up to two forward steps onto empty squares (two only from the
      starting row, and the second only when the first was possible), then the two
      diagonal captures, then the two diagonal squares equal to the en passant target,
      whatever stands on them. */
  function PawnMoves(g: Game, player: int, pos: Square): (r: seq<Square>)
    requires WellFormed(g.board) && InBounds(pos) && (player == 1 || player == -1)
  {
    var b := g.board;
    var one := Sq(pos.x, pos.y - player);
    var two := Sq(pos.x, pos.y - 2 * player);
    var right := Sq(pos.x + 1, pos.y - player);
    var left := Sq(pos.x - 1, pos.y - player);
    var forward :=
      if InBounds(one) && At(b, one) == 0 then
        [one] + (if pos.y == PawnStart(player) && InBounds(two) && At(b, two) == 0 then [two] else [])
      else [];
    forward
    + (if InBounds(right) && At(b, right) * player < 0 then [right] else [])
    + (if InBounds(left) && At(b, left) * player < 0 then [left] else [])
    + (if InBounds(right) && Some(right) == g.enPassant then [right] else [])
    + (if InBounds(left) && Some(left) == g.enPassant then [left] else [])
  }

  /** What a pawn may do, square by square: step forward onto an empty square; step
      twice from the starting row over an empty square onto an empty square; move one
      row forward diagonally onto an opponent piece or onto the en passant target. */
  lemma PawnMovesExact(g: Game, player: int, pos: Square, m: Square)
    requires WellFormed(g.board) && InBounds(pos) && (player == 1 || player == -1)
    ensures m in PawnMoves(g, player, pos) <==>
      && InBounds(m)
      && (|| (m == Sq(pos.x, pos.y - player) && At(g.board, m) == 0)
          || (m == Sq(pos.x, pos.y - 2 * player) && pos.y == PawnStart(player)
              && At(g.board, Sq(pos.x, pos.y - player)) == 0 && At(g.board, m) == 0)
          || ((m == Sq(pos.x + 1, pos.y - player) || m == Sq(pos.x - 1, pos.y - player))
              && (Opponent(g.board, player, m) || Some(m) == g.enPassant)))
  {
  }

  /** Forward moves go only onto empty squares; two steps are offered only from the
      starting row and only over an empty square. */
  lemma PawnForward(g: Game, player: int, pos: Square, m: Square)
    requires WellFormed(g.board) && InBounds(pos) && (player == 1 || player == -1)
    requires m in PawnMoves(g, player, pos) && m.x == pos.x
    ensures InBounds(m) && At(g.board, m) == 0
    ensures m.y == pos.y - player
            || (m.y == pos.y - 2 * player && pos.y == PawnStart(player)
                && At(g.board, Sq(pos.x, pos.y - player)) == 0)
  {
    PawnMovesExact(g, player, pos, m);
  }

  // ---------------------------------------------------------------- sliders

  /** A ray direction; each component is -1, 0 or 1. */
  datatype Dir = Dir(dx: int, dy: int)

  /** The ray order of `check[0..3]` in `Rook.movement` (and of `Queen.movement`). */
  const RookDirs: seq<Dir> := [Dir(0, 1), Dir(0, -1), Dir(1, 0), Dir(-1, 0)]
  /** The ray order of `check[0..3]` in `Bishop.movement` (and `check[4..7]` of the queen). */
  const BishopDirs: seq<Dir> := [Dir(1, 1), Dir(-1, 1), Dir(1, -1), Dir(-1, -1)]
  const QueenDirs: seq<Dir> := RookDirs + BishopDirs

  /** c times a direction component, written out so that it stays linear. */
  function Along(v: int, c: int): int { if v == 1 then c else if v == -1 then -c else 0 }

  /** The square at distance c from pos along d. */
  function Step(pos: Square, d: Dir, c: int): Square {
    Sq(pos.x + Along(d.dx, c), pos.y + Along(d.dy, c))
  }

  /** One pass of the body of `for c in range(1, 8)` over all rays: the squares appended at
      distance c, and the new `check` flags. A ray appends its square when its flag is up
      and the square is on the board and empty or an opponent's; it stays up only if it
      appended and did not just stop at a capture. */
  function Layer(b: Grid, player: int, pos: Square, dirs: seq<Dir>, check: seq<bool>,
                 capture: bool, c: int): (r: (seq<Square>, seq<bool>))
    requires WellFormed(b) && |check| == |dirs|
    ensures |r.1| == |dirs|
  {
    if dirs == [] then ([], [])
    else
      var s := Step(pos, dirs[0], c);
      var hit := InBounds(s) && Open(b, player, s) && check[0];
      var stay := hit && !(capture && Opponent(b, player, s));
      var rest := Layer(b, player, pos, dirs[1..], check[1..], capture, c);
      ((if hit then [s] else []) + rest.0, [stay] + rest.1)
  }

  /** The loop `for c in range(c, 8)`, leaving it as soon as no flag is up
      (`if True not in check: break`). */
  function Slide(b: Grid, player: int, pos: Square, dirs: seq<Dir>, check: seq<bool>,
                 capture: bool, c: int): seq<Square>
    requires WellFormed(b) && |check| == |dirs|
    decreases 8 - c
  {
    if c > 7 then []
    else
      var layer := Layer(b, player, pos, dirs, check, capture, c);
      layer.0 + (if true in layer.1 then Slide(b, player, pos, dirs, layer.1, capture, c + 1) else [])
  }

  function SliderMoves(g: Game, player: int, pos: Square, dirs: seq<Dir>, capture: bool): seq<Square>
    requires WellFormed(g.board)
  {
    Slide(g.board, player, pos, dirs, seq(|dirs|, _ => true), capture, 1)
  }

  /** `Rook.movement` */
  function RookMoves(g: Game, player: int, pos: Square, capture: bool): seq<Square>
    requires WellFormed(g.board)
  {
    SliderMoves(g, player, pos, RookDirs, capture)
  }

  /** `Bishop.movement` */
  function BishopMoves(g: Game, player: int, pos: Square, capture: bool): seq<Square>
    requires WellFormed(g.board)
  {
    SliderMoves(g, player, pos, BishopDirs, capture)
  }

  /** `Queen.movement` */
  function QueenMoves(g: Game, player: int, pos: Square, capture: bool): seq<Square>
    requires WellFormed(g.board)
  {
    SliderMoves(g, player, pos, QueenDirs, capture)
  }

  /** The ray along d lets a slide pass the square at distance c. */
  predicate Passes(b: Grid, player: int, pos: Square, d: Dir, c: int, capture: bool)
    requires WellFormed(b)
  {
    var s := Step(pos, d, c);
    InBounds(s) && Open(b, player, s) && !(capture && Opponent(b, player, s))
  }

  /** The ray along d is still live at distance c: it passed every square before c. */
  predicate Live(b: Grid, player: int, pos: Square, d: Dir, c: int, capture: bool)
    requires WellFormed(b)
    decreases c
  {
    c <= 1 || (Live(b, player, pos, d, c - 1, capture) && Passes(b, player, pos, d, c - 1, capture))
  }

  /** The slide along d appends the square at distance c. */
  predicate Reaches(b: Grid, player: int, pos: Square, d: Dir, c: int, capture: bool)
    requires WellFormed(b)
  {
    var s := Step(pos, d, c);
    1 <= c <= 7 && Live(b, player, pos, d, c, capture) && InBounds(s) && Open(b, player, s)
  }

  /** The `check` flags that hold on entry to distance c. */
  predicate FlagsAt(b: Grid, player: int, pos: Square, dirs: seq<Dir>, check: seq<bool>,
                    capture: bool, c: int)
    requires WellFormed(b)
  {
    |check| == |dirs| && forall k :: 0 <= k < |dirs| ==> check[k] == Live(b, player, pos, dirs[k], c, capture)
  }

  lemma {:induction false} LayerExact(b: Grid, player: int, pos: Square, dirs: seq<Dir>,
                                      check: seq<bool>, capture: bool, c: int)
    requires WellFormed(b) && 1 <= c <= 7
    requires FlagsAt(b, player, pos, dirs, check, capture, c)
    ensures FlagsAt(b, player, pos, dirs, Layer(b, player, pos, dirs, check, capture, c).1, capture, c + 1)
    ensures forall m :: m in Layer(b, player, pos, dirs, check, capture, c).0 <==>
      exists k :: 0 <= k < |dirs| && m == Step(pos, dirs[k], c) && Reaches(b, player, pos, dirs[k], c, capture)
    decreases |dirs|
  {
    if dirs != [] {
      var rest := Layer(b, player, pos, dirs[1..], check[1..], capture, c);
      LayerExact(b, player, pos, dirs[1..], check[1..], capture, c);
      var r := Layer(b, player, pos, dirs, check, capture, c);
      forall k | 0 <= k < |dirs|
        ensures r.1[k] == Live(b, player, pos, dirs[k], c + 1, capture)
      {
        if k > 0 { assert r.1[k] == rest.1[k - 1] && dirs[k] == dirs[1..][k - 1]; }
      }
      forall m
        ensures m in r.0 <==>
          exists k :: 0 <= k < |dirs| && m == Step(pos, dirs[k], c) && Reaches(b, player, pos, dirs[k], c, capture)
      {
        if m in rest.0 {
          var k :| 0 <= k < |dirs[1..]| && m == Step(pos, dirs[1..][k], c) && Reaches(b, player, pos, dirs[1..][k], c, capture);
          assert dirs[k + 1] == dirs[1..][k];
        }
        if exists k :: 0 <= k < |dirs| && m == Step(pos, dirs[k], c) && Reaches(b, player, pos, dirs[k], c, capture) {
          var k :| 0 <= k < |dirs| && m == Step(pos, dirs[k], c) && Reaches(b, player, pos, dirs[k], c, capture);
          if k > 0 { assert dirs[1..][k - 1] == dirs[k]; }
        }
      }
    }
  }

  /** A dead ray stays dead. */
  lemma {:induction false} DeadStaysDead(b: Grid, player: int, pos: Square, d: Dir, c: int, c': int, capture: bool)
    requires WellFormed(b) && 1 <= c <= c'
    requires !Live(b, player, pos, d, c, capture)
    ensures !Live(b, player, pos, d, c', capture)
    decreases c' - c
  {
    if c < c' { DeadStaysDead(b, player, pos, d, c + 1, c', capture); }
  }

  lemma {:induction false} SlideExact(b: Grid, player: int, pos: Square, dirs: seq<Dir>,
                                      check: seq<bool>, capture: bool, c: int, m: Square)
    requires WellFormed(b) && 1 <= c
    requires FlagsAt(b, player, pos, dirs, check, capture, c)
    ensures m in Slide(b, player, pos, dirs, check, capture, c) <==> ReachedFrom(b, player, pos, dirs, capture, c, m)
    decreases 8 - c
  {
    if c <= 7 {
      var layer := Layer(b, player, pos, dirs, check, capture, c);
      LayerHas(b, player, pos, dirs, check, capture, c, m);
      if true in layer.1 {
        SlideExact(b, player, pos, dirs, layer.1, capture, c + 1, m);
        SlideOn(b, player, pos, dirs, check, capture, c, m);
      } else {
        SlideStop(b, player, pos, dirs, check, capture, c, m);
      }
    }
  }

  /** A layer with a ray still live: the slide from c is the layer and the slide on. */
  lemma SlideOn(b: Grid, player: int, pos: Square, dirs: seq<Dir>, check: seq<bool>, capture: bool, c: int, m: Square)
    requires WellFormed(b) && 1 <= c <= 7
    requires FlagsAt(b, player, pos, dirs, check, capture, c)
    requires var layer := Layer(b, player, pos, dirs, check, capture, c);
      && true in layer.1
      && (m in Slide(b, player, pos, dirs, layer.1, capture, c + 1) <==> ReachedFrom(b, player, pos, dirs, capture, c + 1, m))
    ensures m in Slide(b, player, pos, dirs, check, capture, c) <==> ReachedFrom(b, player, pos, dirs, capture, c, m)
  {
    var layer := Layer(b, player, pos, dirs, check, capture, c);
    LayerHas(b, player, pos, dirs, check, capture, c, m);
    assert Slide(b, player, pos, dirs, check, capture, c) == layer.0 + Slide(b, player, pos, dirs, layer.1, capture, c + 1);
  }

  /** A layer after which every ray is dead: the slide stops there. */
  lemma SlideStop(b: Grid, player: int, pos: Square, dirs: seq<Dir>, check: seq<bool>, capture: bool, c: int, m: Square)
    requires WellFormed(b) && 1 <= c <= 7
    requires FlagsAt(b, player, pos, dirs, check, capture, c)
    requires true !in Layer(b, player, pos, dirs, check, capture, c).1
    ensures m in Slide(b, player, pos, dirs, check, capture, c) <==> ReachedFrom(b, player, pos, dirs, capture, c, m)
  {
    var layer := Layer(b, player, pos, dirs, check, capture, c);
    LayerHas(b, player, pos, dirs, check, capture, c, m);
    assert Slide(b, player, pos, dirs, check, capture, c) == layer.0 + [];
    forall k | 0 <= k < |dirs| ensures !Live(b, player, pos, dirs[k], c + 1, capture) {
      assert !layer.1[k];
    }
    AllDead(b, player, pos, dirs, capture, c + 1, m);
  }

  /** LayerExact for the one square m. */
  lemma LayerHas(b: Grid, player: int, pos: Square, dirs: seq<Dir>, check: seq<bool>, capture: bool, c: int, m: Square)
    requires WellFormed(b) && 1 <= c <= 7
    requires FlagsAt(b, player, pos, dirs, check, capture, c)
    ensures FlagsAt(b, player, pos, dirs, Layer(b, player, pos, dirs, check, capture, c).1, capture, c + 1)
    ensures m in Layer(b, player, pos, dirs, check, capture, c).0 <==> ReachedAt(b, player, pos, dirs, capture, c, m)
  {
    LayerExact(b, player, pos, dirs, check, capture, c);
  }

  /** Some ray reaches m at distance c. */
  ghost predicate ReachedAt(b: Grid, player: int, pos: Square, dirs: seq<Dir>, capture: bool, c: int, m: Square)
    requires WellFormed(b)
  {
    exists k :: 0 <= k < |dirs| && m == Step(pos, dirs[k], c) && Reaches(b, player, pos, dirs[k], c, capture)
  }

  /** Some ray reaches m at distance c or beyond, up to 7. */
  ghost predicate ReachedFrom(b: Grid, player: int, pos: Square, dirs: seq<Dir>, capture: bool, c: int, m: Square)
    requires WellFormed(b)
    decreases 8 - c
  {
    c <= 7 && (ReachedAt(b, player, pos, dirs, capture, c, m) || ReachedFrom(b, player, pos, dirs, capture, c + 1, m))
  }

  /** With every ray dead at distance c, none reaches m at c or beyond. */
  lemma {:induction false} AllDead(b: Grid, player: int, pos: Square, dirs: seq<Dir>, capture: bool, c: int, m: Square)
    requires WellFormed(b) && 1 <= c
    requires forall k :: 0 <= k < |dirs| ==> !Live(b, player, pos, dirs[k], c, capture)
    ensures !ReachedFrom(b, player, pos, dirs, capture, c, m)
    decreases 8 - c
  {
    if c <= 7 {
      forall k | 0 <= k < |dirs| ensures !Live(b, player, pos, dirs[k], c + 1, capture) {
        assert !Live(b, player, pos, dirs[k], c, capture);
      }
      AllDead(b, player, pos, dirs, capture, c + 1, m);
    }
  }

  /** ReachedFrom is the search for a ray and a distance from c on. */
  lemma {:induction false} ReachedFromExact(b: Grid, player: int, pos: Square, dirs: seq<Dir>, capture: bool, c: int, m: Square)
    requires WellFormed(b)
    ensures ReachedFrom(b, player, pos, dirs, capture, c, m) <==>
      exists k, c' :: 0 <= k < |dirs| && c <= c' && m == Step(pos, dirs[k], c') && Reaches(b, player, pos, dirs[k], c', capture)
    decreases 8 - c
  {
    if c <= 7 {
      ReachedFromExact(b, player, pos, dirs, capture, c + 1, m);
      if exists k, c' :: 0 <= k < |dirs| && c <= c' && m == Step(pos, dirs[k], c') && Reaches(b, player, pos, dirs[k], c', capture) {
        var k, c' :| 0 <= k < |dirs| && c <= c' && m == Step(pos, dirs[k], c') && Reaches(b, player, pos, dirs[k], c', capture);
        if c' == c {
          assert ReachedAt(b, player, pos, dirs, capture, c, m);
        }
      }
      if ReachedAt(b, player, pos, dirs, capture, c, m) {
        var k :| 0 <= k < |dirs| && m == Step(pos, dirs[k], c) && Reaches(b, player, pos, dirs[k], c, capture);
        assert c <= c;
      }
    }
  }

  /** Every square a slider appends is the square at some distance along one of its rays,
      and such a square is appended exactly when the ray reaches it. */
  lemma SliderMovesExact(g: Game, player: int, pos: Square, dirs: seq<Dir>, capture: bool, m: Square)
    requires WellFormed(g.board)
    ensures m in SliderMoves(g, player, pos, dirs, capture) <==>
      exists k, c :: 0 <= k < |dirs| && 1 <= c && m == Step(pos, dirs[k], c) && Reaches(g.board, player, pos, dirs[k], c, capture)
  {
    SlideExact(g.board, player, pos, dirs, seq(|dirs|, _ => true), capture, 1, m);
    ReachedFromExact(g.board, player, pos, dirs, capture, 1, m);
  }

  /** Every square strictly between pos and distance c along d is on the board and empty. */
  predicate ClearPath(b: Grid, pos: Square, d: Dir, c: int)
    requires WellFormed(b)
  {
    forall j :: 1 <= j < c ==> InBounds(Step(pos, d, j)) && At(b, Step(pos, d, j)) == 0
  }

  lemma {:induction false} LiveWithCapture(b: Grid, player: int, pos: Square, d: Dir, c: int)
    requires WellFormed(b) && (player == 1 || player == -1) && 1 <= c
    ensures Live(b, player, pos, d, c, true) <==> ClearPath(b, pos, d, c)
    decreases c
  {
    if c > 1 {
      LiveWithCapture(b, player, pos, d, c - 1);
      if ClearPath(b, pos, d, c) {
        assert ClearPath(b, pos, d, c - 1);
        assert InBounds(Step(pos, d, c - 1)) && At(b, Step(pos, d, c - 1)) == 0;
      }
      if Live(b, player, pos, d, c, true) {
        forall j | 1 <= j < c ensures InBounds(Step(pos, d, j)) && At(b, Step(pos, d, j)) == 0 {
          if j == c - 1 {
            assert Passes(b, player, pos, d, c - 1, true);
          }
        }
      }
    }
  }

  /** With `capture=True` a rook, bishop or queen reaches a square exactly when it lies on
      one of its rays, every square before it on that ray is empty, and it is itself empty
      or an opponent's: each ray ends at, and includes, the first opponent piece, and stops
      short of the first own piece. */
  lemma SliderCaptureRays(g: Game, player: int, pos: Square, dirs: seq<Dir>, m: Square)
    requires WellFormed(g.board) && (player == 1 || player == -1)
    ensures m in SliderMoves(g, player, pos, dirs, true) <==>
      exists k, c :: 0 <= k < |dirs| && 1 <= c <= 7 && m == Step(pos, dirs[k], c)
        && InBounds(m) && Open(g.board, player, m) && ClearPath(g.board, pos, dirs[k], c)
  {
    SliderMovesExact(g, player, pos, dirs, true, m);
    forall k, c | 0 <= k < |dirs| && 1 <= c
      ensures Live(g.board, player, pos, dirs[k], c, true) <==> ClearPath(g.board, pos, dirs[k], c)
    {
      LiveWithCapture(g.board, player, pos, dirs[k], c);
    }
  }

  /** The queen's squares are the rook's and the bishop's together (only their order
      differs, the source interleaving all eight rays distance by distance). */
  lemma QueenIsRookAndBishop(g: Game, player: int, pos: Square, capture: bool, m: Square)
    requires WellFormed(g.board)
    ensures m in QueenMoves(g, player, pos, capture) <==>
            m in RookMoves(g, player, pos, capture) || m in BishopMoves(g, player, pos, capture)
  {
    if m in QueenMoves(g, player, pos, capture) { QueenSquare(g, player, pos, capture, m); }
    if m in RookMoves(g, player, pos, capture) { RookSquare(g, player, pos, capture, m); }
    if m in BishopMoves(g, player, pos, capture) { BishopSquare(g, player, pos, capture, m); }
  }

  /** A queen's square is along one of the rook's rays or one of the bishop's. */
  lemma QueenSquare(g: Game, player: int, pos: Square, capture: bool, m: Square)
    requires WellFormed(g.board) && m in QueenMoves(g, player, pos, capture)
    ensures m in RookMoves(g, player, pos, capture) || m in BishopMoves(g, player, pos, capture)
  {
    var b := g.board;
    SliderMovesExact(g, player, pos, QueenDirs, capture, m);
    var k, c :| 0 <= k < |QueenDirs| && 1 <= c && m == Step(pos, QueenDirs[k], c)
                && Reaches(b, player, pos, QueenDirs[k], c, capture);
    if k >= 4 {
      SliderMovesExact(g, player, pos, BishopDirs, capture, m);
      assert QueenDirs[k] == BishopDirs[k - 4];
      assert 0 <= k - 4 < |BishopDirs| && m == Step(pos, BishopDirs[k - 4], c)
             && Reaches(b, player, pos, BishopDirs[k - 4], c, capture);
    } else {
      SliderMovesExact(g, player, pos, RookDirs, capture, m);
      assert QueenDirs[k] == RookDirs[k];
      assert m == Step(pos, RookDirs[k], c) && Reaches(b, player, pos, RookDirs[k], c, capture);
    }
  }

  /** A rook's square is a queen's. */
  lemma RookSquare(g: Game, player: int, pos: Square, capture: bool, m: Square)
    requires WellFormed(g.board) && m in RookMoves(g, player, pos, capture)
    ensures m in QueenMoves(g, player, pos, capture)
  {
    var b := g.board;
    SliderMovesExact(g, player, pos, RookDirs, capture, m);
    SliderMovesExact(g, player, pos, QueenDirs, capture, m);
    var k, c :| 0 <= k < |RookDirs| && 1 <= c && m == Step(pos, RookDirs[k], c)
                && Reaches(b, player, pos, RookDirs[k], c, capture);
    assert QueenDirs[k] == RookDirs[k];
    assert m == Step(pos, QueenDirs[k], c) && Reaches(b, player, pos, QueenDirs[k], c, capture);
  }

  /** A bishop's square is a queen's. */
  lemma BishopSquare(g: Game, player: int, pos: Square, capture: bool, m: Square)
    requires WellFormed(g.board) && m in BishopMoves(g, player, pos, capture)
    ensures m in QueenMoves(g, player, pos, capture)
  {
    var b := g.board;
    SliderMovesExact(g, player, pos, BishopDirs, capture, m);
    SliderMovesExact(g, player, pos, QueenDirs, capture, m);
    var k, c :| 0 <= k < |BishopDirs| && 1 <= c && m == Step(pos, BishopDirs[k], c)
                && Reaches(b, player, pos, BishopDirs[k], c, capture);
    assert QueenDirs[k + 4] == BishopDirs[k];
    assert 0 <= k + 4 < |QueenDirs| && m == Step(pos, QueenDirs[k + 4], c)
           && Reaches(b, player, pos, QueenDirs[k + 4], c, capture);
  }

  // ---------------------------------------------------------------- geometry

  lemma PawnLeaves(g: Game, player: int, pos: Square, m: Square)
    requires WellFormed(g.board) && InBounds(pos) && (player == 1 || player == -1)
    requires m in PawnMoves(g, player, pos)
    ensures m.y == pos.y - player || (m.y == pos.y - 2 * player && pos.y == PawnStart(player))
  {
    PawnMovesExact(g, player, pos, m);
  }

  /** A king moves two columns only when castling from e1 or e8. */
  lemma KingLeaves(g: Game, player: int, pos: Square, originIsTuple: bool, m: Square)
    requires WellFormed(g.board) && InBounds(pos)
    requires m in KingMoves(g, player, pos, originIsTuple)
    ensures m != pos
    ensures m.x - pos.x == 2 ==> pos == Sq(4, pos.y) && m == Sq(6, pos.y) && (pos.y == 0 || pos.y == 7)
    ensures m.x - pos.x == -2 ==> pos == Sq(4, pos.y) && m == Sq(2, pos.y) && (pos.y == 0 || pos.y == 7)
  {
    if Adjacent(pos, m) {
    } else if m == Sq(6, pos.y) && KingSideCastle(g, pos, originIsTuple) {
      assert CastleOrigin(pos, originIsTuple);
    } else {
      assert m == Sq(2, pos.y) && CastleOrigin(pos, originIsTuple);
    }
  }

  lemma SliderLeaves(g: Game, player: int, pos: Square, dirs: seq<Dir>, capture: bool, m: Square)
    requires WellFormed(g.board)
    requires forall k :: 0 <= k < |dirs| ==> Abs(dirs[k].dx) == 1 || Abs(dirs[k].dy) == 1
    requires m in SliderMoves(g, player, pos, dirs, capture)
    ensures m != pos
  {
    SliderMovesExact(g, player, pos, dirs, capture, m);
    var k, c :| 0 <= k < |dirs| && 1 <= c && m == Step(pos, dirs[k], c) && Reaches(g.board, player, pos, dirs[k], c, capture);
    assert Abs(dirs[k].dx) == 1 || Abs(dirs[k].dy) == 1;
  }

  /** Every destination differs from the origin; a pawn's lies one row ahead, or two from
      its starting row; a king's two columns away only when castling from e1 or e8. */
  lemma DestinationLeaves(g: Game, part: int, player: int, pos: Square, capture: bool,
                          originIsTuple: bool, m: Square)
    requires WellFormed(g.board) && InBounds(pos) && (player == 1 || player == -1)
    requires IsPiece(part) && part != 0
    requires m in Destinations(g, part, player, pos, capture, originIsTuple)
    ensures m != pos
    ensures Abs(part) == 1 ==> m.y == pos.y - player || (m.y == pos.y - 2 * player && pos.y == PawnStart(player))
    ensures Abs(part) == 6 && m.x - pos.x == 2 ==> pos == Sq(4, pos.y) && m == Sq(6, pos.y) && (pos.y == 0 || pos.y == 7)
    ensures Abs(part) == 6 && m.x - pos.x == -2 ==> pos == Sq(4, pos.y) && m == Sq(2, pos.y) && (pos.y == 0 || pos.y == 7)
  {
    var kind := Abs(part);
    if kind == 1 {
      PawnLeaves(g, player, pos, m);
    } else if kind == 2 {
      KnightMovesExact(g, player, pos, m);
      assert KnightJump(pos, m);
    } else if kind == 6 {
      KingLeaves(g, player, pos, originIsTuple, m);
    } else if kind == 3 {
      SliderLeaves(g, player, pos, BishopDirs, capture, m);
    } else if kind == 4 {
      SliderLeaves(g, player, pos, RookDirs, capture, m);
    } else {
      SliderLeaves(g, player, pos, QueenDirs, capture, m);
    }
  }

  // ---------------------------------------------------------------- dispatch

  /** `getattr(Chess, parts[abs(part)]).movement(game, player, pos, capture)`: the
      generator of the piece's kind. Every square it returns is on the board, and every
      square a non-pawn returns is empty or an opponent's. */
  function Destinations(g: Game, part: int, player: int, pos: Square, capture: bool,
                    originIsTuple: bool): (r: seq<Square>)
    requires WellFormed(g.board) && InBounds(pos) && (player == 1 || player == -1)
    requires IsPiece(part) && part != 0
    ensures forall m :: m in r ==> InBounds(m)
    ensures Abs(part) != 1 ==> forall m :: m in r ==> Open(g.board, player, m)
  {
    var kind := Abs(part);
    if kind == 1 then
      assert forall m :: m in PawnMoves(g, player, pos) ==> InBounds(m) by {
        forall m | m in PawnMoves(g, player, pos) ensures InBounds(m) { PawnMovesExact(g, player, pos, m); }
      }
      PawnMoves(g, player, pos)
    else if kind == 2 then
      assert forall m :: m in KnightMoves(g, player, pos) ==> InBounds(m) && Open(g.board, player, m) by {
        forall m | m in KnightMoves(g, player, pos) ensures InBounds(m) && Open(g.board, player, m) {
          KnightMovesExact(g, player, pos, m);
        }
      }
      KnightMoves(g, player, pos)
    else if kind == 6 then KingMoves(g, player, pos, originIsTuple)
    else
      var dirs := if kind == 3 then BishopDirs else if kind == 4 then RookDirs else QueenDirs;
      var r := SliderMoves(g, player, pos, dirs, capture);
      assert forall m :: m in r ==> InBounds(m) && Open(g.board, player, m) by {
        forall m | m in r ensures InBounds(m) && Open(g.board, player, m) {
          SliderMovesExact(g, player, pos, dirs, capture, m);
        }
      }
      r
  }

  /** The generator the dispatch selects for each kind. */
  lemma DestinationsByKind(g: Game, part: int, player: int, pos: Square, capture: bool, originIsTuple: bool)
    requires WellFormed(g.board) && InBounds(pos) && (player == 1 || player == -1)
    requires IsPiece(part) && part != 0
    ensures var r := Destinations(g, part, player, pos, capture, originIsTuple);
      && (Abs(part) == 1 ==> r == PawnMoves(g, player, pos))
      && (Abs(part) == 2 ==> r == KnightMoves(g, player, pos))
      && (Abs(part) == 3 ==> r == SliderMoves(g, player, pos, BishopDirs, capture))
      && (Abs(part) == 4 ==> r == SliderMoves(g, player, pos, RookDirs, capture))
      && (Abs(part) == 5 ==> r == SliderMoves(g, player, pos, QueenDirs, capture))
      && (Abs(part) == 6 ==> r == KingMoves(g, player, pos, originIsTuple))
  {
  }
}
